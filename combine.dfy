/** combine_dicionaries: dict1 updated with dict2, level by level. On the
    tables the builder makes the recursion goes three levels deep: words,
    then parts of speech, then the three named sets, where it meets set
    values and takes their union. */
module Combine {
  import opened WordInfo

  /** The part-of-speech level of the merge: a tag only one side has keeps
      its fields, a tag both have gets the union of the two. */
  function MergedCategories(c1: map<string, Fields>, c2: map<string, Fields>): map<string, Fields>
  {
    map p | p in c1.Keys + c2.Keys ::
      if p in c1 && p in c2 then Union(c1[p], c2[p]) else if p in c2 then c2[p] else c1[p]
  }

  /** The word level of the merge: a word only dict2 has is inserted
      wholesale, a word both have has its tags merged. */
  function Merged(d1: Table, d2: Table): Table
  {
    map w | w in d1.Keys + d2.Keys ::
      if w in d1 && w in d2 then MergedCategories(d1[w], d2[w]) else if w in d2 then d2[w] else d1[w]
  }

  /** The part of m whose keys lie in keys. */
  function Restrict<V>(m: map<string, V>, keys: set<string>): map<string, V>
  {
    map k | k in m && k in keys :: m[k]
  }

  lemma RestrictAll<V>(m: map<string, V>)
    ensures Restrict(m, m.Keys) == m
  {
  }

  lemma MergedCategoriesStep(c1: map<string, Fields>, c2: map<string, Fields>, done: set<string>, p: string)
    requires p in c2 && p !in done
    ensures var before := MergedCategories(c1, Restrict(c2, done));
      MergedCategories(c1, Restrict(c2, done + {p}))
      == before[p := if p in before then Union(before[p], c2[p]) else c2[p]]
  {
    var before := MergedCategories(c1, Restrict(c2, done));
    assert p in before ==> p in c1 && before[p] == c1[p];
  }

  lemma RestrictStep<V>(m: map<string, V>, done: set<string>, k: string)
    requires k in m
    ensures Restrict(m, done + {k}) == Restrict(m, done)[k := m[k]]
  {
  }

  /** Merging a table with one more word, which the other table may have. */
  lemma MergedInsert(d1: Table, d2: Table, w: string, c: map<string, Fields>)
    requires w !in d2
    ensures Merged(d1, d2[w := c]) == Merged(d1, d2)[w := if w in d1 then MergedCategories(d1[w], c) else c]
  {
  }

  lemma MergedStep(d1: Table, d2: Table, done: set<string>, w: string)
    requires w in d2 && w !in done
    ensures var before := Merged(d1, Restrict(d2, done));
      Merged(d1, Restrict(d2, done + {w}))
      == before[w := if w in before then MergedCategories(before[w], d2[w]) else d2[w]]
  {
    RestrictStep(d2, done, w);
    MergedInsert(d1, Restrict(d2, done), w, d2[w]);
    var before := Merged(d1, Restrict(d2, done));
    assert w in before <==> w in d1;
    assert w in before ==> before[w] == d1[w];
  }

  /** combine_dicionaries one level down, on the tags of one word: a tag
      dict1 lacks is inserted, a shared one has each of its three sets
      updated with dict2's. */
  method CombineCategories(dict1: map<string, Fields>, dict2: map<string, Fields>) returns (combined: map<string, Fields>)
    ensures combined == MergedCategories(dict1, dict2)
  {
    combined := dict1;
    var remaining := dict2.Keys;
    ghost var done: set<string> := {};
    while remaining != {}
      invariant remaining + done == dict2.Keys && remaining !! done
      invariant combined == MergedCategories(dict1, Restrict(dict2, done))
      decreases remaining
    {
      var key :| key in remaining;
      MergedCategoriesStep(dict1, dict2, done, key);
      if key in combined {
        combined := combined[key := Union(combined[key], dict2[key])];
      } else {
        combined := combined[key := dict2[key]];
      }
      remaining := remaining - {key};
      done := done + {key};
    }
    RestrictAll(dict2);
  }

  /** combine_dicionaries on two builder tables: a word dict1 lacks is
      inserted with all its entries, a shared word has its tags combined.
      The result is what the function returns, dict1 as updated. */
  method CombineDictionaries(dict1: Table, dict2: Table) returns (combined: Table)
    ensures combined == Merged(dict1, dict2)
  {
    combined := dict1;
    var remaining := dict2.Keys;
    ghost var done: set<string> := {};
    while remaining != {}
      invariant remaining + done == dict2.Keys && remaining !! done
      invariant combined == Merged(dict1, Restrict(dict2, done))
      decreases remaining
    {
      var key :| key in remaining;
      MergedStep(dict1, dict2, done, key);
      if key in combined {
        var categories := CombineCategories(combined[key], dict2[key]);
        combined := combined[key := categories];
      } else {
        combined := combined[key := dict2[key]];
      }
      remaining := remaining - {key};
      done := done + {key};
    }
    RestrictAll(dict2);
  }

  /** The merge at one word and one tag: there is an entry exactly where one
      of the tables has one, and its fields are the union of theirs. */
  lemma MergedAt(d1: Table, d2: Table, w: string, p: string)
    ensures HasEntry(Merged(d1, d2), w, p) <==> HasEntry(d1, w, p) || HasEntry(d2, w, p)
    ensures FieldsAt(Merged(d1, d2), w, p) == Union(FieldsAt(d1, w, p), FieldsAt(d2, w, p))
  {
  }

  /** The words of the merge are those of either table; every tag of a word
      is a tag it has in one of them; every field set is the union of the
      two tables' sets; and a word dict2 lacks keeps its entry unchanged. */
  lemma MergedContents(d1: Table, d2: Table)
    ensures Merged(d1, d2).Keys == d1.Keys + d2.Keys
    ensures forall w | w in d1 && w in d2 :: Merged(d1, d2)[w].Keys == d1[w].Keys + d2[w].Keys
    ensures forall w, p :: FieldsAt(Merged(d1, d2), w, p) == Union(FieldsAt(d1, w, p), FieldsAt(d2, w, p))
    ensures forall w | w in d1 && w !in d2 :: Merged(d1, d2)[w] == d1[w]
  {
    forall w, p ensures FieldsAt(Merged(d1, d2), w, p) == Union(FieldsAt(d1, w, p), FieldsAt(d2, w, p)) {
      MergedAt(d1, d2, w, p);
    }
  }

  /** Merging the empty table, which is what build_word_info returns for a
      file that does not parse, leaves dict1 as it was. */
  lemma MergeEmpty(d1: Table)
    ensures Merged(d1, map[]) == d1
  {
  }

  lemma UnionSelf(f: Fields)
    ensures Union(f, f) == f
  {
  }

  lemma MergedCategoriesIdempotent(c1: map<string, Fields>, c2: map<string, Fields>)
    ensures MergedCategories(MergedCategories(c1, c2), c2) == MergedCategories(c1, c2)
  {
    var m := MergedCategories(c1, c2);
    forall p | p in m ensures MergedCategories(m, c2)[p] == m[p] {
      if p in c2 {
        if p in c1 {
          UnionAbsorbs(c1[p], c2[p]);
        } else {
          UnionSelf(c2[p]);
        }
      }
    }
  }

  /** Merging the same table a second time changes nothing. */
  lemma MergeIdempotent(d1: Table, d2: Table)
    ensures Merged(Merged(d1, d2), d2) == Merged(d1, d2)
  {
    var m := Merged(d1, d2);
    forall w | w in m ensures Merged(m, d2)[w] == m[w] {
      if w in d2 {
        if w in d1 {
          MergedCategoriesIdempotent(d1[w], d2[w]);
        } else {
          MergedCategoriesSelf(d2[w]);
        }
      }
    }
  }

  lemma MergedCategoriesSelf(c: map<string, Fields>)
    ensures MergedCategories(c, c) == c
  {
    forall p | p in c ensures MergedCategories(c, c)[p] == c[p] {
      UnionSelf(c[p]);
    }
  }

  lemma MergedCategoriesCommutative(c1: map<string, Fields>, c2: map<string, Fields>)
    ensures MergedCategories(c1, c2) == MergedCategories(c2, c1)
  {
    assert forall p | p in c1 && p in c2 :: Union(c1[p], c2[p]) == Union(c2[p], c1[p]);
  }

  /** The tags of w in t, none when t lacks w. */
  function CategoriesAt(t: Table, w: string): map<string, Fields>
  {
    if w in t then t[w] else map[]
  }

  /** The merge at one word: a word of either table, whose tags are the
      merge of the tags it has in each. */
  lemma MergedWordAt(d1: Table, d2: Table, w: string)
    ensures w in Merged(d1, d2) <==> w in d1 || w in d2
    ensures CategoriesAt(Merged(d1, d2), w) == MergedCategories(CategoriesAt(d1, w), CategoriesAt(d2, w))
  {
    MergedCategoriesEmpty(CategoriesAt(d1, w));
    MergedCategoriesCommutative(CategoriesAt(d2, w), map[]);
    MergedCategoriesEmpty(CategoriesAt(d2, w));
  }

  lemma MergedCategoriesEmpty(c: map<string, Fields>)
    ensures MergedCategories(c, map[]) == c
  {
  }

  /** The order in which two tables are merged does not matter ... */
  lemma MergeCommutative(d1: Table, d2: Table)
    ensures Merged(d1, d2) == Merged(d2, d1)
  {
    forall w | w in d1 && w in d2 ensures MergedCategories(d1[w], d2[w]) == MergedCategories(d2[w], d1[w]) {
      MergedCategoriesCommutative(d1[w], d2[w]);
    }
  }

  /** The fields of the tag p in c, Empty when c lacks p. */
  function FieldsIn(c: map<string, Fields>, p: string): Fields
  {
    if p in c then c[p] else Empty
  }

  /** The merge at one tag: a tag of either side, whose fields are the union
      of the fields it has on each. */
  lemma MergedCategoriesAt(c1: map<string, Fields>, c2: map<string, Fields>, p: string)
    ensures p in MergedCategories(c1, c2) <==> p in c1 || p in c2
    ensures FieldsIn(MergedCategories(c1, c2), p) == Union(FieldsIn(c1, p), FieldsIn(c2, p))
  {
  }

  lemma MergedCategoriesAssociative(c1: map<string, Fields>, c2: map<string, Fields>, c3: map<string, Fields>)
    ensures MergedCategories(MergedCategories(c1, c2), c3) == MergedCategories(c1, MergedCategories(c2, c3))
  {
    var l := MergedCategories(MergedCategories(c1, c2), c3);
    var r := MergedCategories(c1, MergedCategories(c2, c3));
    forall p | p in l ensures p in r && l[p] == r[p] {
      MergedCategoriesAt(MergedCategories(c1, c2), c3, p);
      MergedCategoriesAt(c1, c2, p);
      MergedCategoriesAt(c1, MergedCategories(c2, c3), p);
      MergedCategoriesAt(c2, c3, p);
      assert l[p] == FieldsIn(l, p) && r[p] == FieldsIn(r, p);
    }
    assert l.Keys == r.Keys;
  }

  /** ... nor does the grouping of three. */
  lemma MergeAssociative(d1: Table, d2: Table, d3: Table)
    ensures Merged(Merged(d1, d2), d3) == Merged(d1, Merged(d2, d3))
  {
    var l := Merged(Merged(d1, d2), d3);
    var r := Merged(d1, Merged(d2, d3));
    forall w | w in l ensures w in r && l[w] == r[w] {
      MergedWordAt(Merged(d1, d2), d3, w);
      MergedWordAt(d1, d2, w);
      MergedWordAt(d1, Merged(d2, d3), w);
      MergedWordAt(d2, d3, w);
      MergedCategoriesAssociative(CategoriesAt(d1, w), CategoriesAt(d2, w), CategoriesAt(d3, w));
    }
    assert l.Keys == r.Keys;
  }

  /** Merging two well-formed tables gives a well-formed table. */
  lemma MergePreservesWellFormed(d1: Table, d2: Table)
    requires WellFormed(d1) && WellFormed(d2)
    ensures WellFormed(Merged(d1, d2))
  {
  }

  /** Merging two tables with symmetric synonymy keeps it symmetric. */
  lemma MergePreservesSymmetric(d1: Table, d2: Table)
    requires Symmetric(d1) && Symmetric(d2)
    ensures Symmetric(Merged(d1, d2))
  {
    var m := Merged(d1, d2);
    forall a, p, b | b in FieldsAt(m, a, p).synonyms ensures HasEntry(m, b, p) && a in FieldsAt(m, b, p).synonyms {
      MergedAt(d1, d2, a, p);
      MergedAt(d1, d2, b, p);
    }
  }
}
