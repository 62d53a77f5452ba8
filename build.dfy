/** build_word_info: one thesaurus file's synsets folded into a table that
    maps every term to its part of speech and, under it, the other terms of
    its synsets, their antonyms and their definitions. */
module Build {
  import opened Text
  import opened WordInfo

  datatype Option<T> = None | Some(value: T)

  /** One <synset> element as the three XPath queries return it: the text of
      every terms/term, the text of every gloss[@desc='orig']/orig, and the
      text of every ant below the synset, none of them stripped yet. */
  datatype Synset = Synset(terms: seq<string>, glosses: seq<string>, antonyms: seq<string>)

  /** The part-of-speech tag of a file: the last "/" field of its path, cut at
      the first ".". */
  function PartOfSpeech(xmlFile: string): (pos: string)
    ensures '/' !in pos && '.' !in pos
  {
    UpToFirst(AfterLast(xmlFile, '/'), '.')
  }

  /** The tag is the file's base name up to its first dot, whatever directory
      it sits in. */
  lemma PartOfSpeechOf(dir: string, stem: string, ext: string)
    requires dir == [] || dir[|dir| - 1] == '/'
    requires '/' !in stem && '.' !in stem
    requires '/' !in ext && (ext == [] || ext[0] == '.')
    ensures PartOfSpeech(dir + stem + ext) == stem
  {
    assert dir + stem + ext == dir + (stem + ext);
    AfterLastOf(dir, stem + ext, '/');
    UpToFirstOf(stem, ext, '.');
  }

  lemma PartOfSpeechOfAdjectives()
    ensures PartOfSpeech("resources/thesaurus/adj.xml") == "adj"
  {
    PartOfSpeechOf("resources/thesaurus/", "adj", ".xml");
    assert "resources/thesaurus/" + "adj" + ".xml" == "resources/thesaurus/adj.xml";
  }

  /** The non-empty strings of xs, in order. */
  function NonEmpty(xs: seq<string>): (r: seq<string>)
    ensures forall x :: x in r <==> x in xs && x != []
  {
    if xs == [] then []
    else
      assert xs == [xs[0]] + xs[1..];
      (if xs[0] == [] then [] else [xs[0]]) + NonEmpty(xs[1..])
  }

  /** [x.strip() for x in raw if x.strip()]: the stripped strings that are not
      empty, in order. */
  function Clean(raw: seq<string>): (r: seq<string>)
    ensures forall x | x in r :: IsWord(x)
  {
    NonEmpty(seq(|raw|, i requires 0 <= i < |raw| => Trim(raw[i])))
  }

  /** Clean keeps the stripped form of every string that is not all white space. */
  lemma CleanKeeps(raw: seq<string>)
    ensures forall i | 0 <= i < |raw| && !AllSpace(raw[i]) :: Trim(raw[i]) in Clean(raw)
  {
    var stripped := seq(|raw|, i requires 0 <= i < |raw| => Trim(raw[i]));
    assert forall i | 0 <= i < |raw| :: stripped[i] == Trim(raw[i]);
  }

  /** Clean keeps nothing but the stripped forms of its input strings. */
  lemma CleanOnly(raw: seq<string>)
    ensures forall x | x in Clean(raw) :: exists i | 0 <= i < |raw| :: x == Trim(raw[i])
  {
    var stripped := seq(|raw|, i requires 0 <= i < |raw| => Trim(raw[i]));
    forall x | x in Clean(raw) ensures exists i | 0 <= i < |raw| :: x == Trim(raw[i]) {
      var i :| 0 <= i < |stripped| && stripped[i] == x;
    }
  }

  /** The first `orig` gloss, stripped; "" when there is none. It is "" exactly
      when there is no gloss or the first one is all white space, which is
      when the builder records no definition. */
  function Definition(glosses: seq<string>): (d: string)
    ensures Trimmed(d)
    ensures d == "" <==> glosses == [] || AllSpace(glosses[0])
  {
    if |glosses| > 0 then Trim(glosses[0]) else ""
  }

  /** A synset as lines 26-35 leave it: its terms and antonyms stripped with
      the empty ones dropped, and its definition stripped ("" when it has none). */
  datatype Record = Record(terms: seq<string>, antonyms: seq<string>, definition: string)

  function Extract(s: Synset): Record
  {
    Record(Clean(s.terms), Clean(s.antonyms), Definition(s.glosses))
  }

  /** [f(x) for x in xs]. */
  function MapSeq<A, B>(f: A -> B, xs: seq<A>): (ys: seq<B>)
    ensures |ys| == |xs|
  {
    if xs == [] then [] else MapSeq(f, xs[..|xs| - 1]) + [f(xs[|xs| - 1])]
  }

  lemma {:induction false} MapSeqAt<A, B>(f: A -> B, xs: seq<A>)
    ensures forall i | 0 <= i < |xs| :: MapSeq(f, xs)[i] == f(xs[i])
  {
    if xs != [] {
      var init := xs[..|xs| - 1];
      MapSeqAt(f, init);
      assert forall i | 0 <= i < |init| :: init[i] == xs[i];
    }
  }

  /** The records of a sequence of synsets, one per synset. */
  function Records(ss: seq<Synset>): (rs: seq<Record>)
    ensures |rs| == |ss|
  {
    MapSeq(Extract, ss)
  }

  /** The i-th record is the extraction of the i-th synset, so the records
      follow document order. */
  lemma RecordsAt(ss: seq<Synset>)
    ensures forall i | 0 <= i < |ss| :: Records(ss)[i] == Extract(ss[i])
  {
    MapSeqAt(Extract, ss);
  }

  /** What the extraction guarantees of a record: every term and antonym is
      a stripped, non-empty string, and so is the definition unless it is "". */
  predicate RecordWellFormed(r: Record)
  {
    && (forall x | x in r.terms :: IsWord(x))
    && (forall x | x in r.antonyms :: IsWord(x))
    && (r.definition == "" || IsWord(r.definition))
  }

  lemma ExtractWellFormed(s: Synset)
    ensures RecordWellFormed(Extract(s))
  {
  }

  /** The terms other than word. */
  function Others(terms: seq<string>, word: string): set<string>
  {
    Elems(terms) - {word}
  }

  /** What one record adds to the entry of one of its terms: the other terms
      as synonyms, all antonyms, and the definition when it is not empty. */
  function Contribution(word: string, r: Record): Fields
  {
    Fields(Others(r.terms, word), Elems(r.antonyms), if r.definition == "" then {} else {r.definition})
  }

  /** Every entry of t has the single part-of-speech key pos. */
  predicate OnlyCategory(t: Table, pos: string)
  {
    forall w | w in t :: t[w].Keys == {pos}
  }

  /** One pass of the loop over a record's terms: create word's entry with
      three empty sets if it has none, then add the record's contribution. */
  function AddTerm(t: Table, pos: string, word: string, r: Record): Table
  {
    var entry := if word in t then t[word] else map[pos := Empty];
    var f := if pos in entry then entry[pos] else Empty;
    t[word := entry[pos := Union(f, Contribution(word, r))]]
  }

  /** The first n passes of the loop over a record's terms. */
  function AddTerms(t: Table, pos: string, r: Record, n: nat): Table
    requires n <= |r.terms|
  {
    if n == 0 then t else AddTerm(AddTerms(t, pos, r, n - 1), pos, r.terms[n - 1], r)
  }

  /** The table after the loop over records has seen all of rs. */
  function Built(pos: string, rs: seq<Record>): Table
  {
    if rs == [] then map[]
    else
      var r := rs[|rs| - 1];
      AddTerms(Built(pos, rs[..|rs| - 1]), pos, r, |r.terms|)
  }

  /** The loop over a record's terms gives no entry a second part-of-speech key. */
  lemma {:induction false} AddTermsOnlyCategory(t: Table, pos: string, r: Record, n: nat)
    requires n <= |r.terms|
    requires OnlyCategory(t, pos)
    ensures OnlyCategory(AddTerms(t, pos, r, n), pos)
  {
    if n > 0 {
      AddTermsOnlyCategory(t, pos, r, n - 1);
    }
  }

  /** Every word of the table build_word_info returns has exactly one
      part-of-speech key, the file's tag. */
  lemma {:induction false} BuiltOnlyCategory(pos: string, rs: seq<Record>)
    ensures OnlyCategory(Built(pos, rs), pos)
  {
    if rs != [] {
      var r := rs[|rs| - 1];
      BuiltOnlyCategory(pos, rs[..|rs| - 1]);
      AddTermsOnlyCategory(Built(pos, rs[..|rs| - 1]), pos, r, |r.terms|);
    }
  }

  /** AddTerm as the loop body performs it: the entry, created if missing, is
      read, extended and stored back. */
  lemma AddTermSteps(t: Table, pos: string, word: string, r: Record)
    requires OnlyCategory(t, pos)
    ensures var t' := if word in t then t else t[word := map[pos := Fields({}, {}, {})]];
      && word in t' && pos in t'[word]
      && AddTerm(t, pos, word, r) == t'[word := t'[word][pos := Union(t'[word][pos], Contribution(word, r))]]
  {
  }

  lemma OthersStep(terms: seq<string>, k: nat, word: string)
    requires k < |terms|
    ensures Others(terms[..k + 1], word) == Others(terms[..k], word) + (if terms[k] != word then {terms[k]} else {})
  {
    assert terms[..k + 1] == terms[..k] + [terms[k]];
  }

  lemma ElemsStep(xs: seq<string>, k: nat)
    requires k < |xs|
    ensures Elems(xs[..k + 1]) == Elems(xs[..k]) + {xs[k]}
  {
    assert xs[..k + 1] == xs[..k] + [xs[k]];
  }

  lemma AddTermAt(t: Table, pos: string, word: string, r: Record, w: string)
    ensures FieldsAt(AddTerm(t, pos, word, r), w, pos)
            == if w == word then Union(FieldsAt(t, w, pos), Contribution(w, r)) else FieldsAt(t, w, pos)
  {
  }

  /** What the loop over a record's terms does: the words of terms[..n] get
      an entry ... */
  lemma {:induction false} AddTermsKeys(t: Table, pos: string, r: Record, n: nat)
    requires n <= |r.terms|
    ensures AddTerms(t, pos, r, n).Keys == t.Keys + Elems(r.terms[..n])
  {
    if n > 0 {
      AddTermsKeys(t, pos, r, n - 1);
      ElemsStep(r.terms, n - 1);
    }
  }

  /** ... and gain their contribution; every other entry stays as it was. */
  lemma {:induction false} AddTermsAt(t: Table, pos: string, r: Record, n: nat, w: string)
    requires n <= |r.terms|
    ensures FieldsAt(AddTerms(t, pos, r, n), w, pos)
            == if w in Elems(r.terms[..n]) then Union(FieldsAt(t, w, pos), Contribution(w, r)) else FieldsAt(t, w, pos)
  {
    if n > 0 {
      var t' := AddTerms(t, pos, r, n - 1);
      var word := r.terms[n - 1];
      var f := FieldsAt(t, w, pos);
      var c := Contribution(w, r);
      AddTermsAt(t, pos, r, n - 1, w);
      ElemsStep(r.terms, n - 1);
      AddTermAt(t', pos, word, r, w);
      var seen := w in Elems(r.terms[..n - 1]);
      assert FieldsAt(t', w, pos) == if seen then Union(f, c) else f;
      var now := FieldsAt(AddTerms(t, pos, r, n), w, pos);
      if w == word {
        UnionAbsorbs(f, c);
        assert now == Union(FieldsAt(t', w, pos), c);
        assert now == Union(f, c);
        assert w in Elems(r.terms[..n]);
      } else {
        assert now == FieldsAt(t', w, pos);
        assert (w in Elems(r.terms[..n])) == seen;
      }
    }
  }

  /** w is a term of some record of rs. */
  ghost predicate Listed(rs: seq<Record>, w: string)
  {
    exists r | r in rs :: w in r.terms
  }

  /** x and w are different terms of one record of rs. */
  ghost predicate SynonymIn(rs: seq<Record>, w: string, x: string)
  {
    exists r | r in rs :: w in r.terms && x in r.terms && x != w
  }

  /** x is an antonym in a record of rs that has the term w. */
  ghost predicate AntonymIn(rs: seq<Record>, w: string, x: string)
  {
    exists r | r in rs :: w in r.terms && x in r.antonyms
  }

  /** d is the non-empty definition of a record of rs that has the term w. */
  ghost predicate DefinitionIn(rs: seq<Record>, w: string, d: string)
  {
    exists r | r in rs :: w in r.terms && d == r.definition && d != ""
  }

  /** The records of rs are those of its first |rs| - 1 and its last. */
  lemma InSnoc(rs: seq<Record>)
    requires rs != []
    ensures forall r :: r in rs <==> r in rs[..|rs| - 1] || r == rs[|rs| - 1]
  {
    assert rs == rs[..|rs| - 1] + [rs[|rs| - 1]];
  }

  /** The words of the table build_word_info returns are exactly the terms
      of its records. */
  lemma {:induction false} BuiltWords(pos: string, rs: seq<Record>)
    ensures forall w :: w in Built(pos, rs) <==> Listed(rs, w)
  {
    if rs != [] {
      var rs' := rs[..|rs| - 1];
      var r := rs[|rs| - 1];
      BuiltWords(pos, rs');
      AddTermsKeys(Built(pos, rs'), pos, r, |r.terms|);
      assert r.terms[..|r.terms|] == r.terms;
      InSnoc(rs);
    }
  }

  /** Under the file's tag, a word's synonyms are exactly the other terms
      of the records it is a term of. */
  lemma {:induction false} BuiltSynonyms(pos: string, rs: seq<Record>)
    ensures forall w, x :: x in FieldsAt(Built(pos, rs), w, pos).synonyms <==> SynonymIn(rs, w, x)
  {
    if rs != [] {
      var rs' := rs[..|rs| - 1];
      var r := rs[|rs| - 1];
      BuiltSynonyms(pos, rs');
      assert r.terms[..|r.terms|] == r.terms;
      InSnoc(rs);
      forall w, x ensures x in FieldsAt(Built(pos, rs), w, pos).synonyms <==> SynonymIn(rs, w, x) {
        AddTermsAt(Built(pos, rs'), pos, r, |r.terms|, w);
      }
    }
  }

  /** Under the file's tag, a word's antonyms are exactly the antonyms of
      the records it is a term of. */
  lemma {:induction false} BuiltAntonyms(pos: string, rs: seq<Record>)
    ensures forall w, x :: x in FieldsAt(Built(pos, rs), w, pos).antonyms <==> AntonymIn(rs, w, x)
  {
    if rs != [] {
      var rs' := rs[..|rs| - 1];
      var r := rs[|rs| - 1];
      BuiltAntonyms(pos, rs');
      assert r.terms[..|r.terms|] == r.terms;
      InSnoc(rs);
      forall w, x ensures x in FieldsAt(Built(pos, rs), w, pos).antonyms <==> AntonymIn(rs, w, x) {
        AddTermsAt(Built(pos, rs'), pos, r, |r.terms|, w);
      }
    }
  }

  /** Under the file's tag, a word's definitions are exactly the non-empty
      definitions of the records it is a term of. */
  lemma {:induction false} BuiltDefinitions(pos: string, rs: seq<Record>)
    ensures forall w, d :: d in FieldsAt(Built(pos, rs), w, pos).definition <==> DefinitionIn(rs, w, d)
  {
    if rs != [] {
      var rs' := rs[..|rs| - 1];
      var r := rs[|rs| - 1];
      BuiltDefinitions(pos, rs');
      assert r.terms[..|r.terms|] == r.terms;
      InSnoc(rs);
      forall w, d ensures d in FieldsAt(Built(pos, rs), w, pos).definition <==> DefinitionIn(rs, w, d) {
        AddTermsAt(Built(pos, rs'), pos, r, |r.terms|, w);
      }
    }
  }

  /** No word is listed as its own synonym. */
  lemma NoSelfSynonym(pos: string, rs: seq<Record>, w: string)
    ensures w !in FieldsAt(Built(pos, rs), w, pos).synonyms
  {
    BuiltSynonyms(pos, rs);
  }

  /** Every record the extraction produces is well formed. */
  lemma {:induction false} RecordsWellFormed(ss: seq<Synset>)
    ensures forall r | r in Records(ss) :: RecordWellFormed(r)
  {
    if ss != [] {
      RecordsWellFormed(ss[..|ss| - 1]);
      ExtractWellFormed(ss[|ss| - 1]);
      InSnoc(Records(ss));
    }
  }

  /** From well-formed records the builder makes a well-formed table. */
  lemma BuiltWellFormed(pos: string, rs: seq<Record>)
    requires forall r | r in rs :: RecordWellFormed(r)
    ensures WellFormed(Built(pos, rs))
  {
    var t: Table := Built(pos, rs);
    BuiltOnlyCategory(pos, rs);
    BuiltWords(pos, rs);
    BuiltSynonyms(pos, rs);
    BuiltAntonyms(pos, rs);
    BuiltDefinitions(pos, rs);
    forall w | w in t ensures IsWord(w) && forall p | p in t[w] :: FieldsWellFormed(w, t[w][p]) {
      assert Listed(rs, w);
      assert t[w][pos] == FieldsAt(t, w, pos);
    }
  }

  /** The synonym relation of the table is symmetric: two terms that share a
      synset are listed as synonyms of each other. */
  lemma BuiltSymmetric(pos: string, rs: seq<Record>)
    ensures Symmetric(Built(pos, rs))
  {
    var t: Table := Built(pos, rs);
    BuiltOnlyCategory(pos, rs);
    BuiltWords(pos, rs);
    BuiltSynonyms(pos, rs);
    forall a, p, b | b in FieldsAt(t, a, p).synonyms ensures HasEntry(t, b, p) && a in FieldsAt(t, b, p).synonyms {
      assert HasEntry(t, a, p) && p == pos;
      var r :| r in rs && a in r.terms && b in r.terms && b != a;
      assert Listed(rs, b);
      assert SynonymIn(rs, b, a);
    }
  }

  /** Two tables with the single tag pos are equal when they have the same
      words and the same fields for each. */
  lemma TableEquality(a: Table, b: Table, pos: string)
    requires OnlyCategory(a, pos) && OnlyCategory(b, pos)
    requires a.Keys == b.Keys
    requires forall w :: FieldsAt(a, w, pos) == FieldsAt(b, w, pos)
    ensures a == b
  {
    forall w | w in a ensures a[w] == b[w] {
      assert FieldsAt(a, w, pos) == a[w][pos] && FieldsAt(b, w, pos) == b[w][pos];
    }
  }

  /** Tables built from the same records have the same fields for every word. */
  lemma BuiltFieldsAgree(pos: string, rs1: seq<Record>, rs2: seq<Record>, w: string)
    requires forall r :: r in rs1 <==> r in rs2
    ensures FieldsAt(Built(pos, rs1), w, pos) == FieldsAt(Built(pos, rs2), w, pos)
  {
    var f1 := FieldsAt(Built(pos, rs1), w, pos);
    var f2 := FieldsAt(Built(pos, rs2), w, pos);
    BuiltSynonyms(pos, rs1);
    BuiltSynonyms(pos, rs2);
    assert f1.synonyms == f2.synonyms by {
      assert forall x :: SynonymIn(rs1, w, x) == SynonymIn(rs2, w, x);
    }
    BuiltAntonyms(pos, rs1);
    BuiltAntonyms(pos, rs2);
    assert f1.antonyms == f2.antonyms by {
      assert forall x :: AntonymIn(rs1, w, x) == AntonymIn(rs2, w, x);
    }
    BuiltDefinitions(pos, rs1);
    BuiltDefinitions(pos, rs2);
    assert f1.definition == f2.definition by {
      assert forall d :: DefinitionIn(rs1, w, d) == DefinitionIn(rs2, w, d);
    }
  }

  /** The table depends only on which records there are: not on their
      order, nor on how often each occurs. */
  lemma BuiltOrderIndependent(pos: string, rs1: seq<Record>, rs2: seq<Record>)
    requires forall r :: r in rs1 <==> r in rs2
    ensures Built(pos, rs1) == Built(pos, rs2)
  {
    var t1 := Built(pos, rs1);
    var t2 := Built(pos, rs2);
    BuiltOnlyCategory(pos, rs1);
    BuiltOnlyCategory(pos, rs2);
    BuiltWords(pos, rs1);
    BuiltWords(pos, rs2);
    assert t1.Keys == t2.Keys by {
      assert forall w :: Listed(rs1, w) == Listed(rs2, w);
    }
    forall w ensures FieldsAt(t1, w, pos) == FieldsAt(t2, w, pos) {
      BuiltFieldsAgree(pos, rs1, rs2, w);
    }
    TableEquality(t1, t2, pos);
  }

  /** Processing a synset's record a second time changes nothing. */
  lemma BuiltRepeat(pos: string, rs: seq<Record>, r: Record)
    requires r in rs
    ensures Built(pos, rs + [r]) == Built(pos, rs)
  {
    BuiltOrderIndependent(pos, rs + [r], rs);
  }

  /** Two records can be processed in either order. */
  lemma BuiltSwap(pos: string, rs: seq<Record>, r1: Record, r2: Record)
    ensures Built(pos, rs + [r1, r2]) == Built(pos, rs + [r2, r1])
  {
    BuiltOrderIndependent(pos, rs + [r1, r2], rs + [r2, r1]);
  }

  /** A synset with a single term and neither antonym nor gloss still gives
      its term an entry, with all three sets empty. */
  lemma LoneTermEntry()
    ensures Built("adj", [Record(["alone"], [], "")]) == map["alone" := map["adj" := Empty]]
  {
    var r := Record(["alone"], [], "");
    BuiltStep("adj", [], r);
    assert [] + [r] == [r];
    assert Others(r.terms, "alone") == {};
    assert Contribution("alone", r) == Empty;
    assert Built("adj", []) == map[];
    assert AddTerms(map[], "adj", r, 1) == AddTerm(map[], "adj", "alone", r);
    var created: map<string, Fields> := map["adj" := Empty];
    assert created["adj" := Union(Empty, Empty)] == map["adj" := Union(Empty, Empty)];
    assert AddTerm(map[], "adj", "alone", r) == map["alone" := created["adj" := Union(Empty, Empty)]];
    assert Union(Empty, Empty) == Empty;
  }

  /** The table build_word_info returns for a parsed file is well formed and
      symmetric, and has the file's tag as its only part-of-speech key. */
  lemma BuildWordInfoProperties(xmlFile: string, ss: seq<Synset>)
    ensures var t := Built(PartOfSpeech(xmlFile), Records(ss));
      WellFormed(t) && Symmetric(t) && OnlyCategory(t, PartOfSpeech(xmlFile))
  {
    RecordsWellFormed(ss);
    BuiltWellFormed(PartOfSpeech(xmlFile), Records(ss));
    BuiltSymmetric(PartOfSpeech(xmlFile), Records(ss));
    BuiltOnlyCategory(PartOfSpeech(xmlFile), Records(ss));
  }

  /** Lines 47-53 of build_word_info for one term: every other term becomes a
      synonym, every antonym an antonym, and the definition, when there is
      one, a definition. entry stands for the dictionary
      word_info[word][part_of_speech] that those lines add to. */
  method FillEntry(entry: Fields, word: string, terms: seq<string>, antonyms: seq<string>, definition: string)
    returns (filled: Fields)
    ensures filled == Union(entry, Contribution(word, Record(terms, antonyms, definition)))
  {
    filled := entry;
    for k := 0 to |terms|
      invariant filled == entry.(synonyms := entry.synonyms + Others(terms[..k], word))
    {
      var other := terms[k];
      if other != word {
        filled := filled.(synonyms := filled.synonyms + {other});
      }
      OthersStep(terms, k, word);
    }
    assert terms[..|terms|] == terms;
    for k := 0 to |antonyms|
      invariant filled == entry.(synonyms := entry.synonyms + Others(terms, word), antonyms := entry.antonyms + Elems(antonyms[..k]))
    {
      var ant := antonyms[k];
      filled := filled.(antonyms := filled.antonyms + {ant});
      ElemsStep(antonyms, k);
    }
    assert antonyms[..|antonyms|] == antonyms;
    if definition != "" {
      filled := filled.(definition := filled.definition + {definition});
    }
  }

  lemma RecordsStep(ss: seq<Synset>, i: nat)
    requires i < |ss|
    ensures Records(ss[..i + 1]) == Records(ss[..i]) + [Extract(ss[i])]
  {
    assert ss[..i + 1][..i] == ss[..i];
    assert MapSeq(Extract, ss[..i + 1]) == MapSeq(Extract, ss[..i]) + [Extract(ss[i])];
  }

  lemma BuiltStep(pos: string, rs: seq<Record>, r: Record)
    ensures Built(pos, rs + [r]) == AddTerms(Built(pos, rs), pos, r, |r.terms|)
  {
    assert (rs + [r])[..|rs|] == rs;
  }

  /** Lines 38-53 of build_word_info for one synset: each of its terms gets
      an entry under the tag, created with three empty sets when missing,
      and is filled from the synset's record. */
  method AddRecord(wordInfo: Table, partOfSpeech: string, terms: seq<string>, antonyms: seq<string>, definition: string)
    returns (updated: Table)
    requires OnlyCategory(wordInfo, partOfSpeech)
    ensures updated == AddTerms(wordInfo, partOfSpeech, Record(terms, antonyms, definition), |terms|)
  {
    ghost var record := Record(terms, antonyms, definition);
    updated := wordInfo;
    for j := 0 to |terms|
      invariant updated == AddTerms(wordInfo, partOfSpeech, record, j)
    {
      var word := terms[j];
      AddTermsOnlyCategory(wordInfo, partOfSpeech, record, j);
      AddTermSteps(updated, partOfSpeech, word, record);
      if word !in updated {
        updated := updated[word := map[partOfSpeech := Fields({}, {}, {})]];
      }
      var entry := FillEntry(updated[word][partOfSpeech], word, terms, antonyms, definition);
      updated := updated[word := updated[word][partOfSpeech := entry]];
    }
  }

  /** build_word_info: a file that cannot be parsed gives the empty table;
      otherwise the table is the fold of its synsets' records, in document order. */
  method BuildWordInfo(xmlFile: string, parsed: Option<seq<Synset>>) returns (wordInfo: Table)
    ensures parsed.None? ==> wordInfo == map[]
    ensures parsed.Some? ==> wordInfo == Built(PartOfSpeech(xmlFile), Records(parsed.value))
  {
    var partOfSpeech := PartOfSpeech(xmlFile);
    if parsed.None? {
      return map[];
    }
    var root := parsed.value;
    wordInfo := map[];
    for i := 0 to |root|
      invariant wordInfo == Built(partOfSpeech, Records(root[..i]))
    {
      var terms := Clean(root[i].terms);
      var definition := Definition(root[i].glosses);
      var antonyms := Clean(root[i].antonyms);
      BuiltOnlyCategory(partOfSpeech, Records(root[..i]));
      wordInfo := AddRecord(wordInfo, partOfSpeech, terms, antonyms, definition);
      RecordsStep(root, i);
      BuiltStep(partOfSpeech, Records(root[..i]), Extract(root[i]));
    }
    assert root[..|root|] == root;
  }
}
