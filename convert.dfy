/** convert_sets_to_lists: every set of the table replaced by a list of its
    elements, so that the table can be written out as JSON. */
module Convert {
  import opened WordInfo

  /** The three fields of an entry as lists. */
  datatype Lists = Lists(synonyms: seq<string>, antonyms: seq<string>, definition: seq<string>)

  /** The table after conversion: word -> part of speech -> lists. */
  type Listing = map<string, map<string, Lists>>

  /** No element occurs twice. */
  predicate Distinct(xs: seq<string>)
  {
    forall i, j | 0 <= i < j < |xs| :: xs[i] != xs[j]
  }

  /** xs is what list(s) may return: each element of s exactly once, in
      whatever order the set is iterated. */
  predicate ListOf(xs: seq<string>, s: set<string>)
  {
    Distinct(xs) && Elems(xs) == s
  }

  predicate ListsOf(l: Lists, f: Fields)
  {
    ListOf(l.synonyms, f.synonyms) && ListOf(l.antonyms, f.antonyms) && ListOf(l.definition, f.definition)
  }

  /** The tags of one word, converted. */
  predicate CategoriesListed(listed: map<string, Lists>, categories: map<string, Fields>)
  {
    listed.Keys == categories.Keys && forall p | p in listed :: ListsOf(listed[p], categories[p])
  }

  /** listed is t with every set turned into a list of its elements. */
  predicate Converted(listed: Listing, t: Table)
  {
    listed.Keys == t.Keys && forall w | w in listed :: CategoriesListed(listed[w], t[w])
  }

  /** The table a converted one stands for: every list read back as a set. */
  function Restore(listed: Listing): Table
  {
    map w | w in listed :: map p | p in listed[w] ::
      Fields(Elems(listed[w][p].synonyms), Elems(listed[w][p].antonyms), Elems(listed[w][p].definition))
  }

  /** list(value) for one set. */
  method SetToList(s: set<string>) returns (xs: seq<string>)
    ensures ListOf(xs, s)
  {
    xs := [];
    var rest := s;
    while rest != {}
      invariant Distinct(xs) && Elems(xs) + rest == s && Elems(xs) !! rest
      decreases rest
    {
      var x :| x in rest;
      xs := xs + [x];
      rest := rest - {x};
    }
  }

  /** The innermost loop of convert_sets_to_lists, over the three keys of one entry. */
  method ConvertFields(data: Fields) returns (lists: Lists)
    ensures ListsOf(lists, data)
  {
    var synonyms := SetToList(data.synonyms);
    var antonyms := SetToList(data.antonyms);
    var definition := SetToList(data.definition);
    lists := Lists(synonyms, antonyms, definition);
  }

  /** The middle loop, over the tags of one word. */
  method ConvertCategories(info: map<string, Fields>) returns (listed: map<string, Lists>)
    ensures CategoriesListed(listed, info)
  {
    listed := map[];
    var remaining := info.Keys;
    while remaining != {}
      invariant remaining <= info.Keys && listed.Keys == info.Keys - remaining
      invariant forall p | p in listed :: ListsOf(listed[p], info[p])
      decreases remaining
    {
      var partOfSpeech :| partOfSpeech in remaining;
      var lists := ConvertFields(info[partOfSpeech]);
      listed := listed[partOfSpeech := lists];
      remaining := remaining - {partOfSpeech};
    }
  }

  /** convert_sets_to_lists: the same words and the same tags, each set now
      a list holding exactly its elements, none of them twice. */
  method ConvertSetsToLists(wordInfo: Table) returns (listed: Listing)
    ensures Converted(listed, wordInfo)
  {
    listed := map[];
    var remaining := wordInfo.Keys;
    while remaining != {}
      invariant remaining <= wordInfo.Keys && listed.Keys == wordInfo.Keys - remaining
      invariant forall w | w in listed :: CategoriesListed(listed[w], wordInfo[w])
      decreases remaining
    {
      var word :| word in remaining;
      var info := ConvertCategories(wordInfo[word]);
      listed := listed[word := info];
      remaining := remaining - {word};
    }
  }

  /** Reading the lists back as sets gives the table that was converted:
      the conversion loses nothing and adds nothing. */
  lemma RestoreConverted(listed: Listing, t: Table)
    requires Converted(listed, t)
    ensures Restore(listed) == t
  {
    forall w | w in t ensures Restore(listed)[w] == t[w] {
      assert CategoriesListed(listed[w], t[w]);
    }
  }

  /** A list without repeats has as many elements as its set. */
  lemma {:induction false} DistinctLength(xs: seq<string>)
    requires Distinct(xs)
    ensures |Elems(xs)| == |xs|
  {
    if xs != [] {
      var init := xs[..|xs| - 1];
      var last := xs[|xs| - 1];
      assert Distinct(init);
      DistinctLength(init);
      assert xs == init + [last];
      assert Elems(xs) == Elems(init) + {last};
      assert last !in Elems(init) by {
        forall i | 0 <= i < |init| ensures init[i] != last {
          assert xs[i] != xs[|xs| - 1];
        }
      }
    }
  }

  /** So each list of the converted table is as long as the set it replaced. */
  lemma ListLength(xs: seq<string>, s: set<string>)
    requires ListOf(xs, s)
    ensures |xs| == |s|
  {
    DistinctLength(xs);
  }
}
