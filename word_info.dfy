/** The thesaurus table that build_word_info produces and combine_dicionaries
    merges: word -> part of speech -> the three sets "synonyms", "antonyms" and
    "definition". The nested Python dictionaries become three typed levels. */
module WordInfo {
  import opened Text

  /** The innermost dictionary of one word under one part of speech. */
  datatype Fields = Fields(synonyms: set<string>, antonyms: set<string>, definition: set<string>)

  /** The entry a word gets when it is first seen: three empty sets. */
  const Empty := Fields({}, {}, {})

  /** word -> part of speech -> fields. */
  type Table = map<string, map<string, Fields>>

  /** The set of elements of a list, as Python's set(xs) or list(s) relate them. */
  function Elems(xs: seq<string>): set<string>
  {
    set x | x in xs
  }

  /** The fields stored for w under pos, or Empty where the table has none. */
  function FieldsAt(t: Table, w: string, pos: string): Fields
  {
    if w in t && pos in t[w] then t[w][pos] else Empty
  }

  /** Field-by-field union: what set.update does to each of the three sets. */
  function Union(f: Fields, g: Fields): Fields
  {
    Fields(f.synonyms + g.synonyms, f.antonyms + g.antonyms, f.definition + g.definition)
  }

  /** Adding the same sets twice adds them once. */
  lemma UnionAbsorbs(f: Fields, g: Fields)
    ensures Union(Union(f, g), g) == Union(f, g)
  {
  }

  /** A word as the builder keeps it: stripped and not empty. */
  predicate IsWord(s: string)
  {
    s != [] && Trimmed(s)
  }

  /** What build_word_info guarantees of one word's fields: the word is not
      its own synonym, and every synonym, antonym and definition is a stripped,
      non-empty string. */
  predicate FieldsWellFormed(w: string, f: Fields)
  {
    && w !in f.synonyms
    && (forall x | x in f.synonyms :: IsWord(x))
    && (forall x | x in f.antonyms :: IsWord(x))
    && (forall d | d in f.definition :: IsWord(d))
  }

  /** Every key is a word and every entry is well formed. */
  predicate WellFormed(t: Table)
  {
    forall w | w in t :: IsWord(w) && forall p | p in t[w] :: FieldsWellFormed(w, t[w][p])
  }

  /** t has an entry for w under the tag p. */
  predicate HasEntry(t: Table, w: string, p: string)
  {
    w in t && p in t[w]
  }

  /** Synonymy is symmetric within each part of speech: if b is listed as a
      synonym of a, then b has an entry under the same tag that lists a. */
  ghost predicate Symmetric(t: Table)
  {
    forall a, p, b | b in FieldsAt(t, a, p).synonyms :: HasEntry(t, b, p) && a in FieldsAt(t, b, p).synonyms
  }
}
