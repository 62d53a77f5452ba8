# linkonym thesaurus builder, modelled in Dafny

linkonym turns a WordNet-style XML thesaurus into one lookup table. The table maps
each word to its parts of speech, and under each part of speech to three sets:
the word's synonyms, its antonyms and its definitions. `main.py` does this in three
steps, which a fourth function chains, and this project models and proves each one:

- `build_word_info` reads one file. The part-of-speech tag comes from the file
  name. It walks the file's synsets in document order. For each synset it strips
  the terms, the antonyms and the first `orig` gloss. Then every term receives
  the other terms as synonyms, the synset's antonyms, and that gloss, when it is
  not empty, as a definition (module `Build`, file `build.dfy`).
- `combine_dicionaries` merges the table of one file into the table built so far.
  The recursion goes words, then tags, then set union (module `Combine`,
  file `combine.dfy`).
- `convert_sets_to_lists` turns every set into a list, so the table can be
  written as JSON (module `Convert`, file `convert.dfy`).
- `make_word_info_json` builds every file, merges the tables in file order and
  converts the result; the JSON dump itself is not modelled (module `Pipeline`,
  file `pipeline.dfy`).

`Text` (`text.dfy`) models `str.strip()` and the `split` lookups on the path.
`WordInfo` (`word_info.dfy`) holds the table type and the invariants that the
other modules prove.

Each imperative step is modelled imperatively:

- `BuildWordInfo`, `AddRecord` and `FillEntry` are the nested loops of lines 24-53.
- `CombineDictionaries` and `CombineCategories` are the loops of the recursion.
- `ConvertSetsToLists`, `ConvertCategories`, `ConvertFields` and `SetToList` are
  the triple loop and `list(value)`.
- `MakeWordInfo` is the loop over the files of lines 96-100.

Each method is proved against a specification:

| method | proved equal to, or to satisfy |
|---|---|
| `Build.BuildWordInfo` | `Built` over `Records` of the synsets, or `map[]` |
| `Build.AddRecord` | `AddTerms` over all of the synset's terms |
| `Build.FillEntry` | `Union` of the entry with `Contribution` |
| `Combine.CombineDictionaries` | `Merged` |
| `Combine.CombineCategories` | `MergedCategories` |
| `Convert.ConvertSetsToLists` | the predicate `Converted` |
| `Convert.ConvertCategories` | the predicate `CategoriesListed` |
| `Convert.ConvertFields` | the predicate `ListsOf` |
| `Convert.SetToList` | the predicate `ListOf` |
| `Pipeline.MakeWordInfo` | `Converted` of `MergedFiles` |

Lemmas then characterise those specifications:
- which words, synonyms, antonyms and definitions appear;
- the well-formedness and symmetry of the result;
- independence from record order;
- the algebra of the merge;
- the round trip to lists.

Python dictionaries become Dafny value maps. A method receives the table and
returns the updated one; the Python functions return the dictionary they updated.
The XML parser is not modelled. `BuildWordInfo` receives what the three XPath
queries return for each synset (`Synset`), or `None` when `etree.parse` fails.

A word can be in the table with three empty sets. A synset with one term, no
antonym and no gloss still gives that term an entry (main.py:39-46).
`LoneTermEntry` proves this.

## Model

| member | source | states |
|---|---|---|
| Text.Trim | main.py:27 | `strip()`: the result has no white space at either end (the characters of Python's `str.isspace`), and it is empty exactly when the input is all white space |
| Text.TrimIsSlice | main.py:27 | `strip()` removes white space only at the two ends: the result is a slice `s[i..j]`, and everything outside the slice is white space |
| Text.TrimIdempotent | main.py:27 | stripping a second time changes nothing |
| Text.TrimTrimmed | main.py:27 | a string with no white space at either end is its own strip |
| Text.TrimStart | main.py:27 | the `lstrip` half: a suffix whose removed prefix is all white space and whose first character is not |
| Text.TrimEnd | main.py:27 | the `rstrip` half: a prefix whose removed suffix is all white space and whose last character is not |
| Text.AfterLast | main.py:13 | `split("/")[-1]`: a suffix holding no separator, and the character just before it is the separator |
| Text.UpToFirst | main.py:13 | `split(".")[0]`: a prefix holding no separator, and the character just after it is the separator |
| Text.AfterLastOf | main.py:13 | the last field of `a + b` is `b` when `b` has no separator and `a` is empty or ends in one |
| Text.UpToFirstOf | main.py:13 | the first field of `a + b` is `a` when `a` has no separator and `b` is empty or starts with one |
| Build.PartOfSpeech | main.py:13 | the tag holds neither `/` nor `.` |
| Build.PartOfSpeechOf | main.py:13 | for any directory, a base name without `/` or `.`, and an extension starting with `.`, the tag is the base name |
| Build.PartOfSpeechOfAdjectives | main.py:13 | `resources/thesaurus/adj.xml` gives the tag `adj` |
| Build.NonEmpty | main.py:27 | the `if term.strip()` filter: a string is kept exactly when it was in the list and is not empty |
| Build.Clean | main.py:27 | every string the list comprehension keeps is a word: not empty, with no white space at either end |
| Build.CleanKeeps | main.py:27 | the stripped form of every input that is not all white space is kept |
| Build.CleanOnly | main.py:35 | every kept string is the stripped form of some input |
| Build.Definition | main.py:31 | the definition has no white space at either end, and it is `""` exactly when the synset has no `orig` gloss or its first one is all white space, which is when lines 52-53 add nothing |
| Build.Records | main.py:24-35 | one record per synset |
| Build.RecordsAt | main.py:24-35 | the i-th record is the extraction of the i-th synset, so the records follow document order |
| Build.ExtractWellFormed | main.py:26-35 | an extracted record's terms and antonyms are words, and its definition is a word or `""` |
| Build.RecordsWellFormed | main.py:24-35 | every record extracted from a file is well formed |
| Build.AddTermsOnlyCategory | main.py:38-46 | the loop over a synset's terms adds no second tag to any entry |
| Build.BuiltOnlyCategory | main.py:38-46 | every word of one file's table has exactly one tag, the file's |
| Build.AddTermSteps | main.py:39-53 | one iteration creates the entry when it is missing, with three empty sets, and adds the record's contribution to it |
| Build.AddTermAt | main.py:38-53 | one iteration changes only the current word's fields, and it adds that word's contribution to them |
| Build.AddTermsKeys | main.py:38-46 | after the loop over a synset's terms, the words of the table are the old ones plus the synset's terms |
| Build.AddTermsAt | main.py:47-53 | after that loop, every term of the synset has gained the synset's contribution once, and every other word is unchanged |
| Build.BuiltWords | main.py:38-46 | the words of the table are exactly the terms of the file's synsets |
| Build.BuiltSynonyms | main.py:47-49 | `x` is a synonym of `w` exactly when some synset has both as terms and `x != w` |
| Build.BuiltAntonyms | main.py:50-51 | `x` is an antonym of `w` exactly when some synset with the term `w` lists the antonym `x` |
| Build.BuiltDefinitions | main.py:52-53 | `d` is a definition of `w` exactly when `d` is not empty and is the definition of a synset with the term `w` |
| Build.NoSelfSynonym | main.py:47-49 | no word is its own synonym, even when a synset lists a term twice |
| Build.BuiltWellFormed | main.py:27-53 | the table's words and every synonym, antonym and definition are non-empty strings with no white space at either end, and no word is its own synonym |
| Build.BuiltSymmetric | main.py:38-49 | within a tag, when `b` is a synonym of `a`, then `b` has an entry under that tag and `a` is among its synonyms |
| Build.TableEquality | main.py:38-53 | two one-tag tables with the same words and the same fields for each word are equal |
| Build.BuiltFieldsAgree | main.py:38-53 | tables built from the same records have the same fields for every word |
| Build.BuiltOrderIndependent | main.py:24-53 | the table depends only on which synsets there are, not on their order or their repetition |
| Build.BuiltRepeat | main.py:24-53 | processing a synset a second time changes nothing |
| Build.BuiltSwap | main.py:24-53 | two synsets can be processed in either order |
| Build.LoneTermEntry | main.py:38-53 | a synset with one term, no antonym and no gloss gives that term an entry whose three sets are empty |
| Build.BuildWordInfoProperties | main.py:13-53 | one file's table is well formed and symmetric, and it has the file's tag as its only tag |
| Build.FillEntry | main.py:47-53 | the three loops over one entry add the other terms, every antonym, and the non-empty definition to it |
| Build.AddRecord | main.py:38-53 | the loop over one synset's terms equals `AddTerms` over all of the synset's terms |
| Build.BuildWordInfo | main.py:13-55 | an unparsable file gives the empty table; otherwise the result is the fold `Built` of the file's records in document order |
| Combine.CombineCategories | main.py:58-68 | the recursion one level down, on a word's tags: the result is the merge `MergedCategories` of the two tag maps |
| Combine.CombineDictionaries | main.py:58-68 | `dict1` updated with `dict2` is the merge `Merged` of the two tables |
| Combine.MergedAt | main.py:60-67 | in the merge, a word has a tag exactly when one of the inputs gives it that tag, and each field set is the union of the inputs' sets |
| Combine.MergedContents | main.py:60-67 | the merge's words are the union of both inputs' words; a shared word's tags are the union of both inputs' tags; each field set is the union of the inputs' sets; a word missing from `dict2` keeps its entry unchanged |
| Combine.MergedWordAt | main.py:60-67 | at one word, the merge holds the merge of the word's tags in the two inputs |
| Combine.MergedCategoriesAt | main.py:62-65 | at one tag, the merge holds the union of the tag's fields in the two inputs |
| Combine.MergeEmpty | main.py:17-19 | merging the empty table that an unparsable file gives leaves `dict1` unchanged |
| Combine.MergeIdempotent | main.py:60-67 | merging the same table a second time changes nothing |
| Combine.MergeCommutative | main.py:60-67 | the merge does not depend on which table is `dict1` |
| Combine.MergeAssociative | main.py:60-67 | merging three tables gives the same table however the merges are grouped |
| Combine.MergePreservesWellFormed | main.py:60-67 | merging two well-formed tables gives a well-formed table |
| Combine.MergePreservesSymmetric | main.py:60-67 | merging two tables with symmetric synonymy keeps synonymy symmetric |
| Convert.SetToList | main.py:76 | `list(value)` holds every element of the set exactly once |
| Convert.ConvertFields | main.py:75-76 | each of an entry's three sets becomes a list of exactly its elements, with no repeats |
| Convert.ConvertCategories | main.py:74-76 | a word's tags are kept, and each entry is converted |
| Convert.ConvertSetsToLists | main.py:71-77 | the result has the same words and the same tags, and each list holds exactly its set's elements with no repeats |
| Convert.RestoreConverted | main.py:71-77 | reading the lists back as sets gives the original table |
| Convert.DistinctLength | main.py:76 | a list without repeats is as long as its set of elements |
| Convert.ListLength | main.py:76 | every list is as long as the set it replaced |
| Pipeline.MergedFilesProperties | main.py:96-99 | the table merged from all files is well formed and its synonymy is symmetric |
| Pipeline.MakeWordInfo | main.py:96-100 | the loop over the files builds each one, merges it into the running table, and converts the result: the lists hold exactly the sets of `MergedFiles` |

## Left out

- The `lxml` calls `etree.parse`, `getroot`, `findall` and `xpath` (main.py:16, 21-35) are a foreign library. `BuildWordInfo` receives their results as a `Synset` sequence, or `None` when parsing fails.
- The error message printed when parsing fails (main.py:18) is console output. Only its effect is modelled: the empty table.
- `print_word`, the JSON dump and load, `open`, `os.path.exists` and `main` (main.py:80-92, 101-121) are console and file I/O around the core. `Pipeline.MakeWordInfo` receives each file's parse outcome as a parameter, in the same order as the file names.
- In-place mutation and aliasing: the Python functions update `dict1` and `word_info` in place, and `dict1[key] = value` shares `dict2`'s inner dictionaries with `dict1`. The model works on value maps and returns the updated table, so it does not capture that sharing.
- `Convert.ConvertSetsToLists` builds a new table of lists (`Listing`), because Dafny cannot change a value's type in place.
- Dictionary key order and set iteration order: maps and sets have no order in the model. `Convert.SetToList` picks elements in an unspecified order, as `list(set)` does.
- The shape checks `isinstance(value, dict)` (main.py:62) are replaced by types. The three levels (word, tag, the three named sets) are fixed, and the innermost level's recursion is the field-by-field `Union`.
- `Build.BuildWordInfo` is split into `Build.AddRecord` and `Build.FillEntry` to keep the proof small. `FillEntry`'s `entry` parameter stands for the dictionary `word_info[word][part_of_speech]` that lines 47-53 update through references.
- `Build.Records` states only the record count in its own contract. `Build.RecordsAt` states what each record holds, as a separate lemma. That lemma is proved through the generic `Build.MapSeqAt`, where the element function stays uninterpreted, so that no proof has to unfold `Extract`.
