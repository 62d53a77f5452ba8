/** make_word_info_json without the JSON dump: each thesaurus file is built
    into its own table, merged into the running table, and the result is
    converted to lists. */
module Pipeline {
  import opened WordInfo
  import opened Build
  import opened Combine
  import opened Convert

  /** The table build_word_info returns for one file. */
  function FileTable(xmlFile: string, parsed: Option<seq<Synset>>): Table
  {
    match parsed
    case None => map[]
    case Some(synsets) => Built(PartOfSpeech(xmlFile), Records(synsets))
  }

  /** The running table after merging the tables of the first |files| files,
      starting from the empty one. */
  function MergedFiles(xmlFiles: seq<string>, parsed: seq<Option<seq<Synset>>>): Table
    requires |xmlFiles| == |parsed|
  {
    if xmlFiles == [] then map[]
    else
      var n := |xmlFiles| - 1;
      Merged(MergedFiles(xmlFiles[..n], parsed[..n]), FileTable(xmlFiles[n], parsed[n]))
  }

  /** Every file's table is well formed and symmetric, and so is the merge of
      them all. */
  lemma {:induction false} MergedFilesProperties(xmlFiles: seq<string>, parsed: seq<Option<seq<Synset>>>)
    requires |xmlFiles| == |parsed|
    ensures WellFormed(MergedFiles(xmlFiles, parsed)) && Symmetric(MergedFiles(xmlFiles, parsed))
  {
    if xmlFiles != [] {
      var n := |xmlFiles| - 1;
      var before := MergedFiles(xmlFiles[..n], parsed[..n]);
      var current := FileTable(xmlFiles[n], parsed[n]);
      MergedFilesProperties(xmlFiles[..n], parsed[..n]);
      assert WellFormed(current) && Symmetric(current) by {
        if parsed[n].Some? {
          BuildWordInfoProperties(xmlFiles[n], parsed[n].value);
        }
      }
      MergePreservesWellFormed(before, current);
      MergePreservesSymmetric(before, current);
      assert MergedFiles(xmlFiles, parsed) == Merged(before, current);
    }
  }

  /** The loop of make_word_info_json over its files, with parsed[i] the
      outcome of parsing xmlFiles[i], followed by the conversion to lists. */
  method MakeWordInfo(xmlFiles: seq<string>, parsed: seq<Option<seq<Synset>>>) returns (listed: Listing)
    requires |xmlFiles| == |parsed|
    ensures Converted(listed, MergedFiles(xmlFiles, parsed))
  {
    var wordInfo: Table := map[];
    for i := 0 to |xmlFiles|
      invariant wordInfo == MergedFiles(xmlFiles[..i], parsed[..i])
    {
      var currentInfo := BuildWordInfo(xmlFiles[i], parsed[i]);
      wordInfo := CombineDictionaries(wordInfo, currentInfo);
      assert xmlFiles[..i + 1][..i] == xmlFiles[..i];
      assert parsed[..i + 1][..i] == parsed[..i];
    }
    assert xmlFiles[..|xmlFiles|] == xmlFiles;
    assert parsed[..|parsed|] == parsed;
    listed := ConvertSetsToLists(wordInfo);
  }
}
