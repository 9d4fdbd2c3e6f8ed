/**
 * The program's `main` (pareswords.py, lines 38-76) without its input and
 * output: from the text of the input file and its path it computes the
 * frequency table, the translation map, the output file name and the lines
 * written to that file.
 */
module Pareswords {
  import opened Tokenizer
  import opened Frequency
  import opened Translation
  import opened Paths
  import opened Report

  /**
   * `main`: counts the words of `text`, translates every distinct word once,
   * and lays out the report for the file named after `path`. The report has
   * the header, the separator and one line per distinct word, in table
   * order, each holding the word's count and its translation: no word is
   * left without a translation.
   */
  method Process(text: string, path: string, isWord: char -> bool, lower: char -> char,
                 translate: string -> string)
    returns (result: seq<Entry>, uniqueCount: nat, outputName: string, lines: seq<string>)
    ensures IsFrequencyTable(result, TokensOf(text, isWord, lower))
    ensures uniqueCount == |result|
    ensures outputName == OutputFilename(path)
    ensures |lines| == |result| + 2 && lines[0] == Header() && lines[1] == Separator()
    ensures forall k :: 0 <= k < |result| ==>
              lines[k + 2] == Row(result[k].word, result[k].count, translate(result[k].word))
  {
    result, uniqueCount := TextToColumns(text, isWord, lower);
    var uniqueWords := seq(|result|, k requires 0 <= k < |result| => result[k].word);
    var translations := TranslateWords(uniqueWords, translate);
    outputName := OutputFilename(path);
    forall e <- result
      ensures e.word in translations
    {
      var k :| 0 <= k < |result| && result[k] == e;
      assert uniqueWords[k] == e.word;
    }
    lines := ReportLines(result, translations);
  }

  const SampleWords: seq<string> := ["the", "cat", "sat", "on", "the", "mat", "the", "cat", "ran"]
  const SampleExpected: seq<Entry> := [Entry("the", 3), Entry("cat", 2), Entry("mat", 1),
                                       Entry("on", 1), Entry("ran", 1), Entry("sat", 1)]

  /**
   * The lower-cased words of "The cat sat on the mat. THE CAT RAN." count
   * to [("the", 3), ("cat", 2), ("mat", 1), ("on", 1), ("ran", 1),
   * ("sat", 1)]: the most frequent word first, ties in alphabetical order.
   */
  lemma SampleTable(table: seq<Entry>)
    requires IsFrequencyTable(table, SampleWords)
    ensures table == SampleExpected
  {
    SampleSorted();
    SampleDistinct();
    SampleCounts();
    SampleWordSet();
    FrequencyTableUnique(table, SampleExpected, SampleWords);
  }

  lemma SampleSorted()
    ensures Sorted(SampleExpected)
  {
    var e := SampleExpected;
    assert WordLe("mat", "on") && WordLe("on", "ran") && WordLe("ran", "sat");
    assert WordLe("mat", "ran") && WordLe("mat", "sat") && WordLe("on", "sat");
  }

  lemma SampleDistinct()
    ensures DistinctWords(SampleExpected)
  {
    var e := SampleExpected;
    assert forall i, j :: 0 <= i < j < |e| ==> e[i].word[0] != e[j].word[0];
  }

  lemma SampleCounts()
    ensures forall e <- SampleExpected :: e.count == multiset(SampleWords)[e.word]
  {
    var m := multiset(SampleWords);
    SampleMultiset();
    assert m["the"] == 3 && m["cat"] == 2;
    assert m["mat"] == 1 && m["on"] == 1 && m["ran"] == 1 && m["sat"] == 1;
  }

  lemma SampleMultiset()
    ensures multiset(SampleWords) == multiset{"the", "cat", "sat", "on", "the", "mat", "the", "cat", "ran"}
  {
  }

  lemma SampleWordSet()
    ensures forall w :: w in SampleWords <==> w in WordSet(SampleExpected)
  {
    assert WordSet(SampleExpected) == {"the", "cat", "mat", "on", "ran", "sat"};
    assert (set w <- SampleWords) == {"the", "cat", "mat", "on", "ran", "sat"};
  }

}
