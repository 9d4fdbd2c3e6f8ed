/**
 * Building the translation map (pareswords.py, `translate_words`, lines
 * 29-36). The MarianMT tokenizer and model, which turn a word into its
 * Russian translation, are the parameter `translate`.
 */
module Translation {

  /** The words of a sequence, as a set. */
  function Elements(words: seq<string>): set<string>
  {
    set w <- words
  }

  /**
   * `translate_words`: fills a dictionary, one word at a time, with each
   * word of `words` mapped to its translation. The keys are exactly the
   * words, each mapped to `translate` of itself.
   */
  method TranslateWords(words: seq<string>, translate: string -> string)
    returns (translations: map<string, string>)
    ensures translations.Keys == Elements(words)
    ensures forall w <- translations :: translations[w] == translate(w)
  {
    translations := map[];
    for i := 0 to |words|
      invariant translations.Keys == Elements(words[..i])
      invariant forall w <- translations :: translations[w] == translate(w)
    {
      var word := words[i];
      assert words[..i + 1] == words[..i] + [word];
      translations := translations[word := translate(word)];
    }
    assert words[..|words|] == words;
  }
}
