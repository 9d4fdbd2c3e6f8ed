/**
 * Tokenisation of the input text (pareswords.py, `text_to_columns`, lines 9-12):
 * the text is lower-cased and then split into its maximal runs of word
 * characters, which is what `re.findall(r'\b\w+\b', text)` returns.
 *
 * The regular-expression class `\w` and Python's `str.lower()` are library
 * behaviour; here they are the parameters `isWord` and `lower`, so every
 * property below holds whatever character class and case mapping are used.
 */
module Tokenizer {

  /** Python's `text.lower()`, applied character by character. */
  function Lowered(text: string, lower: char -> char): (r: string)
    ensures |r| == |text|
    ensures forall i :: 0 <= i < |text| ==> r[i] == lower(text[i])
  {
    seq(|text|, i requires 0 <= i < |text| => lower(text[i]))
  }

  /** Length of the longest prefix of `s` made only of word characters. */
  function RunLength(s: string, isWord: char -> bool): (n: nat)
    ensures n <= |s|
    ensures forall i :: 0 <= i < n ==> isWord(s[i])
    ensures n < |s| ==> !isWord(s[n])
  {
    if s == [] || !isWord(s[0]) then 0 else 1 + RunLength(s[1..], isWord)
  }

  /**
   * The matches of `\b\w+\b` in `s`, left to right: its maximal runs of word
   * characters. Every token is non-empty, made of word characters only, and
   * made of characters of `s`.
   */
  function Tokens(s: string, isWord: char -> bool): (r: seq<string>)
    ensures forall t <- r :: t != [] && forall c <- t :: isWord(c) && c in s
    decreases |s|
  {
    if s == [] then []
    else if !isWord(s[0]) then
      var rest := Tokens(s[1..], isWord);
      assert forall t <- rest, c <- t :: c in s by {
        forall t <- rest, c <- t ensures c in s {
          assert c in s[1..];
        }
      }
      rest
    else
      var n := RunLength(s, isWord);
      var rest := Tokens(s[n..], isWord);
      assert forall t <- rest, c <- t :: c in s by {
        forall t <- rest, c <- t ensures c in s {
          assert c in s[n..];
        }
      }
      assert forall c <- s[..n] :: c in s;
      [s[..n]] + rest
  }

  /** The tokens of the lower-cased text: the word sequence counted by `text_to_columns`. */
  function TokensOf(text: string, isWord: char -> bool, lower: char -> char): (r: seq<string>)
    ensures forall t <- r :: t != [] && forall c <- t :: isWord(c)
    ensures forall t <- r, c <- t :: exists i :: 0 <= i < |text| && c == lower(text[i])
  {
    var lowered := Lowered(text, lower);
    var r := Tokens(lowered, isWord);
    assert forall t <- r, c <- t :: exists i :: 0 <= i < |text| && c == lower(text[i]) by {
      forall t <- r, c <- t
        ensures exists i :: 0 <= i < |text| && c == lower(text[i])
      {
        assert c in lowered;
        var i :| 0 <= i < |lowered| && lowered[i] == c;
      }
    }
    r
  }

  /** The word characters of `s`, in order. */
  function WordChars(s: string, isWord: char -> bool): string
  {
    if s == [] then []
    else (if isWord(s[0]) then [s[0]] else []) + WordChars(s[1..], isWord)
  }

  /** The concatenation of a sequence of strings. */
  function Concat(ts: seq<string>): string
  {
    if ts == [] then [] else ts[0] + Concat(ts[1..])
  }

  /** A non-empty run of word characters is exactly one token. */
  lemma TokensOfWord(w: string, isWord: char -> bool)
    requires w != [] && forall c <- w :: isWord(c)
    ensures Tokens(w, isWord) == [w]
  {
    forall i | 0 <= i < |w|
      ensures isWord(w[i])
    {
      assert w[i] in w;
    }
    assert RunLength(w, isWord) == |w|;
    assert w[0] in w;
    assert w[..|w|] == w && w[|w|..] == [];
    assert Tokens(w[|w|..], isWord) == [];
  }

  /** A leading non-word character is skipped. */
  lemma TokensSkip(s: string, isWord: char -> bool)
    requires s != [] && !isWord(s[0])
    ensures Tokens(s, isWord) == Tokens(s[1..], isWord)
  {
  }

  /** A leading run of word characters is the first token. */
  lemma TokensTakeRun(s: string, isWord: char -> bool)
    requires s != [] && isWord(s[0])
    ensures Tokens(s, isWord) == [s[..RunLength(s, isWord)]] + Tokens(s[RunLength(s, isWord)..], isWord)
  {
  }

  /** A non-word character separates: tokens never span it. */
  lemma {:induction false} TokensAtSeparator(a: string, c: char, b: string, isWord: char -> bool)
    requires !isWord(c)
    ensures Tokens(a + [c] + b, isWord) == Tokens(a, isWord) + Tokens(b, isWord)
    decreases |a|
  {
    var s := a + [c] + b;
    if a == [] {
      assert s == [c] + b;
      TokensSkip(s, isWord);
      assert s[1..] == b;
    } else if !isWord(a[0]) {
      TokensSkip(s, isWord);
      TokensSkip(a, isWord);
      assert s[1..] == a[1..] + [c] + b;
      TokensAtSeparator(a[1..], c, b, isWord);
    } else {
      var n := RunLength(a, isWord);
      RunLengthBeforeSeparator(a, c, b, isWord);
      TokensTakeRun(s, isWord);
      TokensTakeRun(a, isWord);
      assert s[..n] == a[..n];
      assert s[n..] == a[n..] + [c] + b;
      TokensAtSeparator(a[n..], c, b, isWord);
    }
  }

  /** A run of word characters inside `a` stops where it stops in `a + [c] + b`. */
  lemma {:induction false} RunLengthBeforeSeparator(a: string, c: char, b: string, isWord: char -> bool)
    requires !isWord(c)
    ensures RunLength(a + [c] + b, isWord) == RunLength(a, isWord)
    decreases |a|
  {
    var s := a + [c] + b;
    if a == [] {
    } else if isWord(a[0]) {
      assert s[1..] == a[1..] + [c] + b;
      RunLengthBeforeSeparator(a[1..], c, b, isWord);
    }
  }

  /** Text with no word character yields no token, and only such text does. */
  lemma {:induction false} NoTokensIffNoWordChars(s: string, isWord: char -> bool)
    ensures Tokens(s, isWord) == [] <==> forall c <- s :: !isWord(c)
    decreases |s|
  {
    if s == [] {
    } else if !isWord(s[0]) {
      NoTokensIffNoWordChars(s[1..], isWord);
      assert forall c <- s :: c == s[0] || c in s[1..];
    } else {
      assert s[0] in s;
    }
  }

  /** Tokenisation loses and invents no word character: the tokens, joined, are the word characters of `s`. */
  lemma {:induction false} TokensCoverWordChars(s: string, isWord: char -> bool)
    ensures Concat(Tokens(s, isWord)) == WordChars(s, isWord)
    decreases |s|
  {
    if s == [] {
    } else if !isWord(s[0]) {
      TokensCoverWordChars(s[1..], isWord);
    } else {
      var n := RunLength(s, isWord);
      TokensCoverWordChars(s[n..], isWord);
      WordCharsOfRun(s, n, isWord);
      var ts := Tokens(s, isWord);
      assert ts == [s[..n]] + Tokens(s[n..], isWord);
      assert ts[1..] == Tokens(s[n..], isWord);
    }
  }

  /** Splitting after a prefix of word characters. */
  lemma {:induction false} WordCharsOfRun(s: string, n: nat, isWord: char -> bool)
    requires n <= |s| && forall i :: 0 <= i < n ==> isWord(s[i])
    ensures WordChars(s, isWord) == s[..n] + WordChars(s[n..], isWord)
    decreases n
  {
    if n > 0 {
      WordCharsOfRun(s[1..], n - 1, isWord);
      assert s[1..][n - 1..] == s[n..];
      assert s[..n] == [s[0]] + s[1..][..n - 1];
    }
  }

  /** The words of `ws` written one after another with `sep` between them. */
  function Join(ws: seq<string>, sep: char): string
  {
    if |ws| == 0 then []
    else if |ws| == 1 then ws[0]
    else ws[0] + [sep] + Join(ws[1..], sep)
  }

  /**
   * Tokenising undoes joining: words of word characters, written with a
   * non-word separator between them, are tokenised back into those words.
   */
  lemma {:induction false} TokensOfJoin(ws: seq<string>, sep: char, isWord: char -> bool)
    requires forall w <- ws :: w != [] && forall c <- w :: isWord(c)
    requires !isWord(sep)
    ensures Tokens(Join(ws, sep), isWord) == ws
  {
    if |ws| == 1 {
      assert ws[0] in ws;
      TokensOfWord(ws[0], isWord);
    } else if |ws| > 1 {
      assert ws[0] in ws;
      assert forall w <- ws[1..] :: w in ws;
      TokensAtSeparator(ws[0], sep, Join(ws[1..], sep), isWord);
      TokensOfWord(ws[0], isWord);
      TokensOfJoin(ws[1..], sep, isWord);
      assert ws == [ws[0]] + ws[1..];
    }
  }

  /** Python's `lower()` maps lower-case text to itself. */
  ghost predicate Idempotent(lower: char -> char)
  {
    forall c :: lower(lower(c)) == lower(c)
  }

  /**
   * Words are lower-cased before counting: when the case mapping is
   * idempotent, every token of the lowered text is already lower case, so
   * tokens that differ only in case are the same word.
   */
  lemma LoweredTokensAreLowerCase(text: string, isWord: char -> bool, lower: char -> char)
    requires Idempotent(lower)
    ensures forall t <- TokensOf(text, isWord, lower) :: Lowered(t, lower) == t
  {
    var lowered := Lowered(text, lower);
    forall t <- TokensOf(text, isWord, lower)
      ensures Lowered(t, lower) == t
    {
      forall i | 0 <= i < |t|
        ensures lower(t[i]) == t[i]
      {
        assert t[i] in t;
        assert t[i] in lowered;
        var j :| 0 <= j < |lowered| && lowered[j] == t[i];
        assert t[i] == lower(text[j]);
      }
    }
  }

  /** Texts equal up to case have the same tokens. */
  lemma CaseInsensitiveTokens(a: string, b: string, isWord: char -> bool, lower: char -> char)
    requires |a| == |b| && forall i :: 0 <= i < |a| ==> lower(a[i]) == lower(b[i])
    ensures TokensOf(a, isWord, lower) == TokensOf(b, isWord, lower)
  {
    assert Lowered(a, lower) == Lowered(b, lower);
  }
}
