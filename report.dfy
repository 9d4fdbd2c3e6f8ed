/**
 * The report written to the output file (pareswords.py, lines 69-72): a
 * header naming the three columns, a line of 60 dashes, then one line per
 * table entry in table order holding the word left-aligned in 20
 * characters, the count right-aligned in 20 characters, and the
 * translation, the fields separated by single spaces.
 *
 * Each element of `ReportLines` is one line of the file without its
 * terminating "\n".
 */
module Report {
  import opened Frequency

  datatype Option<T> = None | Some(value: T)

  /** The width that `{word:20}` and `{count:20}` pad to. */
  const ColumnWidth: nat := 20
  /** The number of dashes of the separator line, `"-" * 60`. */
  const SeparatorWidth: nat := 60

  const WordHeading: string := "Слово"
  const CountHeading: string := "Кол-во вхождений"
  const TranslationHeading: string := "Перевод"

  function Spaces(n: nat): (r: string)
    ensures |r| == n && forall i :: 0 <= i < n ==> r[i] == ' '
  {
    seq(n, _ => ' ')
  }

  /**
   * `f"{s:20}"` for a string: left-aligned, padded with trailing spaces to
   * the width, and never truncated.
   */
  function PadRight(s: string, width: nat): (r: string)
    ensures |r| == if |s| < width then width else |s|
    ensures r[..|s|] == s
    ensures forall i :: |s| <= i < |r| ==> r[i] == ' '
  {
    if |s| < width then s + Spaces(width - |s|) else s
  }

  /**
   * `f"{n:20}"` for an integer: its digits right-aligned, padded with
   * leading spaces to the width, and never truncated.
   */
  function PadLeft(s: string, width: nat): (r: string)
    ensures |r| == if |s| < width then width else |s|
    ensures r[|r| - |s|..] == s
    ensures forall i :: 0 <= i < |r| - |s| ==> r[i] == ' '
  {
    if |s| < width then Spaces(width - |s|) + s else s
  }

  predicate IsDigit(c: char)
  {
    '0' <= c <= '9'
  }

  predicate IsDecimal(s: string)
  {
    forall c <- s :: IsDigit(c)
  }

  function DigitChar(d: nat): (c: char)
    requires d < 10
    ensures IsDigit(c) && c as int - '0' as int == d
  {
    ('0' as int + d) as char
  }

  /** `str(n)`: the decimal digits of `n`, without leading zeros. */
  function NatToDecimal(n: nat): (r: string)
    ensures r != [] && IsDecimal(r)
    ensures r[0] == '0' ==> n == 0
  {
    if n < 10 then [DigitChar(n)]
    else
      var r := NatToDecimal(n / 10) + [DigitChar(n % 10)];
      assert forall c <- r :: c in NatToDecimal(n / 10) || c == DigitChar(n % 10);
      r
  }

  /** The number a string of decimal digits stands for. */
  function DecimalValue(s: string): nat
    requires IsDecimal(s)
  {
    if s == [] then 0
    else
      assert forall c <- s[..|s| - 1] :: c in s;
      assert s[|s| - 1] in s;
      10 * DecimalValue(s[..|s| - 1]) + (s[|s| - 1] as int - '0' as int)
  }

  /** Reading back the digits written for a count gives the count. */
  lemma {:induction false} DecimalRoundTrip(n: nat)
    ensures DecimalValue(NatToDecimal(n)) == n
  {
    if n >= 10 {
      var r := NatToDecimal(n);
      assert r[..|r| - 1] == NatToDecimal(n / 10);
      DecimalRoundTrip(n / 10);
    }
  }

  /** The header line, `f"{'Слово':20} {'Кол-во вхождений':20} {'Перевод'}"`. */
  function Header(): (r: string)
    ensures |r| == 2 * ColumnWidth + 2 + |TranslationHeading|
    ensures r[..|WordHeading|] == WordHeading
    ensures r[ColumnWidth + 1..ColumnWidth + 1 + |CountHeading|] == CountHeading
    ensures r[|r| - |TranslationHeading|..] == TranslationHeading
  {
    PadRight(WordHeading, ColumnWidth) + " " + PadRight(CountHeading, ColumnWidth) + " " + TranslationHeading
  }

  /** The separator line, `"-" * 60`. */
  function Separator(): (r: string)
    ensures |r| == SeparatorWidth && forall c <- r :: c == '-'
  {
    seq(SeparatorWidth, _ => '-')
  }

  /** One table line, `f"{word:20} {count:20} {translation}"`. */
  function Row(word: string, count: nat, translation: string): (r: string)
    ensures |r| >= 2 * ColumnWidth + 2 + |translation|
    ensures |r| >= |word| + ColumnWidth + 2 + |translation|
    ensures r[..|word|] == word
    ensures r[|r| - |translation|..] == translation
  {
    PadRight(word, ColumnWidth) + " " + PadLeft(NatToDecimal(count), ColumnWidth) + " " + translation
  }

  /** The lines of the report for a frequency table and a translation map that covers its words. */
  function ReportLines(table: seq<Entry>, translations: map<string, string>): (r: seq<string>)
    requires forall e <- table :: e.word in translations
    ensures |r| == |table| + 2 && r[0] == Header() && r[1] == Separator()
    ensures forall k :: 0 <= k < |table| ==>
              r[k + 2] == Row(table[k].word, table[k].count, translations[table[k].word])
  {
    [Header(), Separator()] + Rows(table, translations)
  }

  function Rows(table: seq<Entry>, translations: map<string, string>): (r: seq<string>)
    requires forall e <- table :: e.word in translations
    ensures |r| == |table|
    ensures forall k :: 0 <= k < |table| ==>
              r[k] == Row(table[k].word, table[k].count, translations[table[k].word])
  {
    if table == [] then []
    else
      assert table[0] in table;
      assert forall e <- table[1..] :: e in table;
      [Row(table[0].word, table[0].count, translations[table[0].word])] + Rows(table[1..], translations)
  }

  /** The three fields of a table line. */
  datatype RowFields = RowFields(word: string, count: nat, translation: string)

  /** Length of the longest prefix of `s` without a space. */
  function LeadingNonSpaces(s: string): (n: nat)
    ensures n <= |s|
    ensures forall i :: 0 <= i < n ==> s[i] != ' '
    ensures n < |s| ==> s[n] == ' '
  {
    if s == [] || s[0] == ' ' then 0 else 1 + LeadingNonSpaces(s[1..])
  }

  /** Length of the longest prefix of `s` made of spaces. */
  function LeadingSpaces(s: string): (n: nat)
    ensures n <= |s|
    ensures forall i :: 0 <= i < n ==> s[i] == ' '
    ensures n < |s| ==> s[n] != ' '
  {
    if s == [] || s[0] != ' ' then 0 else 1 + LeadingSpaces(s[1..])
  }

  /**
   * Reads a table line back: a word without spaces, at least one space,
   * the decimal count, one space, and the rest of the line as the
   * translation.
   */
  function ParseRow(line: string): Option<RowFields>
  {
    var n1 := LeadingNonSpaces(line);
    var afterWord := line[n1..];
    var n2 := LeadingSpaces(afterWord);
    var afterGap := afterWord[n2..];
    var n3 := LeadingNonSpaces(afterGap);
    var digits := afterGap[..n3];
    var tail := afterGap[n3..];
    if n1 == 0 || n2 == 0 || n3 == 0 || !IsDecimal(digits) || tail == [] then None
    else Some(RowFields(line[..n1], DecimalValue(digits), tail[1..]))
  }

  lemma LeadingNonSpacesIs(s: string, n: nat)
    requires n <= |s| && (forall i :: 0 <= i < n ==> s[i] != ' ') && (n < |s| ==> s[n] == ' ')
    ensures LeadingNonSpaces(s) == n
  {
  }

  lemma LeadingSpacesIs(s: string, n: nat)
    requires n <= |s| && (forall i :: 0 <= i < n ==> s[i] == ' ') && (n < |s| ==> s[n] != ' ')
    ensures LeadingSpaces(s) == n
  {
  }

  /** A field without spaces, followed by a space or by nothing, is read as the whole field. */
  lemma ReadField(field: string, rest: string)
    requires forall i :: 0 <= i < |field| ==> field[i] != ' '
    requires rest == [] || rest[0] == ' '
    ensures LeadingNonSpaces(field + rest) == |field|
    ensures (field + rest)[..|field|] == field && (field + rest)[|field|..] == rest
  {
    LeadingNonSpacesIs(field + rest, |field|);
  }

  /** A run of spaces, followed by something that does not begin with a space, is skipped whole. */
  lemma SkipGap(gap: string, rest: string)
    requires forall i :: 0 <= i < |gap| ==> gap[i] == ' '
    requires rest == [] || rest[0] != ' '
    ensures LeadingSpaces(gap + rest) == |gap|
    ensures (gap + rest)[|gap|..] == rest
  {
    LeadingSpacesIs(gap + rest, |gap|);
  }

  lemma NoSpaceAt(s: string)
    requires ' ' !in s
    ensures forall i :: 0 <= i < |s| ==> s[i] != ' '
  {
    forall i | 0 <= i < |s|
      ensures s[i] != ' '
    {
      assert s[i] in s;
    }
  }

  /** A line laid out as word, spaces, digits, one space and translation reads back as those fields. */
  lemma ParseLayout(word: string, gap: string, digits: string, translation: string)
    requires word != [] && ' ' !in word
    requires gap != [] && forall i :: 0 <= i < |gap| ==> gap[i] == ' '
    requires digits != [] && IsDecimal(digits)
    ensures ParseRow(word + gap + digits + " " + translation)
         == Some(RowFields(word, DecimalValue(digits), translation))
  {
    var tail := " " + translation;
    var afterGap := digits + tail;
    var afterWord := gap + afterGap;
    var line := word + afterWord;
    assert word + gap + digits + " " + translation == line;
    NoSpaceAt(word);
    ReadField(word, afterWord);
    assert digits[0] in digits;
    SkipGap(gap, afterGap);
    forall i | 0 <= i < |digits|
      ensures digits[i] != ' '
    {
      assert digits[i] in digits;
    }
    ReadField(digits, tail);
    assert tail[1..] == translation;
    ParseRowOf(line, |word|, |gap|, |digits|);
  }

  /** `ParseRow` in terms of the lengths of the word, the gap and the digits it finds. */
  lemma ParseRowOf(line: string, n1: nat, n2: nat, n3: nat)
    requires n1 == LeadingNonSpaces(line) && n2 == LeadingSpaces(line[n1..])
    requires n3 == LeadingNonSpaces(line[n1..][n2..])
    requires n1 > 0 && n2 > 0 && n3 > 0
    requires IsDecimal(line[n1..][n2..][..n3]) && line[n1..][n2..][n3..] != []
    ensures ParseRow(line) == Some(RowFields(line[..n1], DecimalValue(line[n1..][n2..][..n3]),
                                             line[n1..][n2..][n3..][1..]))
  {
  }

  /** A right-padded field is the string followed by a run of spaces. */
  lemma PadRightParts(s: string, width: nat) returns (pad: string)
    ensures PadRight(s, width) == s + pad
    ensures forall i :: 0 <= i < |pad| ==> pad[i] == ' '
  {
    var r := PadRight(s, width);
    pad := r[|s|..];
    assert r == r[..|s|] + pad;
  }

  /** A left-padded field is a run of spaces followed by the string. */
  lemma PadLeftParts(s: string, width: nat) returns (pad: string)
    ensures PadLeft(s, width) == pad + s
    ensures forall i :: 0 <= i < |pad| ==> pad[i] == ' '
  {
    var r := PadLeft(s, width);
    pad := r[..|r| - |s|];
    assert r == pad + r[|r| - |s|..];
  }

  /** A table line is its word, a run of spaces, the count's digits, one space and the translation. */
  lemma RowShape(word: string, count: nat, translation: string) returns (gap: string)
    ensures gap != [] && forall i :: 0 <= i < |gap| ==> gap[i] == ' '
    ensures Row(word, count, translation) == word + gap + NatToDecimal(count) + " " + translation
  {
    var digits := NatToDecimal(count);
    var gap1 := PadRightParts(word, ColumnWidth);
    var gap2 := PadLeftParts(digits, ColumnWidth);
    gap := gap1 + " " + gap2;
    Regroup(word, gap1, gap2, digits, translation);
  }

  lemma Regroup(word: string, gap1: string, gap2: string, digits: string, translation: string)
    ensures (word + gap1) + " " + (gap2 + digits) + " " + translation
         == word + (gap1 + " " + gap2) + digits + " " + translation
  {
  }

  /**
   * Every table line reads back as the word, count and translation it was
   * written from, whatever the word's length: padding never truncates a
   * field and never merges two of them. The word must be non-empty and
   * contain no space, as every token does when `\w` excludes the space.
   */
  lemma RowRoundTrip(word: string, count: nat, translation: string)
    requires word != [] && ' ' !in word
    ensures ParseRow(Row(word, count, translation)) == Some(RowFields(word, count, translation))
  {
    var gap := RowShape(word, count, translation);
    ParseLayout(word, gap, NatToDecimal(count), translation);
    DecimalRoundTrip(count);
  }

  /**
   * The report read back: a header, the separator, then one line per table
   * entry in table order, each giving back the entry's word and count and
   * the word's translation.
   */
  lemma ReportRoundTrip(table: seq<Entry>, translations: map<string, string>)
    requires forall e <- table :: e.word in translations && e.word != [] && ' ' !in e.word
    ensures var lines := ReportLines(table, translations);
      && |lines| == |table| + 2
      && lines[0] == Header() && lines[1] == Separator()
      && forall k :: 0 <= k < |table| ==>
           ParseRow(lines[k + 2]) == Some(RowFields(table[k].word, table[k].count, translations[table[k].word]))
  {
    var lines := ReportLines(table, translations);
    forall k | 0 <= k < |table|
      ensures ParseRow(lines[k + 2]) == Some(RowFields(table[k].word, table[k].count, translations[table[k].word]))
    {
      assert table[k] in table;
      RowRoundTrip(table[k].word, table[k].count, translations[table[k].word]);
    }
  }
}
