/**
 * Output file name (pareswords.py, lines 64-65): the input path with its
 * extension removed by `os.path.splitext`, followed by `_output.txt`.
 *
 * `os.path.splitext` is modelled as it behaves on POSIX systems: the path
 * separator is '/', the extension starts at the last '.', and only when
 * that dot lies in the last path component and is not one of the dots
 * that begin that component.
 */
module Paths {

  const PathSeparator: char := '/'
  const ExtensionSeparator: char := '.'
  const OutputSuffix: string := "_output.txt"

  /** Python's `s.rfind(c)`: the index of the last `c` in `s`, or -1. */
  function RFind(s: string, c: char): (r: int)
    ensures -1 <= r < |s|
    ensures r >= 0 ==> s[r] == c
    ensures forall i :: r < i < |s| ==> s[i] != c
  {
    if s == [] then -1
    else if s[|s| - 1] == c then |s| - 1
    else RFind(s[..|s| - 1], c)
  }

  /** Some character of `p` strictly between indices `lo` and `hi` is not a dot. */
  predicate HasNonDotBetween(p: string, lo: int, hi: int)
    requires -1 <= lo && hi <= |p|
  {
    exists i :: lo < i < hi && p[i] != ExtensionSeparator
  }

  /**
   * `os.path.splitext(p)`: the pair (root, ext) with `root + ext == p`,
   * where `ext` is empty or is a dot followed by neither a dot nor a
   * separator.
   */
  function SplitExt(p: string): (r: (string, string))
    ensures r.0 + r.1 == p
    ensures r.1 == [] || (r.1[0] == ExtensionSeparator &&
                          ExtensionSeparator !in r.1[1..] && PathSeparator !in r.1[1..])
  {
    var sepIndex := RFind(p, PathSeparator);
    var dotIndex := RFind(p, ExtensionSeparator);
    if dotIndex > sepIndex && HasNonDotBetween(p, sepIndex, dotIndex) then
      assert p[..dotIndex] + p[dotIndex..] == p;
      assert forall c <- p[dotIndex..][1..] :: c != ExtensionSeparator && c != PathSeparator by {
        forall c <- p[dotIndex..][1..]
          ensures c != ExtensionSeparator && c != PathSeparator
        {
          var k :| 0 <= k < |p[dotIndex..][1..]| && p[dotIndex..][1..][k] == c;
          assert p[dotIndex + 1 + k] == c;
        }
      }
      (p[..dotIndex], p[dotIndex..])
    else
      (p, [])
  }

  /** The name of the report file written for input `path`. */
  function OutputFilename(path: string): (r: string)
    ensures |r| >= |OutputSuffix| && r[|r| - |OutputSuffix|..] == OutputSuffix
    ensures r[..|r| - |OutputSuffix|] <= path
  {
    var root := SplitExt(path).0;
    assert (root + OutputSuffix)[..|root|] == root;
    root + OutputSuffix
  }

  lemma {:induction false} RFindAppend(a: string, b: string, c: char)
    requires c !in b
    ensures RFind(a + b, c) == RFind(a, c)
    decreases |b|
  {
    if b == [] {
      assert a + b == a;
    } else {
      var s := a + b;
      var b' := b[..|b| - 1];
      assert s[|s| - 1] == b[|b| - 1] && b[|b| - 1] in b;
      assert s[..|s| - 1] == a + b';
      assert c !in b' by {
        assert forall x <- b' :: x in b;
      }
      RFindAppend(a, b', c);
    }
  }

  /**
   * Removing the extension undoes adding one: a path whose last component
   * has a character other than a dot, followed by a dot and an extension
   * with no dot and no separator, splits back into the two parts.
   */
  lemma SplitExtOfExtended(stem: string, ext: string)
    requires ExtensionSeparator !in ext && PathSeparator !in ext
    requires HasNonDotBetween(stem, RFind(stem, PathSeparator), |stem|)
    ensures SplitExt(stem + [ExtensionSeparator] + ext) == (stem, [ExtensionSeparator] + ext)
  {
    var p := stem + [ExtensionSeparator] + ext;
    RFindOfExtended(stem, ext);
    NonDotKept(stem, ext, RFind(stem, PathSeparator));
    PartsOfExtended(stem, ext);
    SplitExtAtDot(p, |stem|);
  }

  lemma NonDotKept(stem: string, ext: string, lo: int)
    requires -1 <= lo && HasNonDotBetween(stem, lo, |stem|)
    ensures HasNonDotBetween(stem + [ExtensionSeparator] + ext, lo, |stem|)
  {
    var i :| lo < i < |stem| && stem[i] != ExtensionSeparator;
    assert (stem + [ExtensionSeparator] + ext)[i] == stem[i];
  }

  lemma PartsOfExtended(stem: string, ext: string)
    ensures (stem + [ExtensionSeparator] + ext)[..|stem|] == stem
    ensures (stem + [ExtensionSeparator] + ext)[|stem|..] == [ExtensionSeparator] + ext
  {
  }

  /** In `<stem>.<ext>`, the last dot is the added one and the last separator is the stem's. */
  lemma RFindOfExtended(stem: string, ext: string)
    requires ExtensionSeparator !in ext && PathSeparator !in ext
    ensures RFind(stem + [ExtensionSeparator] + ext, ExtensionSeparator) == |stem|
    ensures RFind(stem + [ExtensionSeparator] + ext, PathSeparator) == RFind(stem, PathSeparator)
  {
    var dotted := stem + [ExtensionSeparator];
    assert RFind(dotted, ExtensionSeparator) == |stem| by {
      assert dotted[|dotted| - 1] == ExtensionSeparator;
    }
    RFindAppend(dotted, ext, ExtensionSeparator);
    RFindAppend(dotted, ext, PathSeparator);
    RFindAppend(stem, [ExtensionSeparator], PathSeparator);
  }

  /** The split happens at the last dot when it lies past a non-dot character of the last component. */
  lemma SplitExtAtDot(p: string, dotIndex: nat)
    requires dotIndex == RFind(p, ExtensionSeparator) > RFind(p, PathSeparator)
    requires HasNonDotBetween(p, RFind(p, PathSeparator), dotIndex)
    ensures SplitExt(p) == (p[..dotIndex], p[dotIndex..])
  {
  }

  /** A path whose last component has no dot keeps its full name and gets no extension. */
  lemma SplitExtWithoutExtension(p: string)
    requires forall i :: RFind(p, PathSeparator) < i < |p| ==> p[i] != ExtensionSeparator
    ensures SplitExt(p) == (p, [])
  {
  }

  /** The report for `<stem>.<ext>` is written to `<stem>_output.txt`. */
  lemma OutputFilenameOfExtended(stem: string, ext: string)
    requires ExtensionSeparator !in ext && PathSeparator !in ext
    requires HasNonDotBetween(stem, RFind(stem, PathSeparator), |stem|)
    ensures OutputFilename(stem + [ExtensionSeparator] + ext) == stem + OutputSuffix
  {
    SplitExtOfExtended(stem, ext);
  }
}
