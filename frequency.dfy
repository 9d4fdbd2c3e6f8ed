/**
 * Counting and ordering (pareswords.py, `text_to_columns`, lines 7-27): the
 * occurrences of every word are counted in a dictionary, and the
 * (word, count) pairs are sorted by count, highest first, with ties in
 * ascending string order.
 */
module Frequency {
  import opened Tokenizer

  /** One (word, count) pair of the frequency table. */
  datatype Entry = Entry(word: string, count: nat)

  /** Python's `<=` on strings: lexicographic comparison by code point. */
  predicate WordLe(a: string, b: string)
  {
    a == [] || (b != [] && (a[0] < b[0] || (a[0] == b[0] && WordLe(a[1..], b[1..]))))
  }

  /**
   * The order of `sorted(..., key=lambda item: (-item[1], item[0]))`: the key
   * of `x` is at most the key of `y`.
   */
  predicate Before(x: Entry, y: Entry)
  {
    x.count > y.count || (x.count == y.count && WordLe(x.word, y.word))
  }

  /** For i < j, entry i comes no later than entry j in the sort order. */
  predicate Sorted(s: seq<Entry>)
  {
    forall i, j :: 0 <= i < j < |s| ==> Before(s[i], s[j])
  }

  /** No word occurs in two entries. */
  predicate DistinctWords(s: seq<Entry>)
  {
    forall i, j :: 0 <= i < j < |s| ==> s[i].word != s[j].word
  }

  /** The words of a table. */
  function WordSet(s: seq<Entry>): set<string>
  {
    set e <- s :: e.word
  }

  /** The sum of the counts of a table. */
  function SumCounts(s: seq<Entry>): nat
  {
    if s == [] then 0 else s[0].count + SumCounts(s[1..])
  }

  lemma {:induction false} WordLeTotal(a: string, b: string)
    ensures WordLe(a, b) || WordLe(b, a)
    decreases |a|
  {
    if a != [] && b != [] && a[0] == b[0] {
      WordLeTotal(a[1..], b[1..]);
    }
  }

  lemma {:induction false} WordLeAntisymmetric(a: string, b: string)
    requires WordLe(a, b) && WordLe(b, a)
    ensures a == b
    decreases |a|
  {
    if a != [] && b != [] {
      WordLeAntisymmetric(a[1..], b[1..]);
      assert a == [a[0]] + a[1..];
      assert b == [b[0]] + b[1..];
    }
  }

  lemma {:induction false} WordLeTransitive(a: string, b: string, c: string)
    requires WordLe(a, b) && WordLe(b, c)
    ensures WordLe(a, c)
    decreases |a|
  {
    if a != [] && b != [] && c != [] && a[0] == b[0] == c[0] {
      WordLeTransitive(a[1..], b[1..], c[1..]);
    }
  }

  /** The sort key is a total order on entries. */
  lemma BeforeTotalOrder(x: Entry, y: Entry, z: Entry)
    ensures Before(x, y) || Before(y, x)
    ensures Before(x, y) && Before(y, x) ==> x == y
    ensures Before(x, y) && Before(y, z) ==> Before(x, z)
  {
    WordLeTotal(x.word, y.word);
    if Before(x, y) && Before(y, x) {
      WordLeAntisymmetric(x.word, y.word);
    }
    if Before(x, y) && Before(y, z) && x.count == y.count == z.count {
      WordLeTransitive(x.word, y.word, z.word);
    }
  }

  /** Inserts `x` in front of the first entry it comes before. */
  function Insert(x: Entry, s: seq<Entry>): (r: seq<Entry>)
    ensures multiset(r) == multiset(s) + multiset{x}
  {
    if s == [] || Before(x, s[0]) then [x] + s
    else
      assert s == [s[0]] + s[1..];
      [s[0]] + Insert(x, s[1..])
  }

  /**
   * Python's `sorted(items, key=lambda item: (-item[1], item[0]))`, written
   * as an insertion sort; `SortedUnique` shows that every sort meeting the
   * same order gives the same list.
   */
  function SortByFrequency(s: seq<Entry>): (r: seq<Entry>)
    ensures multiset(r) == multiset(s)
  {
    if s == [] then []
    else
      assert s == [s[0]] + s[1..];
      Insert(s[0], SortByFrequency(s[1..]))
  }

  /** An entry that comes before every entry of a sorted list can be put in front of it. */
  lemma PrependSorted(e: Entry, t: seq<Entry>)
    requires Sorted(t) && forall f <- t :: Before(e, f)
    ensures Sorted([e] + t)
  {
    var r := [e] + t;
    forall i, j | 0 <= i < j < |r|
      ensures Before(r[i], r[j])
    {
      assert r[j] == t[j - 1];
      if i == 0 {
        assert r[j] in t;
      } else {
        assert r[i] == t[i - 1];
      }
    }
  }

  lemma {:induction false} InsertSorted(x: Entry, s: seq<Entry>)
    requires Sorted(s)
    ensures Sorted(Insert(x, s))
  {
    if s == [] {
    } else if Before(x, s[0]) {
      forall f <- s
        ensures Before(x, f)
      {
        var k :| 0 <= k < |s| && s[k] == f;
        BeforeTotalOrder(x, s[0], f);
        if k == 0 {
          assert f == s[0];
        }
      }
      PrependSorted(x, s);
    } else {
      var tail := Insert(x, s[1..]);
      DropHead(s);
      InsertSorted(x, s[1..]);
      BeforeTotalOrder(x, s[0], x);
      forall e <- tail
        ensures Before(s[0], e)
      {
        assert e in multiset(tail);
        if e != x {
          assert e in s[1..];
          var k :| 0 <= k < |s[1..]| && s[1..][k] == e;
          assert s[k + 1] == e;
        }
      }
      PrependSorted(s[0], tail);
    }
  }

  /** The list returned by the sort is in the order the key asks for. */
  lemma {:induction false} SortByFrequencySorted(s: seq<Entry>)
    ensures Sorted(SortByFrequency(s))
  {
    if s != [] {
      SortByFrequencySorted(s[1..]);
      InsertSorted(s[0], SortByFrequency(s[1..]));
    }
  }

  /**
   * The sort order is total, so the sorted list is unique: two sorted
   * permutations of the same entries are equal. The result therefore does
   * not depend on the dictionary's iteration order or on the sorting
   * algorithm.
   */
  lemma {:induction false} SortedUnique(r1: seq<Entry>, r2: seq<Entry>)
    requires Sorted(r1) && Sorted(r2) && multiset(r1) == multiset(r2)
    ensures r1 == r2
    decreases |r1|
  {
    assert |r1| == |multiset(r1)| == |r2|;
    if r1 != [] {
      SortedSameHead(r1, r2);
      DropHead(r1);
      DropHead(r2);
      SortedUnique(r1[1..], r2[1..]);
      assert r1 == [r1[0]] + r1[1..] && r2 == [r2[0]] + r2[1..];
    }
  }

  /** Two sorted permutations of the same non-empty entries begin with the same entry. */
  lemma SortedSameHead(r1: seq<Entry>, r2: seq<Entry>)
    requires Sorted(r1) && Sorted(r2) && multiset(r1) == multiset(r2) && r1 != []
    ensures r2 != [] && r1[0] == r2[0]
  {
    var a := r1[0];
    assert a in multiset(r2);
    var b := r2[0];
    assert b in multiset(r1);
    var i :| 0 <= i < |r2| && r2[i] == a;
    var j :| 0 <= j < |r1| && r1[j] == b;
    BeforeTotalOrder(a, a, a);
    assert Before(b, a) by {
      if i > 0 {
        assert Before(r2[0], r2[i]);
      }
    }
    assert Before(a, b) by {
      if j > 0 {
        assert Before(r1[0], r1[j]);
      }
    }
    BeforeTotalOrder(a, b, a);
  }

  /** Removing the first entry keeps the order and removes that entry from the multiset. */
  lemma DropHead(r: seq<Entry>)
    requires r != [] && Sorted(r)
    ensures Sorted(r[1..]) && multiset(r[1..]) == multiset(r) - multiset{r[0]}
  {
    assert r == [r[0]] + r[1..];
    assert multiset(r) == multiset{r[0]} + multiset(r[1..]);
    forall i, j | 0 <= i < j < |r[1..]|
      ensures Before(r[1..][i], r[1..][j])
    {
      assert r[1..][i] == r[i + 1] && r[1..][j] == r[j + 1];
    }
  }

  /** An entry whose word is in no entry of a table with distinct words can be put in front of it. */
  lemma PrependDistinct(e: Entry, t: seq<Entry>)
    requires DistinctWords(t) && forall f <- t :: f.word != e.word
    ensures DistinctWords([e] + t)
  {
    var r := [e] + t;
    forall i, j | 0 <= i < j < |r|
      ensures r[i].word != r[j].word
    {
      assert r[j] == t[j - 1];
      if i == 0 {
        assert r[j] in t;
      } else {
        assert r[i] == t[i - 1];
      }
    }
  }

  /** Dropping the first entry keeps the words distinct, and the first word is not among the others. */
  lemma DropHeadDistinct(s: seq<Entry>)
    requires s != [] && DistinctWords(s)
    ensures DistinctWords(s[1..]) && WordSet(s[1..]) <= WordSet(s)
    ensures forall f <- s[1..] :: f.word != s[0].word
  {
    forall f <- s[1..]
      ensures f.word != s[0].word
    {
      var k :| 0 <= k < |s[1..]| && s[1..][k] == f;
      assert s[k + 1] == f;
    }
    forall i, j | 0 <= i < j < |s[1..]|
      ensures s[1..][i].word != s[1..][j].word
    {
      assert s[1..][i] == s[i + 1] && s[1..][j] == s[j + 1];
    }
  }

  lemma {:induction false} InsertDistinct(x: Entry, s: seq<Entry>)
    requires DistinctWords(s) && x.word !in WordSet(s)
    ensures DistinctWords(Insert(x, s))
  {
    if s == [] || Before(x, s[0]) {
      forall f <- s
        ensures f.word != x.word
      {
        assert f.word in WordSet(s);
      }
      PrependDistinct(x, s);
    } else {
      var tail := Insert(x, s[1..]);
      DropHeadDistinct(s);
      InsertDistinct(x, s[1..]);
      assert s[0] in s;
      forall e <- tail
        ensures e.word != s[0].word
      {
        assert e in multiset(tail);
        assert e == x || e in s[1..];
      }
      PrependDistinct(s[0], tail);
    }
  }

  /** Sorting entries with distinct words keeps them distinct. */
  lemma {:induction false} SortByFrequencyDistinct(s: seq<Entry>)
    requires DistinctWords(s)
    ensures DistinctWords(SortByFrequency(s))
  {
    if s != [] {
      assert DistinctWords(s[1..]) by {
        forall i, j | 0 <= i < j < |s[1..]|
          ensures s[1..][i].word != s[1..][j].word
        {
          assert s[1..][i] == s[i + 1] && s[1..][j] == s[j + 1];
        }
      }
      SortByFrequencyDistinct(s[1..]);
      var sorted := SortByFrequency(s[1..]);
      assert s[0].word !in WordSet(sorted) by {
        forall e <- sorted
          ensures e.word != s[0].word
        {
          assert e in multiset(s[1..]);
          var k :| 0 <= k < |s[1..]| && s[1..][k] == e;
          assert s[k + 1] == e;
        }
      }
      InsertDistinct(s[0], sorted);
    }
  }

  /** `words` with every occurrence of `w` removed. */
  function Without(words: seq<string>, w: string): (r: seq<string>)
    ensures |words| == |r| + multiset(words)[w]
    ensures forall x :: x != w ==> multiset(r)[x] == multiset(words)[x]
    ensures forall x :: x in r <==> x in words && x != w
  {
    if words == [] then []
    else if words[0] == w then
      assert multiset(words) == multiset{words[0]} + multiset(words[1..]) by {
        assert words == [words[0]] + words[1..];
      }
      Without(words[1..], w)
    else
      assert multiset(words) == multiset{words[0]} + multiset(words[1..]) by {
        assert words == [words[0]] + words[1..];
      }
      [words[0]] + Without(words[1..], w)
  }

  /**
   * The counts of a table with one entry per word of `words`, each counting
   * that word's occurrences, add up to the number of words.
   */
  lemma {:induction false} SumCountsIsWordCount(table: seq<Entry>, words: seq<string>)
    requires DistinctWords(table)
    requires forall e <- table :: e.count == multiset(words)[e.word]
    requires forall w <- words :: w in WordSet(table)
    ensures SumCounts(table) == |words|
  {
    if words != [] {
      assert words[0] in WordSet(table);
    }
    if table == [] {
      assert WordSet(table) == {};
    } else {
      var w := table[0].word;
      var rest := Without(words, w);
      forall e <- table[1..]
        ensures e.count == multiset(rest)[e.word]
      {
        var k :| 0 <= k < |table[1..]| && table[1..][k] == e;
        assert table[k + 1] == e;
      }
      forall x <- rest
        ensures x in WordSet(table[1..])
      {
        assert x in WordSet(table);
        var e :| e in table && e.word == x;
        var k :| 0 <= k < |table| && table[k] == e;
        assert k != 0;
        assert table[1..][k - 1] == e;
      }
      assert DistinctWords(table[1..]) by {
        forall i, j | 0 <= i < j < |table[1..]|
          ensures table[1..][i].word != table[1..][j].word
        {
          assert table[1..][i] == table[i + 1] && table[1..][j] == table[j + 1];
        }
      }
      SumCountsIsWordCount(table[1..], rest);
    }
  }

  /**
   * What `text_to_columns` promises of its list for the word sequence
   * `words`: one entry per distinct word, carrying that word's number of
   * occurrences, in the sort order.
   */
  ghost predicate IsFrequencyTable(table: seq<Entry>, words: seq<string>)
  {
    && (forall w :: w in words <==> w in WordSet(table))
    && DistinctWords(table)
    && (forall e <- table :: e.count == multiset(words)[e.word])
    && Sorted(table)
  }

  /**
   * A text yields an empty table, and so 0 distinct words, exactly when its
   * lower-cased form has no word character; the empty text is one such.
   */
  lemma EmptyTableIffNoWordChars(text: string, isWord: char -> bool, lower: char -> char, table: seq<Entry>)
    requires IsFrequencyTable(table, TokensOf(text, isWord, lower))
    ensures table == [] <==> forall c <- Lowered(text, lower) :: !isWord(c)
  {
    var words := TokensOf(text, isWord, lower);
    NoTokensIffNoWordChars(Lowered(text, lower), isWord);
    if table != [] {
      assert table[0].word in WordSet(table);
    }
    if words != [] {
      assert words[0] in words;
    }
  }

  /** In a table without repeated words, every entry occurs once. */
  lemma {:induction false} DistinctEntriesOnce(table: seq<Entry>, e: Entry)
    requires DistinctWords(table)
    ensures multiset(table)[e] == if e in table then 1 else 0
  {
    if table != [] {
      assert DistinctWords(table[1..]) by {
        forall i, j | 0 <= i < j < |table[1..]|
          ensures table[1..][i].word != table[1..][j].word
        {
          assert table[1..][i] == table[i + 1] && table[1..][j] == table[j + 1];
        }
      }
      DistinctEntriesOnce(table[1..], e);
      assert table == [table[0]] + table[1..];
      assert multiset(table) == multiset{table[0]} + multiset(table[1..]);
      if e == table[0] {
        forall k | 0 <= k < |table[1..]|
          ensures table[1..][k] != e
        {
          assert table[1..][k] == table[k + 1];
        }
      }
    }
  }

  /**
   * The frequency table of a word sequence is unique: any two lists meeting
   * `IsFrequencyTable` for the same words are equal, so the output does not
   * depend on how the dictionary was filled or which sort produced it.
   */
  lemma FrequencyTableUnique(t1: seq<Entry>, t2: seq<Entry>, words: seq<string>)
    requires IsFrequencyTable(t1, words) && IsFrequencyTable(t2, words)
    ensures t1 == t2
  {
    forall e
      ensures multiset(t1)[e] == multiset(t2)[e]
    {
      DistinctEntriesOnce(t1, e);
      DistinctEntriesOnce(t2, e);
      SameEntries(t1, t2, words, e);
      SameEntries(t2, t1, words, e);
    }
    assert multiset(t1) == multiset(t2);
    SortedUnique(t1, t2);
  }

  lemma SameEntries(t1: seq<Entry>, t2: seq<Entry>, words: seq<string>, e: Entry)
    requires IsFrequencyTable(t1, words) && IsFrequencyTable(t2, words)
    ensures e in t1 ==> e in t2
  {
    if e in t1 {
      assert e.word in WordSet(t1);
      assert e.word in WordSet(t2);
      var e' :| e' in t2 && e'.word == e.word;
    }
  }

  /** The dictionary's items, in its insertion order. */
  function Items(order: seq<string>, counts: map<string, nat>): (r: seq<Entry>)
    requires forall w <- order :: w in counts
    ensures |r| == |order|
    ensures forall k :: 0 <= k < |order| ==> r[k] == Entry(order[k], counts[order[k]])
  {
    if order == [] then [] else [Entry(order[0], counts[order[0]])] + Items(order[1..], counts)
  }

  /** The items of a dictionary counting `words`: one per word, with its number of occurrences. */
  lemma ItemsOfCounts(words: seq<string>, counts: map<string, nat>, order: seq<string>)
    requires forall w :: w in counts <==> w in words
    requires forall w :: w in order <==> w in counts
    requires forall w <- counts :: counts[w] == multiset(words)[w]
    requires forall j, k :: 0 <= j < k < |order| ==> order[j] != order[k]
    ensures var items := Items(order, counts);
      && DistinctWords(items)
      && (forall e <- items :: e.word in words && e.count == multiset(words)[e.word] >= 1)
      && (forall w <- words :: exists e <- items :: e.word == w)
  {
    var items := Items(order, counts);
    forall w <- words
      ensures exists e <- items :: e.word == w
    {
      var k :| 0 <= k < |order| && order[k] == w;
      assert items[k].word == w;
    }
  }

  /** A sequence without repetitions has as many elements as its set. */
  lemma {:induction false} DistinctCardinality(order: seq<string>)
    requires forall i, j :: 0 <= i < j < |order| ==> order[i] != order[j]
    ensures |(set w <- order)| == |order|
  {
    if order != [] {
      DistinctCardinality(order[1..]);
      var tail := set w <- order[1..];
      assert (set w <- order) == tail + {order[0]};
      assert order[0] !in tail;
    }
  }

  /**
   * The sorted items of a dictionary that counts `words` form the frequency
   * table of `words`: one entry per distinct word, each with its number of
   * occurrences, in the sort order, the counts adding up to `|words|`.
   */
  lemma SortedCountsTable(words: seq<string>, counts: map<string, nat>, order: seq<string>)
    requires forall w :: w in counts <==> w in words
    requires forall w :: w in order <==> w in counts
    requires forall w <- counts :: counts[w] == multiset(words)[w]
    requires forall j, k :: 0 <= j < k < |order| ==> order[j] != order[k]
    ensures var table := SortByFrequency(Items(order, counts));
      && |counts| == |table|
      && (forall w :: w in words <==> w in WordSet(table))
      && DistinctWords(table)
      && (forall e <- table :: e.count == multiset(words)[e.word] >= 1)
      && Sorted(table)
      && SumCounts(table) == |words|
  {
    var items := Items(order, counts);
    var table := SortByFrequency(items);
    assert |counts| == |order| by {
      assert counts.Keys == set w <- order;
      DistinctCardinality(order);
    }
    ItemsOfCounts(words, counts, order);
    SortByFrequencyDistinct(items);
    SortByFrequencySorted(items);
    forall e <- table
      ensures e in items
    {
      assert e in multiset(table);
    }
    forall w | w in words
      ensures w in WordSet(table)
    {
      var e :| e in items && e.word == w;
      assert e in multiset(table);
    }
    SumCountsIsWordCount(table, words);
  }

  /**
   * `text_to_columns`: lower-cases the text, extracts its tokens, counts
   * each token's occurrences in a dictionary filled in place, and returns
   * the dictionary's items sorted by the key (-count, word) together with
   * the number of distinct words.
   */
  method TextToColumns(text: string, isWord: char -> bool, lower: char -> char)
    returns (table: seq<Entry>, uniqueCount: nat)
    ensures uniqueCount == |table|
    ensures forall w :: w in TokensOf(text, isWord, lower) <==> w in WordSet(table)
    ensures DistinctWords(table)
    ensures forall e <- table :: e.count == multiset(TokensOf(text, isWord, lower))[e.word] >= 1
    ensures Sorted(table)
    ensures SumCounts(table) == |TokensOf(text, isWord, lower)|
  {
    var lowered := Lowered(text, lower);
    var words := Tokens(lowered, isWord);
    var counts: map<string, nat> := map[];
    var order: seq<string> := [];
    for i := 0 to |words|
      invariant forall w :: w in counts <==> w in words[..i]
      invariant forall w :: w in order <==> w in counts
      invariant forall w <- counts :: counts[w] == multiset(words[..i])[w]
      invariant forall j, k :: 0 <= j < k < |order| ==> order[j] != order[k]
    {
      var word := words[i];
      assert words[..i + 1] == words[..i] + [word];
      if word in counts {
        counts := counts[word := counts[word] + 1];
      } else {
        counts := counts[word := 1];
        order := order + [word];
      }
    }
    assert words[..|words|] == words;
    table := SortByFrequency(Items(order, counts));
    uniqueCount := |counts|;

    SortedCountsTable(words, counts, order);
  }
}
