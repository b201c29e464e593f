/**
 * The search of the word solver: which loaded words match the letters and the length, and the
 * order the result list is shown in.
 */
module WordSearch {
  import opened WordText

  /** Python's ordering of strings: character code by character code, a proper prefix first. */
  predicate LexLe(a: string, b: string)
    decreases |a|
  {
    a == [] || (b != [] && (a[0] < b[0] || (a[0] == b[0] && LexLe(a[1..], b[1..]))))
  }

  lemma {:induction false} LexLeTotal(a: string, b: string)
    ensures LexLe(a, b) || LexLe(b, a)
    decreases |a|
  {
    if a != [] && b != [] && a[0] == b[0] {
      LexLeTotal(a[1..], b[1..]);
    }
  }

  lemma {:induction false} LexLeTransitive(a: string, b: string, c: string)
    requires LexLe(a, b) && LexLe(b, c)
    ensures LexLe(a, c)
    decreases |a|
  {
    if a != [] && a[0] == b[0] && b[0] == c[0] {
      LexLeTransitive(a[1..], b[1..], c[1..]);
    }
  }

  lemma {:induction false} LexLeAntisymmetric(a: string, b: string)
    requires LexLe(a, b) && LexLe(b, a)
    ensures a == b
    decreases |a|
  {
    if a != [] {
      LexLeAntisymmetric(a[1..], b[1..]);
      assert a == [a[0]] + a[1..] && b == [b[0]] + b[1..];
    }
  }

  predicate Sorted(s: seq<string>) {
    forall i, j :: 0 <= i < j < |s| ==> LexLe(s[i], s[j])
  }

  /** `x` placed before the first element it does not exceed. */
  function Insert(x: string, s: seq<string>): (r: seq<string>)
    ensures multiset(r) == multiset(s) + multiset{x}
  {
    if s == [] then [x]
    else if LexLe(x, s[0]) then [x] + s
    else
      assert s == [s[0]] + s[1..];
      [s[0]] + Insert(x, s[1..])
  }

  /** `list.sort()` on strings. */
  function Sort(s: seq<string>): (r: seq<string>)
    ensures multiset(r) == multiset(s)
  {
    if s == [] then []
    else
      assert s == [s[0]] + s[1..];
      Insert(s[0], Sort(s[1..]))
  }

  lemma {:induction false} LexLeReflexive(a: string)
    ensures LexLe(a, a)
    decreases |a|
  {
    if a != [] {
      LexLeReflexive(a[1..]);
    }
  }

  lemma {:induction false} InsertSorted(x: string, s: seq<string>)
    requires Sorted(s)
    ensures Sorted(Insert(x, s))
  {
    if s == [] {
    } else if LexLe(x, s[0]) {
      forall j | 0 <= j < |s| ensures LexLe(x, s[j]) {
        if j > 0 {
          LexLeTransitive(x, s[0], s[j]);
        }
      }
      ConsSorted(x, s);
    } else {
      var rest := s[1..];
      SortedTail(s);
      InsertSorted(x, rest);
      LexLeTotal(x, s[0]);
      assert forall j :: 0 <= j < |rest| ==> LexLe(s[0], rest[j]) by {
        assert forall j :: 0 <= j < |rest| ==> rest[j] == s[j + 1];
      }
      InsertBounded(s[0], x, rest);
      ConsSorted(s[0], Insert(x, rest));
    }
  }

  /** The tail of an ordered sequence is ordered. */
  lemma SortedTail(s: seq<string>)
    requires Sorted(s) && s != []
    ensures Sorted(s[1..])
  {
    var t := s[1..];
    forall i, j | 0 <= i < j < |t| ensures LexLe(t[i], t[j]) {
      assert t[i] == s[i + 1] && t[j] == s[j + 1];
    }
  }

  /** An ordered sequence stays ordered behind an element that does not exceed any of it. */
  lemma ConsSorted(h: string, t: seq<string>)
    requires Sorted(t) && forall j :: 0 <= j < |t| ==> LexLe(h, t[j])
    ensures Sorted([h] + t)
  {
    var r := [h] + t;
    forall i, j | 0 <= i < j < |r| ensures LexLe(r[i], r[j]) {
      if i == 0 {
        assert r[j] == t[j - 1];
      } else {
        assert r[i] == t[i - 1] && r[j] == t[j - 1];
      }
    }
  }

  /** A lower bound of `x` and of every element of `s` bounds every element after inserting `x`. */
  lemma InsertBounded(y: string, x: string, s: seq<string>)
    requires LexLe(y, x) && forall j :: 0 <= j < |s| ==> LexLe(y, s[j])
    ensures forall j :: 0 <= j < |Insert(x, s)| ==> LexLe(y, Insert(x, s)[j])
  {
    var t := Insert(x, s);
    forall j | 0 <= j < |t| ensures LexLe(y, t[j]) {
      assert t[j] in multiset(t);
      if t[j] != x {
        assert t[j] in multiset(s);
        var k :| 0 <= k < |s| && s[k] == t[j];
      }
    }
  }

  /** The result of Sort is ordered, and it holds the same words as its input as many times each. */
  lemma {:induction false} SortSorted(s: seq<string>)
    ensures Sorted(Sort(s)) && multiset(Sort(s)) == multiset(s)
  {
    if s != [] {
      SortSorted(s[1..]);
      InsertSorted(s[0], Sort(s[1..]));
    }
  }

  /** There is one ordered arrangement of a collection of words, so Sort is the order Python gives. */
  lemma {:induction false} SortedUnique(a: seq<string>, b: seq<string>)
    requires Sorted(a) && Sorted(b) && multiset(a) == multiset(b)
    ensures a == b
    decreases |a|
  {
    assert |a| == |multiset(a)| == |b|;
    if a != [] {
      HeadIsLeast(a, b[0]);
      HeadIsLeast(b, a[0]);
      LexLeAntisymmetric(a[0], b[0]);
      TailMultiset(a);
      TailMultiset(b);
      SortedTail(a);
      SortedTail(b);
      SortedUnique(a[1..], b[1..]);
      SameHeadAndTail(a, b);
    }
  }

  lemma SameHeadAndTail(a: seq<string>, b: seq<string>)
    requires a != [] && b != [] && a[0] == b[0] && a[1..] == b[1..]
    ensures a == b
  {
    assert a == [a[0]] + a[1..] && b == [b[0]] + b[1..];
  }

  lemma HeadIsLeast(a: seq<string>, x: string)
    requires Sorted(a) && x in multiset(a)
    ensures LexLe(a[0], x)
  {
    var i :| 0 <= i < |a| && a[i] == x;
    if i == 0 {
      LexLeReflexive(x);
    }
  }

  lemma TailMultiset(a: seq<string>)
    requires a != []
    ensures multiset(a[1..]) == multiset(a) - multiset{a[0]}
  {
    assert a == [a[0]] + a[1..];
  }

  /**
   * The test of `find_words`: the target length, the mandatory letter (`m` is empty or one
   * character, and the empty string is in every word), and only allowed letters.
   */
  predicate Matches(word: string, m: string, additional: string, length: int)
    requires |m| <= 1
  {
    |word| == length && (m == "" || m[0] in word) &&
    forall k :: 0 <= k < |word| ==> word[k] in m + additional
  }

  /** The matching words, in the order they were loaded. */
  function MatchingWords(words: seq<string>, m: string, additional: string, length: int): (r: seq<string>)
    requires |m| <= 1
    ensures |r| <= |words|
  {
    if words == [] then []
    else
      var last := words[|words| - 1];
      MatchingWords(words[..|words| - 1], m, additional, length) + (if Matches(last, m, additional, length) then [last] else [])
  }

  /** A word occurs among the matches as often as it was loaded if it matches, and otherwise never. */
  lemma {:induction false} MatchingWordsCount(words: seq<string>, m: string, additional: string, length: int, w: string)
    requires |m| <= 1
    ensures multiset(MatchingWords(words, m, additional, length))[w] ==
      if Matches(w, m, additional, length) then multiset(words)[w] else 0
  {
    if words != [] {
      var p := words[..|words| - 1];
      assert words == p + [words[|words| - 1]];
      MatchingWordsCount(p, m, additional, length, w);
    }
  }

  /** `r` holds each word of `words` that matches as often as `words` does, and nothing else. */
  ghost predicate HoldsMatches(r: seq<string>, words: seq<string>, m: string, additional: string, length: int)
    requires |m| <= 1
  {
    forall w :: multiset(r)[w] == if Matches(w, m, additional, length) then multiset(words)[w] else 0
  }

  /**
   * The result list of `find_words`: sorted in Python's string order, and holding each loaded word
   * that matches as often as it was loaded, and nothing else.
   */
  lemma SortedMatches(words: seq<string>, m: string, additional: string, length: int)
    requires |m| <= 1
    ensures var r := Sort(MatchingWords(words, m, additional, length));
      Sorted(r) && HoldsMatches(r, words, m, additional, length)
  {
    var matching := MatchingWords(words, m, additional, length);
    SortSorted(matching);
    forall w ensures multiset(Sort(matching))[w] == if Matches(w, m, additional, length) then multiset(words)[w] else 0 {
      MatchingWordsCount(words, m, additional, length, w);
    }
  }
}
