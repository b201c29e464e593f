/**
 * The text normalisers of the word solver: the mandatory-letter field, the additional-letters field
 * and the cleaning of word-file lines.  Characters are modelled on ASCII: letters are `A`..`Z` and
 * `a`..`z`, and lower-casing maps the one range onto the other.
 */
module WordText {
  import opened Wrappers

  predicate IsAlpha(c: char) {
    'a' <= c <= 'z' || 'A' <= c <= 'Z'
  }

  predicate IsLowerLetter(c: char) {
    'a' <= c <= 'z'
  }

  /** The characters Python's `strip()` removes, restricted to ASCII. */
  predicate IsSpace(c: char) {
    c == ' ' || 9 <= c as int <= 13 || 28 <= c as int <= 31
  }

  function Lower(c: char): (l: char)
    ensures IsAlpha(c) ==> IsLowerLetter(l)
    ensures !('A' <= c <= 'Z') ==> l == c
  {
    if 'A' <= c <= 'Z' then (c as int + 32) as char else c
  }

  /** `str.lower()`. */
  function LowerString(s: string): (r: string)
    ensures |r| == |s| && forall k :: 0 <= k < |s| ==> r[k] == Lower(s[k])
  {
    if s == [] then [] else [Lower(s[0])] + LowerString(s[1..])
  }

  predicate AllLowerLetters(s: string) {
    forall k :: 0 <= k < |s| ==> IsLowerLetter(s[k])
  }

  // ---------------------------------------------------------------------------------------------
  // The mandatory-letter field
  // ---------------------------------------------------------------------------------------------

  /**
   * `validate_mandatory_char` applied to the new text of the field.  Write traces are suspended
   * while the callback runs, so the value it stores is not validated again.
   */
  function NormalizeMandatory(value: string): (r: string)
    ensures |r| <= 1
    ensures |value| > 1 ==> r == value[..1]
    ensures |value| == 1 ==> (r != "" <==> IsAlpha(value[0]))
    ensures r != "" && |value| <= 1 ==> IsLowerLetter(r[0])
    ensures value == "" ==> r == ""
  {
    if |value| > 1 then [value[0]]
    else if |value| == 1 && !IsAlpha(value[0]) then ""
    else LowerString(value)
  }

  /** A single key typed into an empty field leaves it blank or holding that letter in lower case. */
  lemma TypedMandatory(c: char)
    ensures NormalizeMandatory([c]) == if IsAlpha(c) then [Lower(c)] else ""
  {
  }

  /** Once the field holds a character, typing more after it keeps that character and nothing else. */
  lemma MandatoryKeepsFirst(m: string, typed: string)
    requires |m| == 1 && typed != ""
    ensures NormalizeMandatory(m + typed) == m
  {
  }

  /**
   * Because the long-input branch neither checks nor lower-cases, pasting `1a` stores `1`, a
   * value the single-character branch would have cleared: the normaliser is not idempotent.
   */
  lemma MandatoryNotIdempotent()
    ensures NormalizeMandatory("1a") == "1"
    ensures NormalizeMandatory(NormalizeMandatory("1a")) == ""
  {
  }

  // ---------------------------------------------------------------------------------------------
  // The additional-letters field
  // ---------------------------------------------------------------------------------------------

  /** The letters of `value`, lower-cased, in order. */
  function LowerLetters(value: string): (r: string)
    ensures AllLowerLetters(r) && |r| <= |value|
  {
    if value == [] then []
    else (if IsAlpha(value[0]) then [Lower(value[0])] else []) + LowerLetters(value[1..])
  }

  /** The first occurrence of every character, in order of first occurrence. */
  function Dedup(s: string): (d: string)
    ensures |d| <= |s|
  {
    if s == [] then []
    else
      var d := Dedup(s[..|s| - 1]);
      if s[|s| - 1] in d then d else d + [s[|s| - 1]]
  }

  /** The position of the first occurrence of `c` in `s`. */
  function IndexOf(s: string, c: char): (i: nat)
    requires c in s
    ensures i < |s| && s[i] == c && c !in s[..i]
  {
    if s[0] == c then 0 else 1 + IndexOf(s[1..], c)
  }

  lemma {:induction false} IndexOfAppend(s: string, x: char, c: char)
    requires c in s
    ensures IndexOf(s + [x], c) == IndexOf(s, c)
  {
    if s[0] != c {
      assert (s + [x])[1..] == s[1..] + [x];
      IndexOfAppend(s[1..], x, c);
    }
  }

  /** Dedup keeps exactly the characters of `s`, each once, ordered by first occurrence in `s`. */
  lemma DedupCharacterised(s: string)
    ensures Distinct(Dedup(s))
    ensures forall c :: c in Dedup(s) <==> c in s
    ensures forall i, j :: 0 <= i < j < |Dedup(s)| ==> IndexOf(s, Dedup(s)[i]) < IndexOf(s, Dedup(s)[j])
  {
    DedupMembers(s);
    DedupOrdered(s);
  }

  lemma {:induction false} DedupMembers(s: string)
    ensures Distinct(Dedup(s))
    ensures forall c :: c in Dedup(s) <==> c in s
  {
    if s != [] {
      var p, x := s[..|s| - 1], s[|s| - 1];
      assert s == p + [x];
      DedupMembers(p);
      var d := Dedup(p);
      if x !in d {
        var e := d + [x];
        forall i, j | 0 <= i < j < |e|
          ensures e[i] != e[j]
        {
          if j == |d| {
            assert e[i] == d[i];
          }
        }
      }
    }
  }

  lemma {:induction false} DedupOrdered(s: string)
    ensures forall c :: c in Dedup(s) ==> c in s
    ensures forall i, j :: 0 <= i < j < |Dedup(s)| ==> IndexOf(s, Dedup(s)[i]) < IndexOf(s, Dedup(s)[j])
  {
    DedupMembers(s);
    if s != [] {
      var p, x := s[..|s| - 1], s[|s| - 1];
      assert s == p + [x];
      DedupOrdered(p);
      DedupMembers(p);
      var d := Dedup(p);
      forall c | c in p
        ensures IndexOf(s, c) == IndexOf(p, c)
      {
        IndexOfAppend(p, x, c);
      }
      var e := Dedup(s);
      forall i, j | 0 <= i < j < |e|
        ensures IndexOf(s, e[i]) < IndexOf(s, e[j])
      {
        assert e[i] == d[i];
        if j < |d| {
          assert e[j] == d[j];
        } else {
          assert x !in p;
          assert IndexOf(s, e[j]) == |s| - 1;
        }
      }
    }
  }


  /** A string of distinct characters is its own Dedup. */
  lemma {:induction false} DedupDistinct(s: string)
    requires Distinct(s)
    ensures Dedup(s) == s
  {
    if s != [] {
      var p := s[..|s| - 1];
      assert Distinct(p);
      DedupDistinct(p);
      assert s[|s| - 1] !in p;
      assert s == p + [s[|s| - 1]];
    }
  }

  /** The characters of `s` that are not the mandatory letter `m`. */
  function RemoveMandatory(s: string, m: string): (r: string)
    ensures |r| <= |s|
    ensures forall c :: c in r <==> c in s && [c] != m
  {
    if s == [] then [] else (if [s[0]] != m then [s[0]] else []) + RemoveMandatory(s[1..], m)
  }

  /**
   * `validate_additional_chars`: the letters of the new text, lower-cased, without repeats, cut to
   * six, and then without the mandatory letter `m` when the mandatory field is set.
   */
  function CleanAdditional(value: string, m: string): (r: string)
    ensures |r| <= 6
  {
    var unique := Dedup(LowerLetters(value));
    var kept := if |unique| > 6 then unique[..6] else unique;
    if m != "" then RemoveMandatory(kept, m) else kept
  }

  /** What the additional field holds after any edit. */
  lemma CleanAdditionalBounds(value: string, m: string)
    ensures var r := CleanAdditional(value, m);
      |r| <= 6 && AllLowerLetters(r) && Distinct(r) &&
      (|m| == 1 ==> m[0] !in r) &&
      (forall c :: c in r ==> c in LowerLetters(value))
  {
    var unique := Dedup(LowerLetters(value));
    var kept := if |unique| > 6 then unique[..6] else unique;
    TruncatedUnique(value);
    RemovePreserves(kept, m);
    if |m| == 1 {
      assert [m[0]] == m;
    }
  }

  /** The unique letters cut to six are at most six distinct lower-case letters of the value. */
  lemma TruncatedUnique(value: string)
    ensures var unique := Dedup(LowerLetters(value));
      var kept := if |unique| > 6 then unique[..6] else unique;
      |kept| <= 6 && AllLowerLetters(kept) && Distinct(kept) &&
      (forall c :: c in kept ==> c in LowerLetters(value))
  {
    var letters := LowerLetters(value);
    var unique := Dedup(letters);
    DedupCharacterised(letters);
    DedupKeepsLetters(letters);
    if |unique| > 6 {
      PrefixKeeps(unique, 6);
    }
  }

  /** A prefix of distinct lower-case letters is distinct lower-case letters drawn from the whole. */
  lemma PrefixKeeps(s: string, n: nat)
    requires n <= |s| && AllLowerLetters(s) && Distinct(s)
    ensures AllLowerLetters(s[..n]) && Distinct(s[..n]) && forall c :: c in s[..n] ==> c in s
  {
  }

  lemma DedupKeepsLetters(s: string)
    requires AllLowerLetters(s)
    ensures AllLowerLetters(Dedup(s))
  {
    DedupCharacterised(s);
    forall k | 0 <= k < |Dedup(s)| ensures IsLowerLetter(Dedup(s)[k]) {
      assert Dedup(s)[k] in s;
    }
  }

  /** The lower-cased letters are exactly the lower-case forms of the letters typed. */
  lemma {:induction false} LowerLettersMembers(value: string)
    ensures forall c :: c in LowerLetters(value) <==>
      exists k :: 0 <= k < |value| && IsAlpha(value[k]) && Lower(value[k]) == c
  {
    if value != [] {
      LowerLettersMembers(value[1..]);
      var head := if IsAlpha(value[0]) then [Lower(value[0])] else [];
      assert LowerLetters(value) == head + LowerLetters(value[1..]);
      forall c ensures c in LowerLetters(value) <==>
        exists k :: 0 <= k < |value| && IsAlpha(value[k]) && Lower(value[k]) == c
      {
        if c in LowerLetters(value[1..]) {
          var k :| 0 <= k < |value[1..]| && IsAlpha(value[1..][k]) && Lower(value[1..][k]) == c;
          assert value[k + 1] == value[1..][k];
        }
        if exists k :: 0 <= k < |value| && IsAlpha(value[k]) && Lower(value[k]) == c {
          var k :| 0 <= k < |value| && IsAlpha(value[k]) && Lower(value[k]) == c;
          if k > 0 {
            assert value[1..][k - 1] == value[k];
          }
        }
      }
    }
  }

  lemma {:induction false} RemovePreserves(s: string, m: string)
    requires AllLowerLetters(s) && Distinct(s)
    ensures AllLowerLetters(RemoveMandatory(s, m)) && Distinct(RemoveMandatory(s, m))
  {
    if s != [] {
      assert AllLowerLetters(s[1..]) && Distinct(s[1..]);
      RemovePreserves(s[1..], m);
      assert s[0] !in s[1..];
    }
  }

  /** With no mandatory letter and at most six distinct letters typed, every one of them is kept. */
  lemma CleanAdditionalKeepsFew(value: string)
    requires |Dedup(LowerLetters(value))| <= 6
    ensures var r := CleanAdditional(value, "");
      forall c :: c in r <==> exists k :: 0 <= k < |value| && IsAlpha(value[k]) && Lower(value[k]) == c
  {
    DedupCharacterised(LowerLetters(value));
    LowerLettersMembers(value);
  }

  /** Re-validating the stored value changes nothing. */
  lemma CleanAdditionalIdempotent(value: string, m: string)
    ensures CleanAdditional(CleanAdditional(value, m), m) == CleanAdditional(value, m)
  {
    var r := CleanAdditional(value, m);
    CleanAdditionalBounds(value, m);
    LowerLettersOfLower(r);
    DedupDistinct(r);
    RemoveAbsent(r, m);
  }

  /**
   * Which letters the additional field keeps: the first six distinct letters typed, lower-cased,
   * except one equal to the mandatory field, in the order they were first typed.
   */
  lemma CleanAdditionalKeeps(value: string, m: string)
    ensures var u := Dedup(LowerLetters(value));
      var r := CleanAdditional(value, m);
      (forall c :: c in r <==> c in u && IndexOf(u, c) < 6 && (m == "" || [c] != m)) &&
      IsSubsequence(r, if |u| > 6 then u[..6] else u)
  {
    var u := Dedup(LowerLetters(value));
    var kept := if |u| > 6 then u[..6] else u;
    var r := CleanAdditional(value, m);
    DedupCharacterised(LowerLetters(value));
    KeptPrefix(u, kept);
    if m != "" {
      assert r == RemoveMandatory(kept, m);
      RemoveIsSubsequence(kept, m);
    } else {
      assert r == kept;
      SubsequenceReflexive(kept);
      assert forall c :: [c] != m;
    }
  }

  lemma {:induction false} SubsequenceReflexive(s: string)
    ensures IsSubsequence(s, s)
  {
    if s != [] {
      SubsequenceReflexive(s[1..]);
    }
  }

  /** `r` is `s` with some characters left out, the rest in their order. */
  predicate IsSubsequence(r: string, s: string)
    decreases |s|
  {
    if r == [] then true
    else if s == [] then false
    else if r[0] == s[0] then IsSubsequence(r[1..], s[1..])
    else IsSubsequence(r, s[1..])
  }

  /** In a distinct string, a character's first position is its only one. */
  lemma IndexOfDistinct(u: string, i: nat)
    requires Distinct(u) && i < |u|
    ensures IndexOf(u, u[i]) == i
  {
  }

  /** The cut to six of a distinct string keeps exactly the characters at positions below six. */
  lemma KeptPrefix(u: string, kept: string)
    requires Distinct(u) && kept == if |u| > 6 then u[..6] else u
    ensures forall c :: c in kept <==> c in u && IndexOf(u, c) < 6
  {
    forall c | c in u
      ensures c in kept <==> IndexOf(u, c) < 6
    {
      if c in kept {
        var i :| 0 <= i < |kept| && kept[i] == c;
        assert u[i] == c;
        IndexOfDistinct(u, i);
      }
    }
  }

  /** Removing the mandatory letter leaves the other characters in their order. */
  lemma {:induction false} RemoveIsSubsequence(s: string, m: string)
    ensures IsSubsequence(RemoveMandatory(s, m), s)
  {
    if s != [] {
      var tail := RemoveMandatory(s[1..], m);
      RemoveIsSubsequence(s[1..], m);
      if [s[0]] != m {
        var r := [s[0]] + tail;
        assert r == RemoveMandatory(s, m);
        assert r[1..] == tail;
      } else {
        assert RemoveMandatory(s, m) == tail;
        if tail != [] {
          assert [tail[0]] != m;
        }
      }
    }
  }

  lemma {:induction false} LowerLettersOfLower(s: string)
    requires AllLowerLetters(s)
    ensures LowerLetters(s) == s
  {
    if s != [] {
      assert AllLowerLetters(s[1..]);
      LowerLettersOfLower(s[1..]);
      assert s == [s[0]] + s[1..];
    }
  }

  lemma {:induction false} RemoveAbsent(s: string, m: string)
    requires forall k :: 0 <= k < |s| ==> [s[k]] != m
    ensures RemoveMandatory(s, m) == s
  {
    if s != [] {
      assert forall k :: 0 <= k < |s[1..]| ==> [s[1..][k]] != m by {
        forall k | 0 <= k < |s[1..]| ensures [s[1..][k]] != m { assert s[1..][k] == s[k + 1]; }
      }
      RemoveAbsent(s[1..], m);
      assert s == [s[0]] + s[1..];
    }
  }

  // ---------------------------------------------------------------------------------------------
  // Word-file lines
  // ---------------------------------------------------------------------------------------------

  /** The number of white-space characters `s` starts with. */
  function LeadingSpace(s: string): (n: nat)
    ensures n <= |s| && (n < |s| ==> !IsSpace(s[n]))
    ensures forall k :: 0 <= k < n ==> IsSpace(s[k])
  {
    if s != [] && IsSpace(s[0]) then 1 + LeadingSpace(s[1..]) else 0
  }

  /** The length of `s` without the white space it ends with. */
  function TrimmedLength(s: string): (n: nat)
    ensures n <= |s| && (n > 0 ==> !IsSpace(s[n - 1]))
    ensures forall k :: n <= k < |s| ==> IsSpace(s[k])
  {
    if s != [] && IsSpace(s[|s| - 1]) then TrimmedLength(s[..|s| - 1]) else |s|
  }

  /** `str.strip()`: `s` without its leading and trailing white space. */
  function Strip(s: string): (r: string)
    ensures r == "" || (!IsSpace(r[0]) && !IsSpace(r[|r| - 1]))
  {
    var i := LeadingSpace(s);
    s[i..][..TrimmedLength(s[i..])]
  }

  /**
   * Strip keeps the middle of `s` from its first to its last non-blank character, and leaves
   * nothing exactly when the line is all white space.
   */
  lemma StripIsMiddle(s: string)
    ensures var i := LeadingSpace(s); var r := Strip(s);
      i + |r| <= |s| && r == s[i..i + |r|] &&
      (forall k :: 0 <= k < i ==> IsSpace(s[k])) &&
      (forall k :: i + |r| <= k < |s| ==> IsSpace(s[k]))
    ensures Strip(s) == "" <==> forall k :: 0 <= k < |s| ==> IsSpace(s[k])
  {
    var i := LeadingSpace(s);
    var l := s[i..];
    var n := TrimmedLength(l);
    assert Strip(s) == s[i..i + n];
    forall k | i + n <= k < |s| ensures IsSpace(s[k]) {
      assert s[k] == l[k - i];
    }
    if n > 0 {
      assert s[i] == l[0];
    }
  }

  /** The list comprehension of `load_file`: stripped, lower-cased lines, blank lines dropped. */
  function CleanLines(lines: seq<string>): (words: seq<string>)
    ensures |words| <= |lines|
  {
    if lines == [] then []
    else
      var s := Strip(lines[0]);
      (if s != "" then [LowerString(s)] else []) + CleanLines(lines[1..])
  }

  /** One line loads as its stripped, lower-cased text, or as nothing when it is blank. */
  lemma CleanLinesSingle(line: string)
    ensures CleanLines([line]) == if Strip(line) != "" then [LowerString(Strip(line))] else []
  {
    assert [line][1..] == [];
  }

  /**
   * Loading two runs of lines loads the words of the first, then those of the second: with
   * `CleanLinesSingle`, one word per non-blank line, in line order, repeats kept.
   */
  lemma {:induction false} CleanLinesAppend(a: seq<string>, b: seq<string>)
    ensures CleanLines(a + b) == CleanLines(a) + CleanLines(b)
  {
    if a == [] {
      assert a + b == b;
    } else {
      CleanLinesCons(a, b);
      CleanLinesAppend(a[1..], b);
      LinesAssociative(CleanLine(a[0]), CleanLines(a[1..]), CleanLines(b));
    }
  }

  /** The words one line contributes. */
  function CleanLine(line: string): (w: seq<string>)
    ensures |w| <= 1
  {
    if Strip(line) != "" then [LowerString(Strip(line))] else []
  }

  lemma CleanLinesCons(a: seq<string>, b: seq<string>)
    requires a != []
    ensures CleanLines(a + b) == CleanLine(a[0]) + CleanLines(a[1..] + b)
    ensures CleanLines(a) == CleanLine(a[0]) + CleanLines(a[1..])
  {
    assert (a + b)[0] == a[0] && (a + b)[1..] == a[1..] + b;
  }

  lemma LinesAssociative(x: seq<string>, y: seq<string>, z: seq<string>)
    ensures x + (y + z) == (x + y) + z
  {
  }

  /** Every loaded word comes from a line that is not blank. */
  lemma {:induction false} CleanLinesSound(lines: seq<string>)
    ensures forall w :: w in CleanLines(lines) ==>
      exists k :: 0 <= k < |lines| && Strip(lines[k]) != "" && w == LowerString(Strip(lines[k]))
  {
    if lines != [] {
      CleanLinesSound(lines[1..]);
      var head := if Strip(lines[0]) != "" then [LowerString(Strip(lines[0]))] else [];
      assert CleanLines(lines) == head + CleanLines(lines[1..]);
      forall w | w in CleanLines(lines)
        ensures exists k :: 0 <= k < |lines| && Strip(lines[k]) != "" && w == LowerString(Strip(lines[k]))
      {
        if w in CleanLines(lines[1..]) {
          var k :| 0 <= k < |lines[1..]| && Strip(lines[1..][k]) != "" && w == LowerString(Strip(lines[1..][k]));
          assert lines[k + 1] == lines[1..][k];
        } else {
          assert Strip(lines[0]) != "" && w == LowerString(Strip(lines[0]));
        }
      }
    }
  }

  /** Every line that is not blank is loaded, stripped and lower-cased. */
  lemma {:induction false} CleanLinesComplete(lines: seq<string>, k: nat)
    requires k < |lines| && Strip(lines[k]) != ""
    ensures LowerString(Strip(lines[k])) in CleanLines(lines)
  {
    var head := if Strip(lines[0]) != "" then [LowerString(Strip(lines[0]))] else [];
    assert CleanLines(lines) == head + CleanLines(lines[1..]);
    if k > 0 {
      assert lines[1..][k - 1] == lines[k];
      CleanLinesComplete(lines[1..], k - 1);
    }
  }

  /** Every loaded word is non-empty, lower case and has no white space at either end. */
  lemma {:induction false} CleanLinesShape(lines: seq<string>)
    ensures forall w :: w in CleanLines(lines) ==> WordShape(w)
  {
    if lines != [] {
      CleanLinesShape(lines[1..]);
      var s := Strip(lines[0]);
      var head := if s != "" then [LowerString(s)] else [];
      assert CleanLines(lines) == head + CleanLines(lines[1..]);
      if s != "" {
        var w := LowerString(s);
        assert w[0] == Lower(s[0]) && w[|w| - 1] == Lower(s[|s| - 1]);
        assert WordShape(w);
      }
    }
  }

  /** Non-empty, no upper-case letter, and no white space at either end. */
  predicate WordShape(w: string) {
    w != "" && (forall k :: 0 <= k < |w| ==> !('A' <= w[k] <= 'Z')) && !IsSpace(w[0]) && !IsSpace(w[|w| - 1])
  }
}
