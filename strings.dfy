/**
 * The Python string built-ins the seed-image and data-URI code relies on,
 * over `string` (a sequence of Unicode scalar values). Case mapping covers
 * the ASCII letters only.
 */
module Strings {

  /** `s.startswith(p)` */
  predicate StartsWith(s: string, p: string) {
    |p| <= |s| && s[..|p|] == p
  }

  /** `s.endswith(p)` */
  predicate EndsWith(s: string, p: string) {
    |p| <= |s| && s[|s| - |p|..] == p
  }

  /** `s.endswith(suffixes)` for a tuple of suffixes: any of them. */
  predicate EndsWithAny(s: string, suffixes: seq<string>)
    decreases |suffixes|
  {
    suffixes != [] && (EndsWith(s, suffixes[0]) || EndsWithAny(s, suffixes[1..]))
  }

  lemma {:induction false} EndsWithAnyIff(s: string, suffixes: seq<string>)
    ensures EndsWithAny(s, suffixes) <==> exists i :: 0 <= i < |suffixes| && EndsWith(s, suffixes[i])
    decreases |suffixes|
  {
    if suffixes != [] {
      EndsWithAnyIff(s, suffixes[1..]);
      if EndsWithAny(s, suffixes[1..]) && !EndsWith(s, suffixes[0]) {
        var i :| 0 <= i < |suffixes[1..]| && EndsWith(s, suffixes[1..][i]);
        assert EndsWith(s, suffixes[i + 1]);
      }
      if exists i :: 0 <= i < |suffixes| && EndsWith(s, suffixes[i]) {
        var i :| 0 <= i < |suffixes| && EndsWith(s, suffixes[i]);
        if i > 0 {
          assert suffixes[1..][i - 1] == suffixes[i];
        }
      }
    }
  }

  /**
   * `s.replace(pat, rep)` for a non-empty pattern: every occurrence is
   * replaced, scanning from the left, matches never overlapping.
   */
  function Replace(s: string, pat: string, rep: string): (r: string)
    requires pat != []
    ensures |rep| == |pat| ==> |r| == |s|
    ensures |rep| <= |pat| ==> |r| <= |s|
    decreases |s|
  {
    if s == [] then []
    else if StartsWith(s, pat) then rep + Replace(s[|pat|..], pat, rep)
    else [s[0]] + Replace(s[1..], pat, rep)
  }

  /** A text that lacks one of the pattern's characters holds no occurrence, so `replace` leaves it alone. */
  lemma {:induction false} ReplaceAbsent(s: string, pat: string, rep: string, i: nat)
    requires i < |pat| && pat[i] !in s
    ensures Replace(s, pat, rep) == s
    decreases |s|
  {
    if s != [] {
      assert !StartsWith(s, pat);
      ReplaceAbsent(s[1..], pat, rep, i);
      assert [s[0]] + s[1..] == s;
    }
  }

  /** Replacing one character by another maps the text position by position. */
  lemma {:induction false} ReplaceCharAt(s: string, a: char, b: char)
    ensures |Replace(s, [a], [b])| == |s|
    ensures forall k :: 0 <= k < |s| ==> Replace(s, [a], [b])[k] == if s[k] == a then b else s[k]
    decreases |s|
  {
    if s != [] {
      ReplaceCharAt(s[1..], a, b);
      var r := Replace(s, [a], [b]);
      var head := if s[0] == a then b else s[0];
      assert StartsWith(s, [a]) <==> s[0] == a;
      assert r == [head] + Replace(s[1..], [a], [b]);
      forall k | 0 <= k < |s|
        ensures r[k] == if s[k] == a then b else s[k]
      {
        if k > 0 {
          assert r[k] == Replace(s[1..], [a], [b])[k - 1];
          assert s[k] == s[1..][k - 1];
        }
      }
    }
  }

  predicate IsUpper(c: char) {
    'A' <= c <= 'Z'
  }

  predicate IsLower(c: char) {
    'a' <= c <= 'z'
  }

  /** A character with case; `str.title` watches whether the previous one was. */
  predicate IsCased(c: char) {
    IsUpper(c) || IsLower(c)
  }

  function ToLower(c: char): (d: char)
    ensures IsCased(d) == IsCased(c) && !IsUpper(d)
    ensures IsUpper(c) ==> d as int == c as int + 32
    ensures IsLower(c) || !IsCased(c) ==> d == c
  {
    if IsUpper(c) then (c as int + 32) as char else c
  }

  function ToUpper(c: char): (d: char)
    ensures IsCased(d) == IsCased(c) && !IsLower(d)
    ensures IsLower(c) ==> d as int == c as int - 32
    ensures IsUpper(c) || !IsCased(c) ==> d == c
  {
    if IsLower(c) then (c as int - 32) as char else c
  }

  /**
   * `s.lower()`: no upper-case letter is left, each upper-case letter
   * becomes its own lower-case form, and everything else is kept.
   */
  function Lower(s: string): (r: string)
    ensures |r| == |s|
    ensures forall k :: 0 <= k < |r| ==> !IsUpper(r[k])
    ensures forall k :: 0 <= k < |s| && IsUpper(s[k]) ==> r[k] as int == s[k] as int + 32
    ensures forall k :: 0 <= k < |s| && !IsUpper(s[k]) ==> r[k] == s[k]
  {
    seq(|s|, k requires 0 <= k < |s| => ToLower(s[k]))
  }

  /** Lower-casing a lower-cased text changes nothing. */
  lemma LowerIdempotent(s: string)
    ensures Lower(Lower(s)) == Lower(s)
  {
    var l := Lower(s);
    assert forall k :: 0 <= k < |l| ==> Lower(l)[k] == l[k];
  }

  /**
   * `str.title` scans the text keeping a flag "the previous character was
   * cased": with the flag set a character is lower-cased, otherwise it is
   * title-cased (upper-case, for ASCII).
   */
  function TitleFrom(s: string, prevCased: bool): (r: string)
    ensures |r| == |s|
    decreases |s|
  {
    if s == [] then []
    else
      var c := if prevCased then ToLower(s[0]) else ToUpper(s[0]);
      [c] + TitleFrom(s[1..], IsCased(c))
  }

  /** `s.title()` */
  function Title(s: string): (r: string)
    ensures |r| == |s|
  {
    TitleFrom(s, false)
  }

  /** What `TitleFrom` puts at position k, stated without the scan. */
  lemma {:induction false} TitleFromAt(s: string, prevCased: bool)
    ensures |TitleFrom(s, prevCased)| == |s|
    ensures forall k :: 0 <= k < |s| ==>
      TitleFrom(s, prevCased)[k] ==
        (if (if k == 0 then prevCased else IsCased(s[k - 1])) then ToLower(s[k]) else ToUpper(s[k]))
    decreases |s|
  {
    if s != [] {
      var c := if prevCased then ToLower(s[0]) else ToUpper(s[0]);
      TitleFromAt(s[1..], IsCased(c));
      var r := TitleFrom(s, prevCased);
      assert r == [c] + TitleFrom(s[1..], IsCased(c));
      forall k | 0 < k < |s|
        ensures r[k] == (if IsCased(s[k - 1]) then ToLower(s[k]) else ToUpper(s[k]))
      {
        assert r[k] == TitleFrom(s[1..], IsCased(c))[k - 1];
        assert s[k] == s[1..][k - 1];
        if k > 1 {
          assert s[k - 1] == s[1..][k - 2];
        }
      }
    }
  }

  /**
   * Title case over ASCII: a letter at the start or after a non-letter is
   * upper-cased, every other letter lower-cased, anything else kept.
   */
  lemma TitleAt(s: string, k: nat)
    requires k < |s|
    ensures |Title(s)| == |s|
    ensures Title(s)[k] == if k == 0 || !IsCased(s[k - 1]) then ToUpper(s[k]) else ToLower(s[k])
    ensures IsCased(Title(s)[k]) == IsCased(s[k])
    ensures !IsCased(s[k]) ==> Title(s)[k] == s[k]
  {
    TitleFromAt(s, false);
    assert Title(s) == TitleFrom(s, false);
  }

  /** Title-casing twice is title-casing once. */
  lemma TitleIdempotent(s: string)
    ensures Title(Title(s)) == Title(s)
  {
    var t := Title(s);
    TitleFromAt(s, false);
    TitleFromAt(t, false);
    forall k | 0 <= k < |s|
      ensures Title(t)[k] == t[k]
    {
      TitleAt(s, k);
      TitleAt(t, k);
      if k > 0 {
        TitleAt(s, k - 1);
      }
    }
  }

  /** Python's `<=` on strings: code point by code point, a prefix first. */
  predicate LexLe(a: string, b: string)
    decreases |a|
  {
    a == [] || (b != [] && (a[0] < b[0] || (a[0] == b[0] && LexLe(a[1..], b[1..]))))
  }

  lemma {:induction false} LexLeTotal(a: string, b: string)
    ensures LexLe(a, b) || LexLe(b, a)
    decreases |a|
  {
    if a != [] && b != [] && a[0] == b[0] {
      LexLeTotal(a[1..], b[1..]);
    }
  }

  predicate Sorted(s: seq<string>) {
    forall i :: 0 <= i < |s| - 1 ==> LexLe(s[i], s[i + 1])
  }

  /** One step of the sort: place x in front of the first element it is at most. */
  function Insert(x: string, s: seq<string>): (r: seq<string>)
    requires Sorted(s)
    ensures Sorted(r)
    ensures multiset(r) == multiset(s) + multiset{x}
    ensures r[0] == x || (s != [] && r[0] == s[0])
    decreases |s|
  {
    if s == [] || LexLe(x, s[0]) then [x] + s
    else
      LexLeTotal(x, s[0]);
      assert s == [s[0]] + s[1..];
      [s[0]] + Insert(x, s[1..])
  }

  /** `sorted(names)` */
  function Sort(s: seq<string>): (r: seq<string>)
    ensures Sorted(r)
    ensures multiset(r) == multiset(s)
    decreases |s|
  {
    if s == [] then []
    else
      assert s == [s[0]] + s[1..];
      Insert(s[0], Sort(s[1..]))
  }
}
