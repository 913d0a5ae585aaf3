/**
 * String utilities standing in for the Python string operations the memory
 * layer relies on: `in` on strings (substring test), `lower()`, `upper()`,
 * `strip()`, `split(sep)`, `sep.join(parts)` and the argument-less `split()`
 * that tokenises on runs of whitespace.  Only ASCII letters change case.
 */
module Text {

  /** The ASCII characters treated as whitespace by `strip()` and `split()`:
      space, tab, line feed, vertical tab, form feed, carriage return and the
      four separators U+001C to U+001F.  They form two ranges: tab to
      carriage return (U+0009 to U+000D) and U+001C to space (U+0020). */
  predicate IsSpace(c: char) {
    ('\t' <= c <= '\r') || ('\U{001C}' <= c <= ' ')
  }

  predicate AllSpace(s: string) {
    forall k :: 0 <= k < |s| ==> IsSpace(s[k])
  }

  /** No leading or trailing whitespace: what `strip()` leaves behind. */
  predicate Stripped(s: string) {
    s == [] || (!IsSpace(s[0]) && !IsSpace(s[|s| - 1]))
  }

  function LowerChar(c: char): char {
    if 'A' <= c <= 'Z' then (c as int + 32) as char else c
  }

  function UpperChar(c: char): char {
    if 'a' <= c <= 'z' then (c as int - 32) as char else c
  }

  function Lower(s: string): string {
    seq(|s|, i requires 0 <= i < |s| => LowerChar(s[i]))
  }

  function Upper(s: string): string {
    seq(|s|, i requires 0 <= i < |s| => UpperChar(s[i]))
  }

  // ---------------------------------------------------------------------
  // Substring test (Python's `p in s` on strings)
  // ---------------------------------------------------------------------

  predicate IsPrefix(p: string, s: string) {
    |p| <= |s| && s[..|p|] == p
  }

  /** `p` occurs in `s` starting at position `i`. */
  ghost predicate OccursAt(s: string, p: string, i: int) {
    0 <= i <= |s| - |p| && s[i..i + |p|] == p
  }

  /** `p in s`: try every starting position from the left. */
  predicate Contains(s: string, p: string)
    decreases |s|
  {
    IsPrefix(p, s) || (|s| > 0 && Contains(s[1..], p))
  }

  /** The recursive search agrees with the positional definition of a substring. */
  lemma {:induction false} ContainsIff(s: string, p: string)
    ensures Contains(s, p) <==> exists i :: OccursAt(s, p, i)
    decreases |s|
  {
    if IsPrefix(p, s) {
      assert OccursAt(s, p, 0);
    } else if |s| > 0 {
      ContainsIff(s[1..], p);
      if Contains(s[1..], p) {
        var i :| OccursAt(s[1..], p, i);
        assert s[1..][i..i + |p|] == s[i + 1..i + 1 + |p|];
        assert OccursAt(s, p, i + 1);
      }
      if exists i :: OccursAt(s, p, i) {
        var i :| OccursAt(s, p, i);
        assert i != 0 by { assert s[0..|p|] == s[..|p|]; }
        assert s[1..][i - 1..i - 1 + |p|] == s[i..i + |p|];
        assert OccursAt(s[1..], p, i - 1);
      }
    }
  }

  /** Whoever contains a string contains each of its prefixes. */
  lemma {:induction false} ContainsPrefixOf(s: string, p: string, q: string)
    requires Contains(s, p + q)
    ensures Contains(s, p)
    decreases |s|
  {
    if IsPrefix(p + q, s) {
      assert s[..|p|] == (p + q)[..|p|] == p;
    } else {
      ContainsPrefixOf(s[1..], p, q);
    }
  }

  lemma ContainsAt(s: string, p: string, i: int)
    requires OccursAt(s, p, i)
    ensures Contains(s, p)
  {
    ContainsIff(s, p);
  }

  /** Containment is transitive. */
  lemma ContainsTrans(a: string, b: string, c: string)
    requires Contains(a, b) && Contains(b, c)
    ensures Contains(a, c)
  {
    ContainsIff(a, b);
    ContainsIff(b, c);
    var i :| OccursAt(a, b, i);
    var j :| OccursAt(b, c, j);
    forall t | 0 <= t < |c| ensures a[i + j..i + j + |c|][t] == c[t] {
      assert a[i + j + t] == a[i..i + |b|][j + t] == b[j + t];
      assert b[j..j + |c|][t] == b[j + t];
    }
    assert a[i + j..i + j + |c|] == c;
    ContainsAt(a, c, i + j);
  }

  /** `any(k in s for k in keys)`, scanning the keys in order. */
  predicate AnyIn(s: string, keys: seq<string>)
    ensures AnyIn(s, keys) <==> exists k :: 0 <= k < |keys| && Contains(s, keys[k])
  {
    if keys == [] then false
    else Contains(s, keys[0]) || (assert forall k :: 0 < k < |keys| ==> keys[k] == keys[1..][k - 1];
                                 AnyIn(s, keys[1..]))
  }

  // ---------------------------------------------------------------------
  // strip()
  // ---------------------------------------------------------------------

  /** First position at or after `i` that is not whitespace, or `|s|`. */
  function SkipSpace(s: string, i: nat): (j: nat)
    requires i <= |s|
    ensures i <= j <= |s|
    ensures forall k :: i <= k < j ==> IsSpace(s[k])
    ensures j < |s| ==> !IsSpace(s[j])
    decreases |s| - i
  {
    if i < |s| && IsSpace(s[i]) then SkipSpace(s, i + 1) else i
  }

  /** Last position at or before `j` that ends a non-whitespace character,
      but no further back than `lo`. */
  function SkipSpaceBack(s: string, lo: nat, j: nat): (e: nat)
    requires lo <= j <= |s|
    ensures lo <= e <= j
    ensures forall k :: e <= k < j ==> IsSpace(s[k])
    ensures e > lo ==> !IsSpace(s[e - 1])
    decreases j
  {
    if j > lo && IsSpace(s[j - 1]) then SkipSpaceBack(s, lo, j - 1) else j
  }

  /** Where `s.strip()` starts in `s`. */
  function StripStart(s: string): nat {
    SkipSpace(s, 0)
  }

  /** `s.strip()`: the result sits inside `s` between two runs of whitespace
      and itself neither starts nor ends with whitespace. */
  function Strip(s: string): (r: string)
    ensures StripStart(s) + |r| <= |s| && r == s[StripStart(s)..StripStart(s) + |r|]
    ensures forall k :: 0 <= k < StripStart(s) ==> IsSpace(s[k])
    ensures forall k :: StripStart(s) + |r| <= k < |s| ==> IsSpace(s[k])
    ensures Stripped(r)
    ensures Stripped(s) ==> r == s
  {
    var i := SkipSpace(s, 0);
    var e := SkipSpaceBack(s, i, |s|);
    assert e > i ==> s[i..e][0] == s[i] && s[i..e][e - i - 1] == s[e - 1];
    assert Stripped(s) && s != [] ==> i == 0 && e == |s|;
    s[i..e]
  }

  /** Stripping only removes whitespace, so a visible character stays. */
  lemma StripKeeps(s: string, c: char)
    requires !IsSpace(c) && c in s
    ensures c in Strip(s)
  {
    var r := Strip(s);
    var i := StripStart(s);
    var j :| 0 <= j < |s| && s[j] == c;
    assert r[j - i] == c;
  }

  /** Stripping adds no character. */
  lemma StripSubset(s: string)
    ensures forall c :: c in Strip(s) ==> c in s
  {
    var r := Strip(s);
    var i := StripStart(s);
    forall c | c in r ensures c in s {
      var j :| 0 <= j < |r| && r[j] == c;
      assert s[i + j] == c;
    }
  }

  /** Whitespace around a stripped text is exactly what `strip()` removes. */
  lemma StripPadded(p: string, x: string, q: string)
    requires AllSpace(p) && AllSpace(q) && Stripped(x)
    ensures Strip(p + x + q) == x
  {
    var s := p + x + q;
    if x != [] {
      assert s[|p|] == x[0];
      assert s[|p| + |x| - 1] == x[|x| - 1];
      assert StripStart(s) == |p|;
      assert s[|p|..|p| + |x|] == x;
    }
  }

  /** Whitespace added around a text does not change what `strip()` gives. */
  lemma StripAbsorbs(p: string, x: string, q: string)
    requires AllSpace(p) && AllSpace(q)
    ensures Strip(p + x + q) == Strip(x)
  {
    var a := StripStart(x);
    var m := Strip(x);
    var e := a + |m|;
    var x1, x2 := x[..a], x[e..];
    assert x == x1 + m + x2;
    assert AllSpace(p + x1) by {
      forall k | 0 <= k < |p + x1| ensures IsSpace((p + x1)[k]) {
        if k >= |p| { assert (p + x1)[k] == x[k - |p|]; }
      }
    }
    assert AllSpace(x2 + q) by {
      forall k | 0 <= k < |x2 + q| ensures IsSpace((x2 + q)[k]) {
        if k < |x2| { assert (x2 + q)[k] == x[e + k]; }
      }
    }
    Regroup5(p, x1, m, x2, q);
    StripPadded(p + x1, m, x2 + q);
  }

  lemma Regroup5(p: string, a: string, m: string, b: string, q: string)
    ensures p + (a + m + b) + q == (p + a) + m + (b + q)
  {
  }

  lemma StripFront(p: string, x: string)
    requires AllSpace(p)
    ensures Strip(p + x) == Strip(x)
  {
    assert p + x == p + x + [];
    StripAbsorbs(p, x, []);
  }

  lemma StripBack(x: string, q: string)
    requires AllSpace(q)
    ensures Strip(x + q) == Strip(x)
  {
    assert x + q == [] + x + q;
    StripAbsorbs([], x, q);
  }

  // ---------------------------------------------------------------------
  // split(sep) and sep.join(parts)
  // ---------------------------------------------------------------------

  /** Position of the first `d` at or after `i`, or `|s|` when there is none. */
  function FindFrom(s: string, d: char, i: nat): (j: nat)
    requires i <= |s|
    ensures i <= j <= |s|
    ensures j < |s| ==> s[j] == d
    ensures forall k :: i <= k < j ==> s[k] != d
    decreases |s| - i
  {
    if i < |s| && s[i] != d then FindFrom(s, d, i + 1) else i
  }

  /** Position of the first `d` in `s`, or `|s|` when there is none. */
  function Find(s: string, d: char): (j: nat)
    ensures j <= |s|
    ensures j < |s| ==> s[j] == d
    ensures forall k :: 0 <= k < j ==> s[k] != d
  {
    FindFrom(s, d, 0)
  }

  /** A position holding the first `d`, or the end when there is none, is
      the one `Find` finds. */
  lemma FindIs(s: string, d: char, j: nat)
    requires j <= |s|
    requires j < |s| ==> s[j] == d
    requires forall k :: 0 <= k < j ==> s[k] != d
    ensures Find(s, d) == j
  {
  }

  /** `s.split(d)` for a one-character separator: the pieces between
      consecutive separators, always at least one piece. */
  function Split(s: string, d: char): (r: seq<string>)
    ensures |r| >= 1
    ensures forall k :: 0 <= k < |r| ==> d !in r[k]
    decreases |s|
  {
    var i := Find(s, d);
    if i == |s| then
      [s]
    else
      assert d !in s[..i];
      [s[..i]] + Split(s[i + 1..], d)
  }

  /** `sep.join(parts)`. */
  function Join(parts: seq<string>, sep: string): string
  {
    if |parts| == 0 then ""
    else if |parts| == 1 then parts[0]
    else parts[0] + sep + Join(parts[1..], sep)
  }

  /** The first character of a join of two or more parts. */
  lemma JoinFirst(parts: seq<string>, sep: string)
    requires |parts| >= 2 && sep != []
    ensures var j := Join(parts, sep);
            j != [] && j[0] == if parts[0] != [] then parts[0][0] else sep[0]
  {
    var j := parts[0] + sep + Join(parts[1..], sep);
    assert Join(parts, sep) == j;
    assert parts[0] != [] ==> j[0] == parts[0][0];
    assert parts[0] == [] ==> j[0] == sep[0];
  }

  /** The last character of a join of two or more parts. */
  lemma {:induction false} JoinLast(parts: seq<string>, sep: string)
    requires |parts| >= 2 && sep != []
    ensures var j, l := Join(parts, sep), parts[|parts| - 1];
            j != [] && j[|j| - 1] == if l != [] then l[|l| - 1] else sep[|sep| - 1]
    decreases |parts|
  {
    var tail := Join(parts[1..], sep);
    var j := parts[0] + sep + tail;
    assert Join(parts, sep) == j;
    if |parts| > 2 {
      JoinLast(parts[1..], sep);
      assert j[|j| - 1] == tail[|tail| - 1];
    } else {
      assert tail == parts[1];
      if tail != [] { assert j[|j| - 1] == tail[|tail| - 1]; }
      else { assert j[|j| - 1] == sep[|sep| - 1]; }
    }
  }

  /** A character in neither the parts nor the separator is not in the join. */
  lemma {:induction false} JoinExcludes(parts: seq<string>, sep: string, c: char)
    requires c !in sep && forall k :: 0 <= k < |parts| ==> c !in parts[k]
    ensures c !in Join(parts, sep)
    decreases |parts|
  {
    if |parts| > 1 {
      JoinExcludes(parts[1..], sep, c);
      assert Join(parts, sep) == parts[0] + sep + Join(parts[1..], sep);
    }
  }

  /** Every part occurs in the join. */
  lemma {:induction false} JoinContains(parts: seq<string>, sep: string, k: nat)
    requires k < |parts|
    ensures Contains(Join(parts, sep), parts[k])
    decreases |parts|
  {
    var j := Join(parts, sep);
    if |parts| == 1 {
      assert j[0..|j|] == j;
      ContainsAt(j, parts[0], 0);
    } else {
      var t := Join(parts[1..], sep);
      assert j == (parts[0] + sep) + t;
      if k == 0 {
        assert j[0..|parts[0]|] == parts[0];
        ContainsAt(j, parts[0], 0);
      } else {
        JoinContains(parts[1..], sep, k - 1);
        var o := |parts[0] + sep|;
        assert j[o..o + |t|] == t;
        ContainsAt(j, t, o);
        ContainsTrans(j, t, parts[k]);
      }
    }
  }

  /** Joining the pieces with the separator gives back the original text. */
  lemma {:induction false} SplitThenJoin(s: string, d: char)
    ensures Join(Split(s, d), [d]) == s
    decreases |s|
  {
    var i := Find(s, d);
    if i < |s| {
      var rest := Split(s[i + 1..], d);
      var parts := Split(s, d);
      assert parts == [s[..i]] + rest;
      assert |parts| >= 2 && parts[0] == s[..i] && parts[1..] == rest;
      SplitThenJoin(s[i + 1..], d);
      assert Join(parts, [d]) == s[..i] + [d] + Join(rest, [d]);
      assert s == s[..i] + [d] + s[i + 1..];
    }
  }

  /** One step of `Split`: cut at the first separator. */
  lemma SplitStep(a: string, b: string, d: char)
    requires d !in a
    ensures Split(a + [d] + b, d) == [a] + Split(b, d)
  {
    var s := a + [d] + b;
    assert forall k :: 0 <= k < |a| ==> s[k] == a[k];
    assert s[|a|] == d;
    FindIs(s, d, |a|);
    assert s[..|a|] == a;
    assert s[|a| + 1..] == b;
  }

  /** Separator-free text in front of a string joins its first piece. */
  lemma SplitPadFront(a: string, m: string, d: char)
    requires d !in a
    ensures var sm := Split(m, d);
            Split(a + m, d) == [a + sm[0]] + sm[1..]
  {
    var i := Find(m, d);
    var t := a + m;
    assert forall k :: 0 <= k < |a| ==> t[k] == a[k];
    assert forall k :: |a| <= k < |t| ==> t[k] == m[k - |a|];
    FindIs(t, d, |a| + i);
    if i < |m| {
      assert t[..|a| + i] == a + m[..i];
      assert t[|a| + i + 1..] == m[i + 1..];
    } else {
      assert Split(m, d) == [m];
    }
  }

  /** A text without the separator is a single piece. */
  lemma SplitNone(s: string, d: char)
    requires d !in s
    ensures Split(s, d) == [s]
  {
    FindIs(s, d, |s|);
  }

  /** Putting a piece in front keeps the last piece last. */
  lemma ConsLast(x: string, r: seq<string>)
    requires |r| >= 1
    ensures ([x] + r)[..|r|] == [x] + r[..|r| - 1]
    ensures ([x] + r)[|r|] == r[|r| - 1]
  {
  }

  /** Separator-free text after a string joins its last piece. */
  lemma {:induction false} SplitPadBack(m: string, b: string, d: char)
    requires d !in b
    ensures var sm := Split(m, d);
            Split(m + b, d) == sm[..|sm| - 1] + [sm[|sm| - 1] + b]
    decreases |m|
  {
    var i := Find(m, d);
    if i < |m| {
      var m1, m2 := m[..i], m[i + 1..];
      assert m == m1 + [d] + m2;
      assert d !in m1;
      SplitStep(m1, m2, d);
      assert m + b == m1 + [d] + (m2 + b);
      SplitStep(m1, m2 + b, d);
      SplitPadBack(m2, b, d);
      ConsLast(m1, Split(m2, d));
    } else {
      assert d !in m;
      SplitNone(m, d);
      SplitNone(m + b, d);
    }
  }

  /** Whitespace in front of a text changes only its first piece, and only
      by whitespace. */
  lemma SplitPaddedFront(p: string, x: string, d: char)
    requires AllSpace(p) && !IsSpace(d)
    ensures |Split(p + x, d)| == |Split(x, d)|
    ensures forall k :: 0 <= k < |Split(x, d)| ==> Strip(Split(p + x, d)[k]) == Strip(Split(x, d)[k])
  {
    var sx := Split(x, d);
    assert d !in p by { forall k | 0 <= k < |p| ensures p[k] != d { } }
    SplitPadFront(p, x, d);
    StripFront(p, sx[0]);
  }

  /** Whitespace after a text changes only its last piece, and only by
      whitespace. */
  lemma SplitPaddedBack(x: string, q: string, d: char)
    requires AllSpace(q) && !IsSpace(d)
    ensures |Split(x + q, d)| == |Split(x, d)|
    ensures forall k :: 0 <= k < |Split(x, d)| ==> Strip(Split(x + q, d)[k]) == Strip(Split(x, d)[k])
  {
    var sx := Split(x, d);
    var n := |sx|;
    assert d !in q by { forall k | 0 <= k < |q| ensures q[k] != d { } }
    SplitPadBack(x, q, d);
    var sxq := sx[..n - 1] + [sx[n - 1] + q];
    assert |sxq| == n;
    forall k | 0 <= k < n ensures Strip(sxq[k]) == Strip(sx[k]) {
      if k < n - 1 {
        assert sxq[k] == sx[k];
      } else {
        assert sxq[k] == sx[n - 1] + q;
        StripBack(sx[n - 1], q);
      }
    }
  }

  /** Whitespace padding on both sides of a text changes its pieces only
      by whitespace: each piece strips to the same text. */
  lemma SplitPaddedPieces(p: string, m: string, q: string, d: char)
    requires AllSpace(p) && AllSpace(q) && !IsSpace(d)
    ensures |Split(p + (m + q), d)| == |Split(m, d)|
    ensures forall k :: 0 <= k < |Split(m, d)| ==> Strip(Split(p + (m + q), d)[k]) == Strip(Split(m, d)[k])
  {
    SplitPaddedBack(m, q, d);
    SplitPaddedFront(p, m + q, d);
  }

  /** Stripping a text before splitting it on a visible separator changes
      the pieces only by whitespace at the two ends: each piece strips to
      the same text. */
  lemma StripThenSplit(s: string, d: char)
    requires !IsSpace(d)
    ensures |Split(Strip(s), d)| == |Split(s, d)|
    ensures forall k :: 0 <= k < |Split(s, d)| ==> Strip(Split(s, d)[k]) == Strip(Split(Strip(s), d)[k])
  {
    var m := Strip(s);
    var a := StripStart(s);
    var p, q := s[..a], s[a + |m|..];
    assert AllSpace(p);
    assert AllSpace(q) by {
      forall k | 0 <= k < |q| ensures IsSpace(q[k]) { assert q[k] == s[a + |m| + k]; }
    }
    SplitPaddedPieces(p, m, q, d);
    assert s == p + (m + q);
  }

  /** Splitting the join of separator-free pieces gives back the pieces. */
  lemma {:induction false} JoinThenSplit(parts: seq<string>, d: char)
    requires |parts| >= 1
    requires forall k :: 0 <= k < |parts| ==> d !in parts[k]
    ensures Split(Join(parts, [d]), d) == parts
    decreases |parts|
  {
    if |parts| > 1 {
      JoinThenSplit(parts[1..], d);
      SplitStep(parts[0], Join(parts[1..], [d]), d);
      assert parts == [parts[0]] + parts[1..];
    }
  }

  /** Splitting at one separator occurrence splits the two sides independently. */
  lemma {:induction false} SplitAround(a: string, b: string, d: char)
    ensures Split(a + [d] + b, d) == Split(a, d) + Split(b, d)
    decreases |a|
  {
    var i := Find(a, d);
    if i < |a| {
      var a1, a2 := a[..i], a[i + 1..];
      assert d !in a1;
      Regroup(a, i, d, b);
      SplitStep(a1, a2, d);
      SplitStep(a1, a2 + [d] + b, d);
      SplitAround(a2, b, d);
      ConsAssoc(a1, Split(a2, d), Split(b, d));
    } else {
      assert d !in a;
      SplitStep(a, b, d);
      SplitNone(a, d);
    }
  }

  /** Cutting `a` at a separator at position `i`. */
  lemma Regroup(a: string, i: nat, d: char, b: string)
    requires i < |a| && a[i] == d
    ensures a == a[..i] + [d] + a[i + 1..]
    ensures a + [d] + b == a[..i] + [d] + (a[i + 1..] + [d] + b)
  {
    assert a == a[..i] + [d] + a[i + 1..];
  }

  lemma ConsAssoc(x: string, r: seq<string>, t: seq<string>)
    ensures [x] + r + t == [x] + (r + t)
  {
  }

  // ---------------------------------------------------------------------
  // split() with no argument
  // ---------------------------------------------------------------------

  /** A token of `split()`: non-empty, free of whitespace. */
  predicate IsWord(w: string) {
    w != [] && forall k :: 0 <= k < |w| ==> !IsSpace(w[k])
  }

  /** End of the run of non-whitespace characters that starts at `i`. */
  function WordEnd(s: string, i: nat): (j: nat)
    requires i <= |s|
    ensures i <= j <= |s|
    ensures forall k :: i <= k < j ==> !IsSpace(s[k])
    ensures j < |s| ==> IsSpace(s[j])
    decreases |s| - i
  {
    if i < |s| && !IsSpace(s[i]) then WordEnd(s, i + 1) else i
  }

  /** The words of `s` from position `i` on. */
  function TokensFrom(s: string, i: nat): (r: seq<string>)
    requires i <= |s|
    ensures forall k :: 0 <= k < |r| ==> IsWord(r[k])
    decreases |s| - i
  {
    var a := SkipSpace(s, i);
    if a == |s| then []
    else
      var b := WordEnd(s, a);
      [s[a..b]] + TokensFrom(s, b)
  }

  /** `s.split()`: the maximal runs of non-whitespace characters, in order. */
  function Tokens(s: string): (r: seq<string>)
    ensures forall k :: 0 <= k < |r| ==> IsWord(r[k])
  {
    TokensFrom(s, 0)
  }

  /** `SkipSpace` stops at the first non-whitespace position. */
  lemma SkipSpaceIs(s: string, i: nat, j: nat)
    requires i <= j <= |s|
    requires forall k :: i <= k < j ==> IsSpace(s[k])
    requires j < |s| ==> !IsSpace(s[j])
    ensures SkipSpace(s, i) == j
  {
  }

  /** `WordEnd` stops at the first whitespace position. */
  lemma WordEndIs(s: string, i: nat, j: nat)
    requires i <= j <= |s|
    requires forall k :: i <= k < j ==> !IsSpace(s[k])
    requires j < |s| ==> IsSpace(s[j])
    ensures WordEnd(s, i) == j
  {
  }

  /** Starting inside a run of whitespace or at its end gives the same words. */
  lemma TokensFromSpaces(s: string, i: nat, j: nat)
    requires i <= j <= |s|
    requires forall k :: i <= k < j ==> IsSpace(s[k])
    ensures TokensFrom(s, i) == TokensFrom(s, j)
  {
    SkipSpaceIs(s, i, SkipSpace(s, j));
  }

  /** From offset `o` on, `t` is `s`. */
  ghost predicate Agree(t: string, o: nat, s: string) {
    o + |s| == |t| && forall k :: 0 <= k < |s| ==> t[o + k] == s[k]
  }

  /** Skipping whitespace in a suffix ignores what comes before it. */
  lemma SkipSpaceAgree(t: string, o: nat, s: string, i: nat)
    requires Agree(t, o, s) && i <= |s|
    ensures SkipSpace(t, o + i) == o + SkipSpace(s, i)
  {
    var a := SkipSpace(s, i);
    forall k | o + i <= k < o + a ensures IsSpace(t[k]) { assert t[k] == s[k - o]; }
    assert o + a < |t| ==> t[o + a] == s[a];
    SkipSpaceIs(t, o + i, o + a);
  }

  /** The end of a word in a suffix ignores what comes before it. */
  lemma WordEndAgree(t: string, o: nat, s: string, a: nat)
    requires Agree(t, o, s) && a <= |s|
    ensures WordEnd(t, o + a) == o + WordEnd(s, a)
  {
    var b := WordEnd(s, a);
    forall k | o + a <= k < o + b ensures !IsSpace(t[k]) { assert t[k] == s[k - o]; }
    assert o + b < |t| ==> t[o + b] == s[b];
    WordEndIs(t, o + a, o + b);
  }

  /** The words of a suffix do not depend on what comes before it. */
  lemma {:induction false} TokensFromAgree(t: string, o: nat, s: string, i: nat)
    requires Agree(t, o, s) && i <= |s|
    ensures TokensFrom(t, o + i) == TokensFrom(s, i)
    decreases |s| - i
  {
    var a := SkipSpace(s, i);
    SkipSpaceAgree(t, o, s, i);
    if a < |s| {
      var b := WordEnd(s, a);
      WordEndAgree(t, o, s, a);
      TokensFromAgree(t, o, s, b);
      AgreeStep(t, o, s, i, a, b);
    } else {
      TokensFromEnd(t, o + i);
      TokensFromEnd(s, i);
    }
  }

  /** The step of `TokensFromAgree`: if the words after the next word agree,
      all the words agree. */
  lemma AgreeStep(t: string, o: nat, s: string, i: nat, a: nat, b: nat)
    requires Agree(t, o, s) && i <= a < b <= |s|
    requires SkipSpace(s, i) == a && WordEnd(s, a) == b
    requires SkipSpace(t, o + i) == o + a && WordEnd(t, o + a) == o + b
    requires TokensFrom(t, o + b) == TokensFrom(s, b)
    ensures TokensFrom(t, o + i) == TokensFrom(s, i)
  {
    SliceAgree(t, o, s, a, b);
    TokensFromAt(t, o + i, o + a, o + b);
    TokensFromAt(s, i, a, b);
  }

  /** A slice of the suffix is the same slice of `t`, shifted by `o`. */
  lemma SliceAgree(t: string, o: nat, s: string, a: nat, b: nat)
    requires Agree(t, o, s) && a <= b <= |s|
    ensures t[o + a..o + b] == s[a..b]
  {
    forall k | 0 <= k < b - a ensures t[o + a..o + b][k] == s[a..b][k] {
      assert t[o + a + k] == s[a + k];
    }
  }

  /** One step of `TokensFrom`, at known positions: the word from `a` to
      `b`, then the words after it. */
  lemma TokensFromAt(s: string, i: nat, a: nat, b: nat)
    requires i <= |s| && SkipSpace(s, i) == a && a < |s| && WordEnd(s, a) == b
    ensures TokensFrom(s, i) == [s[a..b]] + TokensFrom(s, b)
  {
  }

  /** No words are left once only whitespace remains. */
  lemma TokensFromEnd(s: string, i: nat)
    requires i <= |s| && SkipSpace(s, i) == |s|
    ensures TokensFrom(s, i) == []
  {
  }

  /** Text after `t` changes neither where the next word of `t` starts nor,
      when that text starts with whitespace, where the word ends. */
  lemma CutPositions(t: string, u: string, i: nat)
    requires i <= |t|
    requires u == [] || IsSpace(u[0])
    requires SkipSpace(t, i) < |t|
    ensures SkipSpace(t + u, i) == SkipSpace(t, i)
    ensures WordEnd(t + u, SkipSpace(t, i)) == WordEnd(t, SkipSpace(t, i))
  {
    var s := t + u;
    var a := SkipSpace(t, i);
    var b := WordEnd(t, a);
    assert forall k :: 0 <= k < |t| ==> s[k] == t[k];
    SkipSpaceIs(s, i, a);
    assert b == |t| && b < |s| ==> s[b] == u[0];
    WordEndIs(s, a, b);
  }

  /** A text followed by whitespace (or nothing) is split into words on its own. */
  lemma {:induction false} TokensFromCut(t: string, u: string, i: nat)
    requires i <= |t|
    requires u == [] || IsSpace(u[0])
    ensures TokensFrom(t + u, i) == TokensFrom(t, i) + TokensFrom(t + u, |t|)
    decreases |t| - i
  {
    var s := t + u;
    var a := SkipSpace(t, i);
    if a == |t| {
      forall k | i <= k < |t| ensures IsSpace(s[k]) { assert s[k] == t[k]; }
      TokensFromSpaces(s, i, |t|);
    } else {
      CutPositions(t, u, i);
      var b := WordEnd(t, a);
      assert s[a..b] == t[a..b];
      TokensFromCut(t, u, b);
      ConsAssoc(t[a..b], TokensFrom(t, b), TokensFrom(s, |t|));
    }
  }

  /** `split()` of a single word is that word. */
  lemma TokensOfWord(w: string)
    requires IsWord(w)
    ensures Tokens(w) == [w]
  {
    SkipSpaceIs(w, 0, 0);
    WordEndIs(w, 0, |w|);
    assert TokensFrom(w, |w|) == [];
    assert TokensFrom(w, 0) == [w[0..|w|]] + TokensFrom(w, |w|);
    assert w[0..|w|] == w;
  }

  /** `split()` of whitespace alone is empty. */
  lemma TokensOfSpaces(s: string)
    requires AllSpace(s)
    ensures Tokens(s) == []
  {
    SkipSpaceIs(s, 0, |s|);
  }

  /** `split()` cuts at every whitespace character: the words around one
      are the words of each side. */
  lemma TokensAround(a: string, c: char, b: string)
    requires IsSpace(c)
    ensures Tokens(a + [c] + b) == Tokens(a) + Tokens(b)
  {
    var s := a + [c] + b;
    var u := [c] + b;
    AppendAssoc(a, [c], b);
    assert u[0] == c;
    TokensFromCut(a, u, 0);
    assert TokensFrom(s, 0) == TokensFrom(a, 0) + TokensFrom(s, |a|);
    assert s[|a|] == c;
    TokensFromSpaces(s, |a|, |a| + 1);
    TokensAfter(a + [c], b);
    assert |a + [c]| == |a| + 1;
  }

  /** A text ends with what is appended to it. */
  lemma AgreeAfter(p: string, s: string)
    ensures Agree(p + s, |p|, s)
  {
  }

  /** The words after a prefix are the words of the rest. */
  lemma TokensAfter(p: string, s: string)
    ensures TokensFrom(p + s, |p|) == Tokens(s)
  {
    AgreeAfter(p, s);
    TokensFromAgree(p + s, |p|, s, 0);
  }

  lemma AppendAssoc(a: string, m: string, b: string)
    ensures a + m + b == a + (m + b)
  {
  }

  /** The characters of `s` that are not whitespace, in order. */
  function NonSpace(s: string): string {
    if s == [] then [] else (if IsSpace(s[0]) then [] else [s[0]]) + NonSpace(s[1..])
  }

  function Concat(parts: seq<string>): string {
    if parts == [] then [] else parts[0] + Concat(parts[1..])
  }

  lemma {:induction false} NonSpaceAppend(a: string, b: string)
    ensures NonSpace(a + b) == NonSpace(a) + NonSpace(b)
    decreases |a|
  {
    if a != [] {
      assert (a + b)[1..] == a[1..] + b;
      NonSpaceAppend(a[1..], b);
    } else {
      assert a + b == b;
    }
  }

  lemma {:induction false} NonSpaceOfSpaces(s: string)
    requires AllSpace(s)
    ensures NonSpace(s) == []
    decreases |s|
  {
    if s != [] { NonSpaceOfSpaces(s[1..]); }
  }

  lemma {:induction false} NonSpaceOfWord(s: string)
    requires forall k :: 0 <= k < |s| ==> !IsSpace(s[k])
    ensures NonSpace(s) == s
    decreases |s|
  {
    if s != [] { NonSpaceOfWord(s[1..]); }
  }

  lemma {:induction false} TokensFromKeepNonSpace(s: string, i: nat)
    requires i <= |s|
    ensures Concat(TokensFrom(s, i)) == NonSpace(s[i..])
    decreases |s| - i
  {
    var a := SkipSpace(s, i);
    SkipSpaceNonSpace(s, i);
    if a < |s| {
      var b := WordEnd(s, a);
      assert s[a..] == s[a..b] + s[b..];
      NonSpaceAppend(s[a..b], s[b..]);
      NonSpaceOfWord(s[a..b]);
      TokensFromKeepNonSpace(s, b);
      var ts := [s[a..b]] + TokensFrom(s, b);
      assert TokensFrom(s, i) == ts;
      assert ts[1..] == TokensFrom(s, b);
    }
  }

  /** Skipping whitespace drops nothing visible. */
  lemma SkipSpaceNonSpace(s: string, i: nat)
    requires i <= |s|
    ensures NonSpace(s[i..]) == NonSpace(s[SkipSpace(s, i)..])
  {
    var a := SkipSpace(s, i);
    assert s[i..] == s[i..a] + s[a..];
    NonSpaceAppend(s[i..a], s[a..]);
    NonSpaceOfSpaces(s[i..a]);
    assert NonSpace(s[i..a]) + NonSpace(s[a..]) == NonSpace(s[a..]);
  }

  /** Tokenising loses exactly the whitespace: gluing the tokens back together
      gives the non-whitespace characters of the input. */
  lemma TokensKeepNonSpace(s: string)
    ensures Concat(Tokens(s)) == NonSpace(s)
  {
    TokensFromKeepNonSpace(s, 0);
    assert s[0..] == s;
  }

  /** The set of lower-cased words of a text: `set(text.lower().split())`. */
  function WordSet(s: string): set<string> {
    set w | w in Tokens(Lower(s))
  }
}
