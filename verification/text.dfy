/** The handful of Python `str` operations the pipeline relies on, written
    out over `seq<char>`.

  Whitespace is the ASCII part of what `str.isspace` and the regular
  expression class `\s` accept; case mapping is ASCII only. */
module Text {

  /** ASCII characters that `str.strip()` removes and `\s` matches. */
  predicate IsSpace(c: char) {
    c == ' ' || c == '\t' || c == '\n' || c == '\r' || c == '\U{0B}' || c == '\U{0C}'
    || c == '\U{1C}' || c == '\U{1D}' || c == '\U{1E}' || c == '\U{1F}'
  }

  predicate IsDigit(c: char) {
    '0' <= c <= '9'
  }

  predicate IsUpperAscii(c: char) {
    'A' <= c <= 'Z'
  }

  predicate IsLowerAscii(c: char) {
    'a' <= c <= 'z'
  }

  predicate AllSpace(s: string) {
    forall i :: 0 <= i < |s| ==> IsSpace(s[i])
  }

  /** No whitespace at either end: what `s == s.strip()` says. */
  predicate IsStripped(s: string) {
    |s| == 0 || (!IsSpace(s[0]) && !IsSpace(s[|s| - 1]))
  }

  /** The text does not end in whitespace, as after `rstrip()`. */
  predicate NoTrailingSpace(s: string) {
    |s| == 0 || !IsSpace(s[|s| - 1])
  }

  /** Length of the leading whitespace run. */
  function LeadingSpaces(s: string): (n: nat)
    ensures n <= |s|
    ensures forall k :: 0 <= k < n ==> IsSpace(s[k])
    ensures n == |s| || !IsSpace(s[n])
  {
    if |s| > 0 && IsSpace(s[0]) then 1 + LeadingSpaces(s[1..]) else 0
  }

  /** Length of the trailing whitespace run. */
  function TrailingSpaces(s: string): (n: nat)
    ensures n <= |s|
    ensures forall k :: |s| - n <= k < |s| ==> IsSpace(s[k])
    ensures n == |s| || !IsSpace(s[|s| - n - 1])
  {
    if |s| > 0 && IsSpace(s[|s| - 1]) then
      var m := TrailingSpaces(s[..|s| - 1]);
      assert forall k :: |s| - 1 - m <= k < |s| - 1 ==> s[..|s| - 1][k] == s[k];
      1 + m
    else 0
  }

  /** `s.rstrip()` */
  function RStrip(s: string): (r: string)
    ensures |r| <= |s| && r == s[..|r|]
    ensures forall k :: |r| <= k < |s| ==> IsSpace(s[k])
    ensures |r| == 0 || !IsSpace(r[|r| - 1])
  {
    s[..|s| - TrailingSpaces(s)]
  }

  /** `s.lstrip()` */
  function LStrip(s: string): (r: string)
    ensures |r| <= |s| && r == s[|s| - |r|..]
    ensures forall k :: 0 <= k < |s| - |r| ==> IsSpace(s[k])
    ensures |r| == 0 || !IsSpace(r[0])
  {
    s[LeadingSpaces(s)..]
  }

  /** `s.strip()`: the part of `s` between its leading and trailing
      whitespace; only whitespace lies outside it. */
  function Strip(s: string): (r: string)
    ensures IsStripped(r)
    ensures LeadingSpaces(s) + |r| <= |s|
    ensures r == s[LeadingSpaces(s)..LeadingSpaces(s) + |r|]
    ensures forall k :: 0 <= k < |s| && !(LeadingSpaces(s) <= k < LeadingSpaces(s) + |r|) ==> IsSpace(s[k])
  {
    var n := LeadingSpaces(s);
    var l := s[n..];
    var r := RStrip(l);
    assert forall k :: n + |r| <= k < |s| ==> s[k] == l[k - n];
    r
  }

  lemma StrippedHasNoSpaces(s: string)
    requires IsStripped(s)
    ensures LeadingSpaces(s) == 0 && TrailingSpaces(s) == 0
  {
  }

  /** Stripping is idempotent: a stripped string is its own strip. */
  lemma StripOfStripped(s: string)
    requires IsStripped(s)
    ensures Strip(s) == s
  {
    StrippedHasNoSpaces(s);
    assert s[0..] == s;
  }

  /** `not s.strip()` holds exactly for all-whitespace strings. */
  lemma StripEmptyIffAllSpace(s: string)
    ensures Strip(s) == [] <==> AllSpace(s)
  {
  }

  // ---------------------------------------------------------------------
  // Searching

  /** `t` occurs in `s` starting at index `i`. */
  predicate OccursAt(s: string, t: string, i: nat) {
    i + |t| <= |s| && s[i..i + |t|] == t
  }

  /** A slice of a slice is a slice of the whole. */
  lemma SliceOfSlice<T>(s: seq<T>, a: nat, b: nat, c: nat, d: nat)
    requires a <= b <= |s| && c <= d <= b - a
    ensures s[a..b][c..d] == s[a + c..a + d]
  {
    forall k | 0 <= k < d - c
      ensures s[a..b][c..d][k] == s[a + c..a + d][k]
    {
      assert s[a..b][c + k] == s[a + c + k];
    }
  }

  function FindFrom(s: string, t: string, i: nat): (r: int)
    requires i <= |s|
    ensures r == -1 || (i <= r && OccursAt(s, t, r))
    ensures r == -1 ==> forall j :: i <= j <= |s| ==> !OccursAt(s, t, j)
    ensures r >= 0 ==> forall j :: i <= j < r ==> !OccursAt(s, t, j)
    decreases |s| - i
  {
    if i + |t| > |s| then -1
    else if s[i..i + |t|] == t then i
    else if i == |s| then -1
    else FindFrom(s, t, i + 1)
  }

  /** `s.find(t)`: the least index where `t` occurs, or -1. */
  function Find(s: string, t: string): (r: int)
    ensures r == -1 <==> forall j :: 0 <= j <= |s| ==> !OccursAt(s, t, j)
    ensures r >= 0 ==> OccursAt(s, t, r) && forall j :: 0 <= j < r ==> !OccursAt(s, t, j)
  {
    FindFrom(s, t, 0)
  }

  function RFindFrom(s: string, t: string, i: int): (r: int)
    requires i < |s| + 1
    ensures r == -1 || (0 <= r <= i && OccursAt(s, t, r))
    ensures forall j :: r < j <= i && 0 <= j ==> !OccursAt(s, t, j)
    decreases i + 1
  {
    if i < 0 then -1
    else if OccursAt(s, t, i) then i
    else RFindFrom(s, t, i - 1)
  }

  /** `s.rfind(t)`: the greatest index where `t` occurs, or -1. */
  function RFind(s: string, t: string): (r: int)
    ensures r == -1 <==> forall j :: 0 <= j <= |s| ==> !OccursAt(s, t, j)
    ensures r >= 0 ==> OccursAt(s, t, r) && forall j :: r < j <= |s| ==> !OccursAt(s, t, j)
  {
    RFindFrom(s, t, |s|)
  }

  /** `t in s` */
  predicate Contains(s: string, t: string) {
    Find(s, t) >= 0
  }

  predicate StartsWith(s: string, p: string) {
    |p| <= |s| && s[..|p|] == p
  }

  predicate EndsWith(s: string, p: string) {
    |p| <= |s| && s[|s| - |p|..] == p
  }

  // ---------------------------------------------------------------------
  // Character mapping

  function UpperChar(c: char): char {
    if IsLowerAscii(c) then (c as int - 32) as char else c
  }

  function LowerChar(c: char): char {
    if IsUpperAscii(c) then (c as int + 32) as char else c
  }

  /** `s.upper()` on ASCII letters. */
  function Upper(s: string): (r: string)
    ensures |r| == |s|
    ensures forall i :: 0 <= i < |s| ==> r[i] == UpperChar(s[i])
  {
    seq(|s|, i requires 0 <= i < |s| => UpperChar(s[i]))
  }

  /** `s.lower()` on ASCII letters. */
  function Lower(s: string): (r: string)
    ensures |r| == |s|
    ensures forall i :: 0 <= i < |s| ==> r[i] == LowerChar(s[i])
  {
    seq(|s|, i requires 0 <= i < |s| => LowerChar(s[i]))
  }

  /** `s.replace(c, rep)` for a one-character pattern. */
  function ReplaceChar(s: string, c: char, rep: string): (r: string)
    ensures c !in rep ==> c !in r
    ensures forall x :: x in r ==> x in s || x in rep
    ensures c !in s ==> r == s
    // a one-character replacement keeps every position
    ensures |rep| == 1 ==> |r| == |s| && forall i :: 0 <= i < |s| ==> r[i] == (if s[i] == c then rep[0] else s[i])
  {
    if |s| == 0 then []
    else (if s[0] == c then rep else [s[0]]) + ReplaceChar(s[1..], c, rep)
  }

  // ---------------------------------------------------------------------
  // Lines

  /** `sep.join(parts)` */
  function Join(parts: seq<string>, sep: string): string {
    if |parts| == 0 then []
    else if |parts| == 1 then parts[0]
    else parts[0] + sep + Join(parts[1..], sep)
  }

  /** `s.split(c)` for a one-character separator: always at least one piece. */
  function Split(s: string, c: char): (r: seq<string>)
    ensures |r| >= 1
    ensures forall i :: 0 <= i < |r| ==> c !in r[i]
    decreases |s|
  {
    var k := Find(s, [c]);
    if k < 0 then
      NoCharBefore(s, c, |s|);
      assert s[..|s|] == s;
      [s]
    else
      OccursAtChar(s, c, k);
      NoCharBefore(s, c, k);
      [s[..k]] + Split(s[k + 1..], c)
  }

  /** No occurrence of `[c]` starts before `k`, so `s[..k]` holds no `c`. */
  lemma NoCharBefore(s: string, c: char, k: nat)
    requires k <= |s| && forall j :: 0 <= j < k ==> !OccursAt(s, [c], j)
    ensures c !in s[..k]
  {
    forall i | 0 <= i < k
      ensures s[..k][i] != c
    {
      OccursAtChar(s, c, i);
    }
  }

  /** The first separator in `p + [c] + rest` is the one after `p`. */
  lemma FindSeparator(p: string, c: char, rest: string)
    requires c !in p
    ensures Find(p + [c] + rest, [c]) == |p|
  {
    var s := p + [c] + rest;
    assert s[|p|..|p| + 1] == [c];
    assert OccursAt(s, [c], |p|);
    forall j | 0 <= j < |p|
      ensures !OccursAt(s, [c], j)
    {
      assert s[j..j + 1][0] == p[j];
    }
  }

  /** A one-character pattern occurs exactly where that character stands. */
  lemma OccursAtChar(s: string, c: char, i: nat)
    ensures OccursAt(s, [c], i) <==> i < |s| && s[i] == c
  {
    if i < |s| {
      assert s[i..i + 1] == [s[i]];
    }
  }

  /** Text without the separator is one piece. */
  lemma SplitNoSeparator(a: string, c: char)
    requires c !in a
    ensures Split(a, c) == [a]
  {
    forall j | 0 <= j <= |a|
      ensures !OccursAt(a, [c], j)
    {
      OccursAtChar(a, c, j);
    }
  }

  /** The first separator ends the first piece. */
  lemma SplitAtFirst(p: string, c: char, rest: string)
    requires c !in p
    ensures Split(p + [c] + rest, c) == [p] + Split(rest, c)
  {
    var s := p + [c] + rest;
    FindSeparator(p, c, rest);
    assert s[..|p|] == p && s[|p| + 1..] == rest;
  }

  /** Text holding the separator is the text before its first occurrence,
      the separator, and the rest. */
  lemma FirstSeparator(a: string, c: char) returns (k: nat)
    requires c in a
    ensures k < |a| && a == a[..k] + [c] + a[k + 1..] && c !in a[..k]
  {
    var i :| 0 <= i < |a| && a[i] == c;
    OccursAtChar(a, c, i);
    k := Find(a, [c]);
    OccursAtChar(a, c, k);
    forall j | 0 <= j < k
      ensures a[..k][j] != c
    {
      OccursAtChar(a, c, j);
    }
  }

  lemma AppendAssoc<T>(x: seq<T>, y: seq<T>, z: seq<T>)
    ensures x + (y + z) == (x + y) + z
  {
  }

  /** A separator splits the text around it into the pieces of each side. */
  lemma {:induction false} SplitConcat(a: string, c: char, b: string)
    ensures Split(a + [c] + b, c) == Split(a, c) + Split(b, c)
    decreases |a|
  {
    if c !in a {
      SplitNoSeparator(a, c);
      SplitAtFirst(a, c, b);
    } else {
      var k := FirstSeparator(a, c);
      var p, q := a[..k], a[k + 1..];
      var s, t := a + [c] + b, q + [c] + b;
      assert s == p + [c] + t;
      SplitAtFirst(p, c, t);
      var st := Split(t, c);
      assert Split(s, c) == [p] + st;
      SplitConcat(q, c, b);
      SplitAtFirst(p, c, q);
      var sa, sq, sb := Split(a, c), Split(q, c), Split(b, c);
      assert sa == [p] + sq;
      assert st == sq + sb;
      AppendAssoc([p], sq, sb);
    }
  }

  /** Joining a first piece in front of at least one more. */
  lemma JoinCons(p: string, rest: seq<string>, sep: string)
    requires |rest| >= 1
    ensures Join([p] + rest, sep) == p + sep + Join(rest, sep)
  {
    assert ([p] + rest)[1..] == rest;
  }

  /** Joining with `c` and splitting on `c` gives the pieces back when no
      piece contains `c`. */
  lemma {:induction false} SplitJoin(parts: seq<string>, c: char)
    requires |parts| >= 1
    requires forall i :: 0 <= i < |parts| ==> c !in parts[i]
    ensures Split(Join(parts, [c]), c) == parts
  {
    if |parts| == 1 {
      SplitNoSeparator(parts[0], c);
    } else {
      var p0, tail := parts[0], parts[1..];
      assert parts == [p0] + tail;
      JoinCons(p0, tail, [c]);
      SplitAtFirst(p0, c, Join(tail, [c]));
      SplitJoin(tail, c);
    }
  }

  /** Splitting on `c` and joining with `c` gives the text back. */
  lemma {:induction false} JoinSplit(s: string, c: char)
    ensures Join(Split(s, c), [c]) == s
    decreases |s|
  {
    if c !in s {
      SplitNoSeparator(s, c);
    } else {
      var k := FirstSeparator(s, c);
      var p, rest := s[..k], s[k + 1..];
      SplitAtFirst(p, c, rest);
      JoinSplit(rest, c);
      JoinCons(p, Split(rest, c), [c]);
    }
  }

  // ---------------------------------------------------------------------
  // Numbers

  function DigitChar(d: nat): char
    requires d < 10
  {
    "0123456789"[d]
  }

  /** `str(n)` for a natural number. */
  function NatToString(n: nat): (r: string)
    ensures |r| >= 1
    ensures forall i :: 0 <= i < |r| ==> IsDigit(r[i])
  {
    if n < 10 then [DigitChar(n)] else NatToString(n / 10) + [DigitChar(n % 10)]
  }

  /** Different numbers print differently. */
  lemma {:induction false} NatToStringInjective(a: nat, b: nat)
    ensures NatToString(a) == NatToString(b) <==> a == b
  {
    if a >= 10 && b >= 10 {
      NatToStringInjective(a / 10, b / 10);
      var s, t := NatToString(a), NatToString(b);
      assert s[..|s| - 1] == NatToString(a / 10);
      assert t[..|t| - 1] == NatToString(b / 10);
    }
  }
}
