/** Order-preserving sequence operations used by every filtering step of the
    pipeline: list comprehensions with a condition (`Filter`), the
    "first occurrence of each key wins" deduplication of the merger
    (`FirstOccurrences`), and the subsequence relation that states
    "same elements, same order, some dropped". All folds are left folds,
    matching the source's `for` loops that append to a list. */
module Seqs {

  function Min(a: int, b: int): int {
    if a <= b then a else b
  }

  /** The elements rise strictly from left to right. */
  predicate Increasing(s: seq<nat>) {
    forall a, b :: 0 <= a < b < |s| ==> s[a] < s[b]
  }

  /** `a` can be obtained from `b` by deleting elements (matched from the right). */
  predicate IsSubsequence<T(==)>(a: seq<T>, b: seq<T>)
    decreases |b|
  {
    if |a| == 0 then true
    else if |b| == 0 then false
    else if a[|a| - 1] == b[|b| - 1] then IsSubsequence(a[..|a| - 1], b[..|b| - 1])
    else IsSubsequence(a, b[..|b| - 1])
  }

  lemma {:induction false} SubsequenceDropLast<T>(a: seq<T>, b: seq<T>)
    requires |a| > 0 && IsSubsequence(a, b)
    ensures IsSubsequence(a[..|a| - 1], b)
    decreases |b|, 0
  {
    var a' := a[..|a| - 1];
    if |a'| == 0 {
    } else if a[|a| - 1] == b[|b| - 1] {
      // a' is a subsequence of b minus its last element, hence of b
      SubsequenceExtend(a', b[..|b| - 1], b[|b| - 1]);
      assert b[..|b| - 1] + [b[|b| - 1]] == b;
    } else {
      SubsequenceDropLast(a, b[..|b| - 1]);
      SubsequenceExtend(a', b[..|b| - 1], b[|b| - 1]);
      assert b[..|b| - 1] + [b[|b| - 1]] == b;
    }
  }

  lemma {:induction false} SubsequenceExtend<T>(a: seq<T>, b: seq<T>, x: T)
    requires IsSubsequence(a, b)
    ensures IsSubsequence(a, b + [x])
    decreases |b|, 1
  {
    var b' := b + [x];
    assert b'[..|b'| - 1] == b;
    if |a| == 0 {
    } else if a[|a| - 1] == x {
      SubsequenceDropLast(a, b);
    }
  }

  lemma SubsequenceAppendBoth<T>(a: seq<T>, b: seq<T>, x: T)
    requires IsSubsequence(a, b)
    ensures IsSubsequence(a + [x], b + [x])
  {
    assert (a + [x])[..|a|] == a;
    assert (b + [x])[..|b|] == b;
  }

  /** `[x for x in s if p(x)]` */
  function Filter<T(!new)>(s: seq<T>, p: T -> bool): (r: seq<T>)
    ensures |r| <= |s|
    ensures forall x :: x in r <==> x in s && p(x)
  {
    if |s| == 0 then []
    else
      var last := s[|s| - 1];
      assert s == s[..|s| - 1] + [last];
      Filter(s[..|s| - 1], p) + (if p(last) then [last] else [])
  }

  lemma {:induction false} FilterIsSubsequence<T(!new)>(s: seq<T>, p: T -> bool)
    ensures IsSubsequence(Filter(s, p), s)
  {
    if |s| > 0 {
      var init, last := s[..|s| - 1], s[|s| - 1];
      assert s == init + [last];
      FilterIsSubsequence(init, p);
      assert s[..|s| - 1] == init;
      if p(last) {
        assert Filter(s, p) == Filter(init, p) + [last];
        SubsequenceAppendBoth(Filter(init, p), init, last);
      } else {
        assert Filter(s, p) == Filter(init, p);
        SubsequenceExtend(Filter(init, p), init, last);
      }
    }
  }

  /** Filtering twice keeps exactly the elements both conditions accept. */
  lemma {:induction false} FilterFilter<T(!new)>(s: seq<T>, p: T -> bool, q: T -> bool)
    ensures Filter(Filter(s, p), q) == Filter(s, x => p(x) && q(x))
  {
    if |s| > 0 {
      var init, last := s[..|s| - 1], s[|s| - 1];
      FilterFilter(init, p, q);
      var fp := Filter(init, p);
      if p(last) {
        assert Filter(s, p) == fp + [last];
        assert (fp + [last])[..|fp|] == fp;
      } else {
        assert Filter(s, p) == fp;
      }
    }
  }

  /** Two filters in a row keep an order-preserving part of the input. */
  lemma FilterFilterIsSubsequence<T(!new)>(s: seq<T>, p: T -> bool, q: T -> bool)
    ensures IsSubsequence(Filter(Filter(s, p), q), s)
  {
    FilterFilter(s, p, q);
    FilterIsSubsequence(s, x => p(x) && q(x));
  }

  /** Filtering with a condition every element meets changes nothing. */
  lemma {:induction false} FilterKeepsAll<T(!new)>(s: seq<T>, p: T -> bool)
    requires forall i :: 0 <= i < |s| ==> p(s[i])
    ensures Filter(s, p) == s
  {
    if |s| > 0 {
      var init, last := s[..|s| - 1], s[|s| - 1];
      assert s == init + [last];
      FilterKeepsAll(init, p);
    }
  }

  /** Some element before the end of `s` has key `k`. */
  predicate KeyOccurs<T, K(==)>(s: seq<T>, key: T -> K, k: K) {
    exists i :: 0 <= i < |s| && key(s[i]) == k
  }

  lemma KeyOccursAppend<T, K(!new)>(s: seq<T>, x: T, key: T -> K)
    ensures forall k :: KeyOccurs(s + [x], key, k) <==> KeyOccurs(s, key, k) || key(x) == k
  {
    forall k
      ensures KeyOccurs(s + [x], key, k) ==> KeyOccurs(s, key, k) || key(x) == k
    {
      if KeyOccurs(s + [x], key, k) {
        var i :| 0 <= i < |s| + 1 && key((s + [x])[i]) == k;
        if i < |s| {
          assert key(s[i]) == k;
        }
      }
    }
    forall k | KeyOccurs(s, key, k)
      ensures KeyOccurs(s + [x], key, k)
    {
      var i :| 0 <= i < |s| && key(s[i]) == k;
      assert (s + [x])[i] == s[i];
    }
    assert (s + [x])[|s|] == x;
  }

  /** Keeps each element whose key did not occur earlier in `s`: the
      reference meaning of "deduplicate by key, first one wins". */
  function FirstOccurrences<T, K(==,!new)>(s: seq<T>, key: T -> K): (r: seq<T>)
    ensures |r| <= |s|
    ensures forall x :: x in r ==> x in s
    ensures forall i, j :: 0 <= i < j < |r| ==> key(r[i]) != key(r[j])
    ensures forall k :: KeyOccurs(r, key, k) <==> KeyOccurs(s, key, k)
    ensures forall j :: 0 <= j < |r| ==>
              exists i :: 0 <= i < |s| && s[i] == r[j] && !KeyOccurs(s[..i], key, key(s[i]))
  {
    if |s| == 0 then []
    else
      var init, last := s[..|s| - 1], s[|s| - 1];
      var p := FirstOccurrences(init, key);
      assert s == init + [last];
      assert forall i :: 0 <= i < |init| ==> s[..i] == init[..i];
      KeyOccursAppend(init, last, key);
      if KeyOccurs(init, key, key(last)) then p
      else
        assert s[..|s| - 1] == init;
        var r := p + [last];
        KeyOccursAppend(p, last, key);
        r
  }

  lemma {:induction false} FirstOccurrencesIsSubsequence<T, K(!new)>(s: seq<T>, key: T -> K)
    ensures IsSubsequence(FirstOccurrences(s, key), s)
  {
    if |s| > 0 {
      var init, last := s[..|s| - 1], s[|s| - 1];
      assert s == init + [last];
      FirstOccurrencesIsSubsequence(init, key);
      if KeyOccurs(init, key, key(last)) {
        SubsequenceExtend(FirstOccurrences(init, key), init, last);
      } else {
        SubsequenceAppendBoth(FirstOccurrences(init, key), init, last);
      }
    }
  }

  /** Distinct values in first-seen order. */
  function Distinct<K(==,!new)>(s: seq<K>): (r: seq<K>)
    ensures forall x :: x in r <==> x in s
    ensures forall i, j :: 0 <= i < j < |r| ==> r[i] != r[j]
  {
    if |s| == 0 then []
    else
      var p := Distinct(s[..|s| - 1]);
      assert s == s[..|s| - 1] + [s[|s| - 1]];
      if s[|s| - 1] in p then p else p + [s[|s| - 1]]
  }

  lemma DistinctAppend<K(!new)>(s: seq<K>, x: K)
    ensures Distinct(s + [x]) == if x in s then Distinct(s) else Distinct(s) + [x]
  {
    assert (s + [x])[..|s|] == s;
  }
}
