/** Order-preserving filtering of sequences (JavaScript `Array.prototype.filter`). */
module Seqs {

  /** The elements of `s` that satisfy `p`, in their original order. */
  function Filter<T>(p: T -> bool, s: seq<T>): (r: seq<T>)
    ensures |r| <= |s|
    ensures forall i :: 0 <= i < |r| ==> p(r[i])
    ensures forall x :: x in r ==> x in s
    ensures (forall i :: 0 <= i < |s| ==> p(s[i])) ==> r == s
  {
    if |s| == 0 then []
    else (if p(s[0]) then [s[0]] else []) + Filter(p, s[1..])
  }

  /** Membership in the filtered sequence, in both directions. */
  lemma {:induction false} FilterMembership<T>(p: T -> bool, s: seq<T>)
    ensures forall x :: x in Filter(p, s) <==> x in s && p(x)
    decreases |s|
  {
    if |s| > 0 {
      FilterMembership(p, s[1..]);
      assert s == [s[0]] + s[1..];
    }
  }

  /** Filtering commutes with concatenation: the relative order of kept
      elements is exactly their order in the input. */
  lemma {:induction false} FilterConcat<T>(p: T -> bool, a: seq<T>, b: seq<T>)
    ensures Filter(p, a + b) == Filter(p, a) + Filter(p, b)
    decreases |a|
  {
    if |a| == 0 {
      assert a + b == b;
    } else {
      assert (a + b)[1..] == a[1..] + b;
      FilterConcat(p, a[1..], b);
    }
  }

  /** Filtering around a kept element: the kept elements before it, the
      element itself, then the kept elements after it. */
  lemma FilterAround<T>(p: T -> bool, s: seq<T>, j: nat)
    requires j < |s| && p(s[j])
    ensures Filter(p, s) == Filter(p, s[..j]) + [s[j]] + Filter(p, s[j + 1..])
  {
    var pre, rest := s[..j], s[j..];
    assert s == pre + rest;
    FilterConcat(p, pre, rest);
    assert rest == [s[j]] + s[j + 1..];
    FilterConsKept(p, s[j], s[j + 1..]);
  }

  /** An element that satisfies `p` is kept at the front. */
  lemma FilterConsKept<T>(p: T -> bool, x: T, s: seq<T>)
    requires p(x)
    ensures Filter(p, [x] + s) == [x] + Filter(p, s)
  {
    assert ([x] + s)[1..] == s;
  }

  /** An element the filter keeps after the position of a kept `s[j]` comes
      from a position after `j`. */
  lemma LaterComesFrom<T>(p: T -> bool, s: seq<T>, j: nat, t: nat) returns (k: nat)
    requires j < |s| && p(s[j])
    requires |Filter(p, s[..j])| < t < |Filter(p, s)|
    ensures j < k < |s| && p(s[k]) && Filter(p, s)[t] == s[k]
  {
    FilterAround(p, s, j);
    var after := s[j + 1..];
    var c := Filter(p, after);
    assert Filter(p, s)[t] == c[t - |Filter(p, s[..j])| - 1];
    FilterMembership(p, after);
    assert c[t - |Filter(p, s[..j])| - 1] in after;
    var m :| 0 <= m < |after| && after[m] == Filter(p, s)[t];
    k := j + 1 + m;
  }
}
