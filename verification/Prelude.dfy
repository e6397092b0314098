/** Vocabulary shared by every module: bytes, options, and the sequence
    operations the client performs in place on its buffers. */
module Prelude {

  datatype Option<+T> = None | Some(value: T)

  type byte = x: int | 0 <= x < 256
  type uint16 = x: int | 0 <= x < 0x1_0000

  const TWO_TO_16: nat := 0x1_0000
  const TWO_TO_32: nat := 0x1_0000_0000
  const TWO_TO_64: nat := 0x1_0000_0000_0000_0000

  /** Conversion to a 32-bit unsigned integer: high bits are dropped. */
  function ToUint32(v: nat): (r: nat)
    ensures r < TWO_TO_32
    ensures if v < TWO_TO_32 then r == v else r + TWO_TO_32 <= v
  {
    v % 0x1_0000_0000
  }

  ghost predicate NoDup<T>(s: seq<T>) {
    forall i, j :: 0 <= i < j < |s| ==> s[i] != s[j]
  }

  /** The sequence 0, 1, ..., n - 1. */
  function Iota(n: nat): (r: seq<nat>)
    ensures |r| == n && forall k :: 0 <= k < n ==> r[k] == k
  {
    seq(n, k => k)
  }

  /** `s` with the |d| elements from position `at` on overwritten by `d`. */
  function Splice<T>(s: seq<T>, at: nat, d: seq<T>): (r: seq<T>)
    requires at + |d| <= |s|
    ensures |r| == |s|
    ensures forall k :: 0 <= k < |s| ==> r[k] == if at <= k < at + |d| then d[k - at] else s[k]
  {
    seq(|s|, k requires 0 <= k < |s| => if at <= k < at + |d| then d[k - at] else s[k])
  }

  /** What was written reads back, and a disjoint window reads as before. */
  lemma SpliceWindows<T>(s: seq<T>, at: nat, d: seq<T>, lo: nat, hi: nat)
    requires at + |d| <= |s| && lo <= hi <= |s|
    ensures Splice(s, at, d)[at..at + |d|] == d
    ensures hi <= at || at + |d| <= lo ==> Splice(s, at, d)[lo..hi] == s[lo..hi]
  {
  }

  /** Two adjacent overwrites are one: writing the next part of `d` extends the part written. */
  lemma SpliceExtend<T>(s: seq<T>, at: nat, d: seq<T>, done: nat, more: nat)
    requires at + |d| <= |s| && done + more <= |d|
    ensures Splice(Splice(s, at, d[..done]), at + done, d[done..done + more]) == Splice(s, at, d[..done + more])
  {
  }

  /** Overwriting one half of a concatenation overwrites the concatenation. */
  lemma SpliceLeft<T>(a: seq<T>, b: seq<T>, at: nat, d: seq<T>)
    requires at + |d| <= |a|
    ensures Splice(a, at, d) + b == Splice(a + b, at, d)
  {
  }

  lemma SpliceRight<T>(a: seq<T>, b: seq<T>, at: nat, d: seq<T>)
    requires at + |d| <= |b|
    ensures a + Splice(b, at, d) == Splice(a + b, |a| + at, d)
  {
  }

  /** The swap-with-the-last-and-shrink step used by every removal loop. */
  function SwapRemove<T>(s: seq<T>, i: nat): (r: seq<T>)
    requires i < |s|
    ensures |r| == |s| - 1
  {
    s[i := s[|s| - 1]][..|s| - 1]
  }

  /** Exactly the one occurrence at `i` disappears. */
  lemma SwapRemoveMultiset<T>(s: seq<T>, i: nat)
    requires i < |s|
    ensures multiset(s) == multiset(SwapRemove(s, i)) + multiset{s[i]}
  {
    var n := |s| - 1;
    var t := s[i := s[n]];
    assert t == SwapRemove(s, i) + [s[n]];
    assert multiset(t) == multiset(s) - multiset{s[i]} + multiset{s[n]};
  }

  lemma SwapRemoveSubset<T>(s: seq<T>, i: nat)
    requires i < |s|
    ensures forall k :: 0 <= k < i ==> SwapRemove(s, i)[k] == s[k]
    ensures forall x :: x in SwapRemove(s, i) ==> x in s
  {
  }

  /** r consists of exactly the entries of s that `keep` spares, in any order. */
  ghost predicate Sifted<T(!new)>(r: seq<T>, s: seq<T>, keep: T -> bool) {
    forall x :: multiset(r)[x] == if keep(x) then multiset(s)[x] else 0
  }

  /** r is s with some entries left out, the others in their order. */
  ghost predicate Subsequence<T>(r: seq<T>, s: seq<T>) {
    if r == [] then true
    else if s == [] then false
    else
      var m, n := |r| - 1, |s| - 1;
      if r[m] == s[n] then Subsequence(r[..m], s[..n]) else Subsequence(r, s[..n])
  }

  lemma SwapRemoveNoDup<T>(s: seq<T>, i: nat)
    requires i < |s| && NoDup(s)
    ensures NoDup(SwapRemove(s, i))
    ensures forall x :: x in SwapRemove(s, i) <==> x in s && x != s[i]
  {
    var r := SwapRemove(s, i);
    forall x | x in s && x != s[i] ensures x in r {
      var k :| 0 <= k < |s| && s[k] == x;
      assert if k == |s| - 1 then r[i] == x else r[k] == x;
    }
  }

  /** The first position of `x`. */
  function IndexOf<T(==)>(s: seq<T>, x: T): (i: nat)
    requires x in s
    ensures i < |s| && s[i] == x && forall j :: 0 <= j < i ==> s[j] != x
  {
    if s[0] == x then 0 else
      assert x in s[1..];
      1 + IndexOf(s[1..], x)
  }

  function CeilDiv(a: nat, b: nat): (q: nat)
    requires b > 0
  {
    a / b + (if a % b != 0 then 1 else 0)
  }

  /** Multiplication is monotone: the only non-linear fact the block
      arithmetic needs. */
  lemma {:induction false} MulMono(i: nat, j: nat, a: nat)
    requires i < j
    ensures i * a + a <= j * a
    decreases j
  {
    assert j * a == (j - 1) * a + a;
    if i < j - 1 {
      MulMono(i, j - 1, a);
    }
  }

  /** Quotient and remainder are unique. */
  lemma DivUnique(x: nat, q: nat, r: nat, b: nat)
    requires r < b && x == q * b + r
    ensures x / b == q && x % b == r
  {
    var q', r' := x / b, x % b;
    assert x == q' * b + r';
    if q' < q {
      MulMono(q', q, b);
    } else if q < q' {
      MulMono(q, q', b);
    }
  }

  /** CeilDiv is the number of chunks of size `b` that just hold `a`. */
  lemma CeilDivBounds(a: nat, b: nat)
    requires b > 0
    ensures a <= CeilDiv(a, b) * b < a + b
  {
    var q, r := a / b, a % b;
    assert a == q * b + r;
    assert (q + 1) * b == q * b + b;
  }

  lemma CeilDivUnique(a: nat, b: nat, n: nat)
    requires b > 0 && a <= n * b < a + b
    ensures CeilDiv(a, b) == n
  {
    CeilDivBounds(a, b);
    var m := CeilDiv(a, b);
    if m < n {
      MulMono(m, n, b);
    } else if n < m {
      MulMono(n, m, b);
    }
  }

  lemma CeilDivMono(a: nat, a': nat, b: nat)
    requires b > 0 && a <= a'
    ensures CeilDiv(a, b) <= CeilDiv(a', b)
  {
    CeilDivBounds(a, b);
    CeilDivBounds(a', b);
    if CeilDiv(a', b) < CeilDiv(a, b) {
      MulMono(CeilDiv(a', b), CeilDiv(a, b), b);
    }
  }
}
