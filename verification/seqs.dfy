/** Selections over sequences: boolean masks, the positions they keep, and
    picking elements by position.  Every row and column filter of the
    modelled dataframe code is one of these. */
module Seqs {

  /** `s` is a strictly increasing list of positions, each below `bound`. */
  ghost predicate IncreasingBelow(s: seq<nat>, bound: nat) {
    && (forall k :: 0 <= k < |s| ==> s[k] < bound)
    && (forall a, b :: 0 <= a < b < |s| ==> s[a] < s[b])
  }

  /** Number of `true` entries of a mask. */
  function CountTrue(m: seq<bool>): (n: nat)
    ensures n <= |m|
  {
    if |m| == 0 then 0 else CountTrue(m[..|m| - 1]) + (if m[|m| - 1] then 1 else 0)
  }

  /** Pointwise negation of a mask. */
  function Not(m: seq<bool>): (r: seq<bool>)
    ensures |r| == |m|
    ensures forall i :: 0 <= i < |m| ==> r[i] == !m[i]
  {
    seq(|m|, i requires 0 <= i < |m| => !m[i])
  }

  /** Pointwise conjunction of two masks of equal length. */
  function And(m: seq<bool>, p: seq<bool>): (r: seq<bool>)
    requires |m| == |p|
    ensures |r| == |m|
    ensures forall i :: 0 <= i < |m| ==> r[i] == (m[i] && p[i])
  {
    seq(|m|, i requires 0 <= i < |m| => m[i] && p[i])
  }

  /** The positions a mask keeps, in increasing order. */
  function Where(m: seq<bool>): (r: seq<nat>)
    ensures |r| == CountTrue(m)
    ensures IncreasingBelow(r, |m|)
    ensures forall i :: 0 <= i < |m| ==> (m[i] <==> i in r)
  {
    if |m| == 0 then []
    else
      var w := Where(m[..|m| - 1]);
      if m[|m| - 1] then w + [|m| - 1] else w
  }

  /** The elements of `s` at the positions `idx`, in the order of `idx`. */
  function Pick<T>(s: seq<T>, idx: seq<nat>): (r: seq<T>)
    requires forall k :: 0 <= k < |idx| ==> idx[k] < |s|
    ensures |r| == |idx|
    ensures forall k :: 0 <= k < |idx| ==> r[k] == s[idx[k]]
  {
    seq(|idx|, k requires 0 <= k < |idx| => s[idx[k]])
  }

  /** 0, 1, ..., n - 1. */
  function Identity(n: nat): (r: seq<nat>)
    ensures |r| == n
    ensures forall k :: 0 <= k < n ==> r[k] == k
  {
    seq(n, k requires 0 <= k < n => k)
  }

  /** `a` occurs in `b` in order: some increasing choice of positions of
      `b` spells out `a`. */
  ghost predicate Embeds<T>(idx: seq<nat>, a: seq<T>, b: seq<T>) {
    && IncreasingBelow(idx, |b|)
    && |idx| == |a|
    && (forall k :: 0 <= k < |a| ==> a[k] == b[idx[k]])
  }

  ghost predicate SubsequenceOf<T>(a: seq<T>, b: seq<T>) {
    exists idx: seq<nat> :: Embeds(idx, a, b)
  }

  lemma PickEmbeds<T>(s: seq<T>, idx: seq<nat>)
    requires IncreasingBelow(idx, |s|)
    ensures SubsequenceOf(Pick(s, idx), s)
  {
    assert Embeds(idx, Pick(s, idx), s);
  }

  /** Picking through two position lists at once. */
  lemma PickPick<T>(s: seq<T>, a: seq<nat>, b: seq<nat>)
    requires forall k :: 0 <= k < |a| ==> a[k] < |s|
    requires forall k :: 0 <= k < |b| ==> b[k] < |a|
    ensures Pick(Pick(s, a), b) == Pick(s, Pick(a, b))
  {
  }

  /** Composing two increasing selections is an increasing selection. */
  lemma IncreasingCompose(a: seq<nat>, b: seq<nat>, bound: nat)
    requires IncreasingBelow(a, bound)
    requires IncreasingBelow(b, |a|)
    ensures IncreasingBelow(Pick(a, b), bound)
  {
  }

  /** A strictly increasing list is determined by the set of its elements. */
  lemma {:induction false} IncreasingUnique(a: seq<nat>, b: seq<nat>, bound: nat)
    requires IncreasingBelow(a, bound) && IncreasingBelow(b, bound)
    requires forall x :: x in a <==> x in b
    ensures a == b
    decreases |a| + |b|
  {
    if |a| > 0 {
      assert a[0] in b;
    }
    if |b| > 0 {
      assert b[0] in a;
    }
    if |a| > 0 {
      assert a[0] == b[0] by {
        var i :| 0 <= i < |b| && b[i] == a[0];
        var j :| 0 <= j < |a| && a[j] == b[0];
        assert b[0] <= b[i];
        assert a[0] <= a[j];
      }
      forall x
        ensures x in a[1..] <==> x in b[1..]
      {
        if x in a[1..] {
          var i :| 1 <= i < |a| && a[i] == x;
          assert x != a[0];
          assert x in b;
          var j :| 0 <= j < |b| && b[j] == x;
          assert j != 0;
          assert b[j] == b[1..][j - 1];
        }
        if x in b[1..] {
          var j :| 1 <= j < |b| && b[j] == x;
          assert x != b[0];
          assert x in a;
          var i :| 0 <= i < |a| && a[i] == x;
          assert i != 0;
          assert a[i] == a[1..][i - 1];
        }
      }
      IncreasingUnique(a[1..], b[1..], bound);
      assert a == [a[0]] + a[1..];
      assert b == [b[0]] + b[1..];
    }
  }

  lemma ComposeMember(m: seq<bool>, p: seq<bool>, x: nat)
    requires |m| == |p|
    ensures x in Pick(Where(m), Where(Pick(p, Where(m)))) <==> x < |m| && m[x] && p[x]
  {
    var w1 := Where(m);
    var q := Pick(p, w1);
    var w2 := Where(q);
    var c := Pick(w1, w2);
    if x in c {
      var k :| 0 <= k < |c| && c[k] == x;
      var a := w2[k];
      assert q[a];
      assert w1[a] == x;
    }
    if x < |m| && m[x] && p[x] {
      assert x in w1;
      var a :| 0 <= a < |w1| && w1[a] == x;
      assert q[a];
      assert a in w2;
      var k :| 0 <= k < |w2| && w2[k] == a;
      assert c[k] == x;
    }
  }

  /** Filtering by `m` and then, among the survivors, by `p` keeps exactly
      the positions where both hold: sequential filtering selects the same
      positions as one filter by the conjunction. */
  lemma WhereThenWhere(m: seq<bool>, p: seq<bool>)
    requires |m| == |p|
    ensures Pick(Where(m), Where(Pick(p, Where(m)))) == Where(And(m, p))
  {
    var w1 := Where(m);
    var w2 := Where(Pick(p, w1));
    var c := Pick(w1, w2);
    var both := Where(And(m, p));
    IncreasingCompose(w1, w2, |m|);
    forall x
      ensures x in c <==> x in both
    {
      ComposeMember(m, p, x);
      if x in both {
        var k :| 0 <= k < |both| && both[k] == x;
      }
    }
    IncreasingUnique(c, both, |m|);
  }

  lemma CountAppend(s: seq<bool>, b: bool)
    ensures CountTrue(s + [b]) == CountTrue(s) + (if b then 1 else 0)
  {
    assert (s + [b])[..|s|] == s;
  }

  lemma CountLast(s: seq<bool>)
    requires |s| > 0
    ensures CountTrue(s) == CountTrue(s[..|s| - 1]) + (if s[|s| - 1] then 1 else 0)
  {
  }

  lemma WhereLast(m: seq<bool>)
    requires |m| > 0
    ensures Where(m) == if m[|m| - 1] then Where(m[..|m| - 1]) + [|m| - 1] else Where(m[..|m| - 1])
  {
  }

  /** Positions below `n` pick the same elements from a prefix of length `n`. */
  lemma PickPrefix<T>(s: seq<T>, idx: seq<nat>, n: nat)
    requires n <= |s|
    requires forall k :: 0 <= k < |idx| ==> idx[k] < n
    ensures Pick(s, idx) == Pick(s[..n], idx)
  {
  }

  lemma PickSnoc<T>(s: seq<T>, idx: seq<nat>, j: nat)
    requires forall k :: 0 <= k < |idx| ==> idx[k] < |s|
    requires j < |s|
    ensures Pick(s, idx + [j]) == Pick(s, idx) + [s[j]]
  {
  }

  /** Counting the survivors of a filter that satisfy `p` is counting the
      positions where both the filter and `p` hold. */
  lemma {:induction false} CountPicked(p: seq<bool>, m: seq<bool>)
    requires |m| == |p|
    ensures CountTrue(Pick(p, Where(m))) == CountTrue(And(m, p))
    decreases |m|
  {
    if |m| > 0 {
      var n := |m| - 1;
      var w' := Where(m[..n]);
      var before := Pick(p[..n], w');
      CountPicked(p[..n], m[..n]);
      PickPrefix(p, w', n);
      var both := And(m, p);
      assert both[..n] == And(m[..n], p[..n]);
      CountLast(both);
      assert CountTrue(both) == CountTrue(before) + (if m[n] && p[n] then 1 else 0);
      WhereLast(m);
      if m[n] {
        PickSnoc(p, w', n);
        CountAppend(before, p[n]);
        assert CountTrue(Pick(p, Where(m))) == CountTrue(before) + (if p[n] then 1 else 0);
      } else {
        assert Pick(p, Where(m)) == before;
      }
    }
  }

  /** A filter keeps everything when its mask is all true. */
  lemma WhereAll(m: seq<bool>)
    requires forall i :: 0 <= i < |m| ==> m[i]
    ensures Where(m) == Identity(|m|)
  {
    var w := Where(m);
    forall x
      ensures x in w <==> x in Identity(|m|)
    {
      if x in w {
        var k :| 0 <= k < |w| && w[k] == x;
        assert x < |m|;
        assert Identity(|m|)[x] == x;
      }
      if x in Identity(|m|) {
        var k :| 0 <= k < |m| && Identity(|m|)[k] == x;
        assert m[x];
      }
    }
    IncreasingUnique(w, Identity(|m|), |m|);
  }

  lemma {:induction false} CountNot(m: seq<bool>)
    ensures CountTrue(Not(m)) == |m| - CountTrue(m)
  {
    if |m| > 0 {
      var n := |m| - 1;
      CountNot(m[..n]);
      assert Not(m)[..n] == Not(m[..n]);
      CountLast(Not(m));
      CountLast(m);
    }
  }

  /** Two masks never true at the same position count at most their length
      together, and strictly less when position `i` (if `i >= 0`) is false
      in both. */
  lemma {:induction false} CountDisjoint(a: seq<bool>, b: seq<bool>, i: int)
    requires |a| == |b|
    requires forall k :: 0 <= k < |a| ==> !(a[k] && b[k])
    requires -1 <= i < |a| && (i >= 0 ==> !a[i] && !b[i])
    ensures CountTrue(a) + CountTrue(b) + (if i >= 0 then 1 else 0) <= |a|
  {
    if |a| > 0 {
      var n := |a| - 1;
      CountDisjoint(a[..n], b[..n], if i == n then -1 else i);
      CountLast(a);
      CountLast(b);
    }
  }

  /** No element occurs twice. */
  ghost predicate Distinct<T>(s: seq<T>) {
    forall a, b :: 0 <= a < b < |s| ==> s[a] != s[b]
  }

  /** In a list without repetitions, equal elements sit at the same position. */
  lemma DistinctIndex<T>(s: seq<T>, a: nat, b: nat)
    requires Distinct(s) && a < |s| && b < |s|
    ensures s[a] == s[b] ==> a == b
  {
  }

  /** In a list without repetitions, an element is picked exactly when its
      position is. */
  lemma PickMember<T>(s: seq<T>, idx: seq<nat>, j: nat)
    requires Distinct(s)
    requires forall k :: 0 <= k < |idx| ==> idx[k] < |s|
    requires j < |s|
    ensures s[j] in Pick(s, idx) <==> j in idx
  {
    if s[j] in Pick(s, idx) {
      var k :| 0 <= k < |idx| && Pick(s, idx)[k] == s[j];
      assert s[idx[k]] == s[j];
      assert idx[k] == j;
    }
    if j in idx {
      var k :| 0 <= k < |idx| && idx[k] == j;
      assert Pick(s, idx)[k] == s[j];
    }
  }

  /** Picking increasing positions keeps a list free of repetitions. */
  lemma PickDistinct<T>(s: seq<T>, idx: seq<nat>)
    requires Distinct(s)
    requires IncreasingBelow(idx, |s|)
    ensures Distinct(Pick(s, idx))
  {
  }

  /** A mask with no `true` entry is all false. */
  lemma CountZero(m: seq<bool>)
    requires CountTrue(m) == 0
    ensures forall i :: 0 <= i < |m| ==> !m[i]
  {
    var w := Where(m);
    assert |w| == 0;
  }

  /** An increasing list of positions below `bound` has at most `bound`
      entries. */
  lemma {:induction false} IncreasingLength(s: seq<nat>, bound: nat)
    requires IncreasingBelow(s, bound)
    ensures |s| <= bound
    decreases |s|
  {
    if |s| > 0 {
      var last := s[|s| - 1];
      assert IncreasingBelow(s[..|s| - 1], last);
      IncreasingLength(s[..|s| - 1], last);
    }
  }
}
