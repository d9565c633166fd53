/** Alignment opcodes between two sequences of comparison keys, in the shape
    `difflib.SequenceMatcher.get_opcodes()` returns them. The matcher itself is
    not modelled: any opcode list that is well formed is accepted. */
module Opcodes {

  datatype Tag = Equal | Insert | Delete | Replace

  /** `(tag, i1, i2, j1, j2)`: old range `[i1, i2)`, new range `[j1, j2)`. */
  datatype Opcode = Opcode(tag: Tag, i1: nat, i2: nat, j1: nat, j2: nat)

  /** The ranges of `ops` tile `[i, m)` on the old side and `[j, n)` on the new
      side, in order, without gaps or overlaps. */
  predicate Partition(ops: seq<Opcode>, i: nat, j: nat, m: nat, n: nat)
    decreases |ops|
  {
    if ops == [] then i == m && j == n
    else
      && ops[0].i1 == i && i <= ops[0].i2
      && ops[0].j1 == j && j <= ops[0].j2
      && Partition(ops[1..], ops[0].i2, ops[0].j2, m, n)
  }

  /** What each tag promises about its ranges. */
  predicate KindOk(op: Opcode, a: seq<string>, b: seq<string>) {
    && op.i1 <= op.i2 <= |a| && op.j1 <= op.j2 <= |b|
    && match op.tag
       case Equal => op.i2 - op.i1 == op.j2 - op.j1 && a[op.i1..op.i2] == b[op.j1..op.j2]
       case Insert => op.i1 == op.i2
       case Delete => op.j1 == op.j2
       case Replace => true
  }

  /** A well-formed alignment of `a` with `b`. */
  predicate WellFormed(ops: seq<Opcode>, a: seq<string>, b: seq<string>) {
    && Partition(ops, 0, 0, |a|, |b|)
    && AllKindOk(ops, a, b)
  }

  /** Every range of a partition lies inside the partitioned interval. */
  lemma {:induction false} PartitionBounds(ops: seq<Opcode>, i: nat, j: nat, m: nat, n: nat)
    requires Partition(ops, i, j, m, n)
    ensures i <= m && j <= n
    ensures forall k :: 0 <= k < |ops| ==> i <= ops[k].i1 <= ops[k].i2 <= m && j <= ops[k].j1 <= ops[k].j2 <= n
    decreases |ops|
  {
    if ops != [] {
      PartitionBounds(ops[1..], ops[0].i2, ops[0].j2, m, n);
      forall k | 1 <= k < |ops| ensures i <= ops[k].i1 <= ops[k].i2 <= m && j <= ops[k].j1 <= ops[k].j2 <= n {
        assert ops[k] == ops[1..][k - 1];
      }
    }
  }

  /** Partitions of adjacent intervals concatenate. */
  lemma {:induction false} PartitionAppend(x: seq<Opcode>, y: seq<Opcode>, i: nat, j: nat, m: nat, n: nat, p: nat, q: nat)
    requires Partition(x, i, j, m, n) && Partition(y, m, n, p, q)
    ensures Partition(x + y, i, j, p, q)
    decreases |x|
  {
    if x == [] {
      assert x + y == y;
    } else {
      PartitionAppend(x[1..], y, x[0].i2, x[0].j2, m, n, p, q);
      assert (x + y)[1..] == x[1..] + y;
    }
  }

  /** An alignment made only of `equal` regions aligns identical sequences. */
  lemma {:induction false} AllEqualMeansSame(ops: seq<Opcode>, a: seq<string>, b: seq<string>, i: nat, j: nat)
    requires Partition(ops, i, j, |a|, |b|)
    requires forall k :: 0 <= k < |ops| ==> ops[k].tag == Equal && KindOk(ops[k], a, b)
    ensures i <= |a| && j <= |b| && a[i..] == b[j..]
    decreases |ops|
  {
    if ops != [] {
      var op := ops[0];
      AllEqualMeansSame(ops[1..], a, b, op.i2, op.j2);
      assert KindOk(op, a, b);
      assert a[i..] == a[i..op.i2] + a[op.i2..];
      assert b[j..] == b[j..op.j2] + b[op.j2..];
    }
  }

  // ---------------------------------------------------------------------------
  // A reference matcher: keep the common prefix and suffix as `equal` regions
  // and classify what lies between. It is not difflib's algorithm and not
  // minimal; it shows that well-formed alignments exist for all inputs.

  /** Length of the longest common prefix. */
  function CommonPrefix(a: seq<string>, b: seq<string>): (p: nat)
    ensures p <= |a| && p <= |b| && a[..p] == b[..p]
    ensures p == |a| || p == |b| || a[p] != b[p]
  {
    if a == [] || b == [] || a[0] != b[0] then 0
    else
      var p := 1 + CommonPrefix(a[1..], b[1..]);
      assert a[..p] == [a[0]] + a[1..][..p - 1];
      assert b[..p] == [b[0]] + b[1..][..p - 1];
      p
  }

  /** The `k`-th elements from the end of `a` and `b` exist and are equal. */
  predicate EndsMatch(a: seq<string>, b: seq<string>, k: nat) {
    k < |a| && k < |b| && a[|a| - 1 - k] == b[|b| - 1 - k]
  }

  /** Length of the longest common suffix of `a` and `b` that keeps clear of
      their first `p` elements. */
  function SuffixAbove(a: seq<string>, b: seq<string>, p: nat): (s: nat)
    requires p <= |a| && p <= |b|
    ensures p + s <= |a| && p + s <= |b|
    ensures forall k :: 0 <= k < s ==> EndsMatch(a, b, k)
    decreases |a|
  {
    if |a| == p || |b| == p || a[|a| - 1] != b[|b| - 1] then 0
    else
      var r := SuffixAbove(a[..|a| - 1], b[..|b| - 1], p);
      EndsShift(a, b, a[..|a| - 1], b[..|b| - 1], r);
      1 + r
  }

  /** Equal last elements extend a common suffix of the fronts by one. */
  lemma EndsShift(a: seq<string>, b: seq<string>, a0: seq<string>, b0: seq<string>, r: nat)
    requires 0 < |a| && 0 < |b| && a[|a| - 1] == b[|b| - 1] && r < |a| && r < |b|
    requires a0 == a[..|a| - 1] && b0 == b[..|b| - 1]
    requires forall k :: 0 <= k < r ==> EndsMatch(a0, b0, k)
    ensures forall k :: 0 <= k < r + 1 ==> EndsMatch(a, b, k)
  {
    forall k | 0 <= k < r + 1 ensures EndsMatch(a, b, k) {
      if k > 0 {
        assert EndsMatch(a0, b0, k - 1);
      }
    }
  }

  /** Element-wise equal ends make equal suffix slices. */
  lemma SuffixSlices(a: seq<string>, b: seq<string>, s: nat)
    requires s <= |a| && s <= |b|
    requires forall k :: 0 <= k < s ==> EndsMatch(a, b, k)
    ensures a[|a| - s..] == b[|b| - s..]
  {
    var x, y := a[|a| - s..], b[|b| - s..];
    forall i | 0 <= i < s ensures x[i] == y[i] {
      assert EndsMatch(a, b, s - 1 - i);
    }
  }

  /** The opcode covering the differing middle, if it is not empty. */
  function Middle(i1: nat, i2: nat, j1: nat, j2: nat): seq<Opcode>
  {
    if i1 == i2 && j1 == j2 then []
    else if i1 == i2 then [Opcode(Insert, i1, i2, j1, j2)]
    else if j1 == j2 then [Opcode(Delete, i1, i2, j1, j2)]
    else [Opcode(Replace, i1, i2, j1, j2)]
  }

  /** An `equal` region, if it is not empty. */
  function Same(i1: nat, i2: nat, j1: nat, j2: nat): seq<Opcode>
  {
    if i1 == i2 then [] else [Opcode(Equal, i1, i2, j1, j2)]
  }

  /** Prefix `[0, p)` and suffix of length `s` equal, the rest classified. */
  function Layout(a: seq<string>, b: seq<string>, p: nat, s: nat): seq<Opcode>
    requires p + s <= |a| && p + s <= |b|
  {
    Same(0, p, 0, p) + Middle(p, |a| - s, p, |b| - s) + Same(|a| - s, |a|, |b| - s, |b|)
  }

  /** Length of the common suffix of what follows the common prefix. */
  function SuffixLen(a: seq<string>, b: seq<string>): (s: nat)
    ensures CommonPrefix(a, b) + s <= |a| && CommonPrefix(a, b) + s <= |b|
    ensures a[|a| - s..] == b[|b| - s..]
  {
    var s := SuffixAbove(a, b, CommonPrefix(a, b));
    SuffixSlices(a, b, s);
    s
  }

  function PrefixSuffixMatcher(a: seq<string>, b: seq<string>): (r: seq<Opcode>)
    ensures WellFormed(r, a, b)
  {
    MatcherWellFormed(a, b);
    Layout(a, b, CommonPrefix(a, b), SuffixLen(a, b))
  }

  lemma MatcherWellFormed(a: seq<string>, b: seq<string>)
    ensures WellFormed(Layout(a, b, CommonPrefix(a, b), SuffixLen(a, b)), a, b)
  {
    var p, s := CommonPrefix(a, b), SuffixLen(a, b);
    var r := Layout(a, b, p, s);
    assert WellFormed(r, a, b) by {
      LayoutWellFormed(a, b, p, s);
    }
  }

  lemma LayoutWellFormed(a: seq<string>, b: seq<string>, p: nat, s: nat)
    requires p <= |a| && p <= |b| && a[..p] == b[..p]
    requires s <= |a| - p && s <= |b| - p && a[|a| - s..] == b[|b| - s..]
    ensures WellFormed(Layout(a, b, p, s), a, b)
  {
    LayoutPartition(a, b, p, s);
    LayoutKinds(a, b, p, s);
  }

  /** The three pieces of a layout tile both sequences in order. */
  lemma LayoutPartition(a: seq<string>, b: seq<string>, p: nat, s: nat)
    requires p + s <= |a| && p + s <= |b|
    ensures Partition(Layout(a, b, p, s), 0, 0, |a|, |b|)
  {
    var ia, jb := |a| - s, |b| - s;
    var x, y, z := Same(0, p, 0, p), Middle(p, ia, p, jb), Same(ia, |a|, jb, |b|);
    SamePartition(0, p, 0, p);
    MiddlePartition(p, ia, p, jb);
    SamePartition(ia, |a|, jb, |b|);
    PartitionAppend(x, y, 0, 0, p, p, ia, jb);
    PartitionAppend(x + y, z, 0, 0, ia, jb, |a|, |b|);
  }

  lemma SamePartition(i1: nat, i2: nat, j1: nat, j2: nat)
    requires i1 <= i2 && j1 <= j2 && i2 - i1 == j2 - j1
    ensures Partition(Same(i1, i2, j1, j2), i1, j1, i2, j2)
  {
    if i1 != i2 {
      assert Same(i1, i2, j1, j2)[1..] == [];
    }
  }

  lemma MiddlePartition(i1: nat, i2: nat, j1: nat, j2: nat)
    requires i1 <= i2 && j1 <= j2
    ensures Partition(Middle(i1, i2, j1, j2), i1, j1, i2, j2)
  {
    var m := Middle(i1, i2, j1, j2);
    if m != [] {
      assert m[1..] == [];
    }
  }

  /** Each piece of a layout is of the right kind. */
  lemma LayoutKinds(a: seq<string>, b: seq<string>, p: nat, s: nat)
    requires p <= |a| && p <= |b| && a[..p] == b[..p]
    requires s <= |a| - p && s <= |b| - p && a[|a| - s..] == b[|b| - s..]
    ensures AllKindOk(Layout(a, b, p, s), a, b)
  {
    var ia, jb := |a| - s, |b| - s;
    var x, y, z := Same(0, p, 0, p), Middle(p, ia, p, jb), Same(ia, |a|, jb, |b|);
    assert a[0..p] == a[..p] && b[0..p] == b[..p];
    assert a[ia..|a|] == a[|a| - s..] && b[jb..|b|] == b[|b| - s..];
    SameKinds(a, b, 0, p, 0, p);
    SameKinds(a, b, ia, |a|, jb, |b|);
    assert AllKindOk(y, a, b);
    KindsAppend(x, y, a, b);
    KindsAppend(x + y, z, a, b);
  }

  predicate AllKindOk(ops: seq<Opcode>, a: seq<string>, b: seq<string>) {
    forall k :: 0 <= k < |ops| ==> KindOk(ops[k], a, b)
  }

  lemma SameKinds(a: seq<string>, b: seq<string>, i1: nat, i2: nat, j1: nat, j2: nat)
    requires i1 <= i2 <= |a| && j1 <= j2 <= |b| && i2 - i1 == j2 - j1 && a[i1..i2] == b[j1..j2]
    ensures AllKindOk(Same(i1, i2, j1, j2), a, b)
  {
  }

  lemma KindsAppend(x: seq<Opcode>, y: seq<Opcode>, a: seq<string>, b: seq<string>)
    requires AllKindOk(x, a, b) && AllKindOk(y, a, b)
    ensures AllKindOk(x + y, a, b)
  {
    forall k | 0 <= k < |x + y| ensures KindOk((x + y)[k], a, b) {
      if k >= |x| {
        assert (x + y)[k] == y[k - |x|];
      }
    }
  }

  /** Aligning a non-empty sequence with itself yields one `equal` region
      spanning all of it. */
  lemma MatcherIdentity(a: seq<string>)
    requires a != []
    ensures PrefixSuffixMatcher(a, a) == [Opcode(Equal, 0, |a|, 0, |a|)]
  {
    var p := CommonPrefix(a, a);
    assert p == |a|;
    assert a[p..] == [];
  }
}
