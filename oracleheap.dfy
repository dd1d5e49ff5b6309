/** The variable-activity heap of the oracle (`var_act_heap`, oracle/oracle.cpp): an implicit
    binary tree over `2n` slots in which node `i` (1 <= i < n) has children `2i` and `2i+1`, and
    slots `n .. 2n-1` are leaves, the leaf `n + v` holding the activity of variable `v`. A leaf is
    negated while its variable is assigned, so a positive leaf marks a decision candidate. Every
    internal node is at least the larger of its children, and equal to it whenever it is
    positive: the exact "maximum of the children" invariant is restored along every repaired
    path, while a bump of a negative leaf (which repairs nothing) can leave a non-positive
    ancestor above its children. */
module OracleHeap {

  function Max(a: int, b: int): (r: int)
    ensures r >= a && r >= b && (r == a || r == b)
  { if a >= b then a else b }

  /** Node `i` respects the invariant. */
  ghost predicate NodeOk(h: seq<int>, i: nat)
    requires 2 * i + 1 < |h|
  {
    var m := Max(h[2 * i], h[2 * i + 1]);
    h[i] >= m && (h[i] > 0 ==> h[i] == m)
  }

  /** Every internal node of the tree over `2n` slots respects the invariant. */
  ghost predicate HeapOk(h: seq<int>, n: nat) {
    && n >= 1 && |h| == 2 * n
    && forall i :: 1 <= i < n ==> NodeOk(h, i)
  }

  /** `a` lies on the path from node `i` up to the root (inclusive). */
  ghost predicate IsAncestor(a: nat, i: nat)
    decreases i
  {
    a >= 1 && i >= 1 && (a == i || IsAncestor(a, i / 2))
  }

  /** Every internal node off the path from `i` to the root respects the invariant: the state of a
      repair walk that has still to recompute `i` and its ancestors (`i == 0`: nothing left). */
  ghost predicate FixedOffPath(h: seq<int>, n: nat, i: nat) {
    && n >= 1 && |h| == 2 * n
    && forall k :: 1 <= k < n && !IsAncestor(k, i) ==> NodeOk(h, k)
  }

  lemma NoAncestorOfZero(k: nat)
    ensures !IsAncestor(k, 0)
  {
  }

  lemma FixedOffPathIsHeap(h: seq<int>, n: nat)
    requires FixedOffPath(h, n, 0)
    ensures HeapOk(h, n)
  {
  }

  /** Recomputing node `i` as the maximum of its children moves the walk to `i`'s parent. */
  lemma RepairStep(h: seq<int>, n: nat, i: nat)
    requires FixedOffPath(h, n, i) && 1 <= i < n
    ensures FixedOffPath(h[i := Max(h[2 * i], h[2 * i + 1])], n, i / 2)
  {
    var h' := h[i := Max(h[2 * i], h[2 * i + 1])];
    forall k | 1 <= k < n && !IsAncestor(k, i / 2)
      ensures NodeOk(h', k)
    {
      if k == i {
      } else {
        assert !IsAncestor(k, i);
        assert NodeOk(h, k);
        assert 2 * k != i && 2 * k + 1 != i;
      }
    }
  }

  /** Changing the leaf `j` of a valid heap leaves only the path above `j` to repair. */
  lemma LeafChange(h: seq<int>, n: nat, j: nat, x: int)
    requires HeapOk(h, n) && n <= j < 2 * n
    ensures FixedOffPath(h[j := x], n, j / 2)
  {
    var h' := h[j := x];
    forall k | 1 <= k < n && !IsAncestor(k, j / 2)
      ensures NodeOk(h', k)
    {
      assert NodeOk(h, k);
    }
  }

  /** Lowering a negative leaf keeps the invariant without any repair. */
  lemma LowerNegativeLeaf(h: seq<int>, n: nat, j: nat, x: int)
    requires HeapOk(h, n) && n <= j < 2 * n && x <= h[j] && h[j] < 0
    ensures HeapOk(h[j := x], n)
  {
    var h' := h[j := x];
    forall k | 1 <= k < n
      ensures NodeOk(h', k)
    {
      assert NodeOk(h, k);
    }
  }

  /** No slot of a valid heap exceeds the root. */
  lemma {:induction false} BelowRoot(h: seq<int>, n: nat, j: nat)
    requires HeapOk(h, n) && 1 <= j < 2 * n
    ensures h[j] <= h[1]
    decreases j
  {
    if j > 1 {
      assert NodeOk(h, j / 2);
      BelowRoot(h, n, j / 2);
    }
  }

  /** Below a positive node of a valid heap, one child carries the node's value. */
  lemma DescendStep(h: seq<int>, n: nat, i: nat)
    requires HeapOk(h, n) && 1 <= i < n && h[i] > 0
    ensures h[2 * i] == h[i] || h[2 * i + 1] == h[i]
  {
    assert NodeOk(h, i);
  }

  /** The state of the bottom-up build: every internal node above `i` respects the invariant. */
  ghost predicate BuiltAbove(h: seq<int>, n: nat, i: nat) {
    && n >= 1 && |h| == 2 * n
    && forall k :: i < k < n ==> NodeOk(h, k)
  }

  lemma BuildStep(h: seq<int>, n: nat, i: nat)
    requires BuiltAbove(h, n, i) && 1 <= i < n
    ensures BuiltAbove(h[i := Max(h[2 * i], h[2 * i + 1])], n, i - 1)
  {
    var h' := h[i := Max(h[2 * i], h[2 * i + 1])];
    forall k | i - 1 < k < n
      ensures NodeOk(h', k)
    {
      if k != i {
        assert NodeOk(h, k);
      }
    }
  }
}
