/** The Fibonacci bound on AVL height, which is what makes the `uint8` and `int8` height fields
    and the `uint8` count of pending subtrees safe. */
module AvlHeight {
  import opened AvlTree

  const UINT32_LIMIT: nat := 0x1_0000_0000

  const UINT64_LIMIT: nat := 0x1_0000_0000_0000_0000
  const INT64_LIMIT: nat := 0x8000_0000_0000_0000

  function Fib(n: nat): nat {
    if n < 2 then n else Fib(n - 2) + Fib(n - 1)
  }

  lemma FibJump(i: nat)
    ensures Fib(i + 5) == 3 * Fib(i) + 5 * Fib(i + 1)
    ensures Fib(i + 8) == 13 * Fib(i) + 21 * Fib(i + 1)
    ensures Fib(i + 9) == 21 * Fib(i) + 34 * Fib(i + 1)
  {
    assert Fib(i + 4) == 2 * Fib(i) + 3 * Fib(i + 1);
    assert Fib(i + 6) == 5 * Fib(i) + 8 * Fib(i + 1);
    assert Fib(i + 7) == 8 * Fib(i) + 13 * Fib(i + 1);
  }

  lemma {:induction false} FibMonotone(m: nat, n: nat)
    requires m <= n
    ensures Fib(m) <= Fib(n)
    decreases n
  {
    if m < n { FibMonotone(m, n - 1); }
  }

  lemma FibLeap(i: nat)
    ensures Fib(i + 24) == 28657 * Fib(i) + 46368 * Fib(i + 1)
    ensures Fib(i + 25) == 46368 * Fib(i) + 75025 * Fib(i + 1)
  {
    hide Fib;
    FibJump(i);
    FibJump(i + 8);
    FibJump(i + 16);
  }

  // In the next two lemmas the index is a variable, so that no Fib(...) is evaluated literally.

  lemma FibFrom48(n: nat)
    requires 48 <= n
    ensures Fib(n) >= 4807526976
  {
    assert Fib(0) == 0 && Fib(1) == 1;
    hide Fib;
    var i: nat :| i == 0;
    FibLeap(i);
    FibLeap(i + 24);
    FibMonotone(i + 48, n);
  }

  lemma FibFrom93(n: nat)
    requires 93 <= n
    ensures Fib(n) >= 12200160415121876738
  {
    assert Fib(0) == 0 && Fib(1) == 1;
    hide Fib;
    var i: nat :| i == 0;
    FibLeap(i);
    FibLeap(i + 24);
    FibLeap(i + 48);
    FibJump(i + 72);
    FibJump(i + 80);
    FibJump(i + 88);
    FibMonotone(i + 93, n);
  }

  /** A balanced tree of height h has at least Fib(h + 2) leaves. */
  lemma {:induction false} LeavesAtLeastFib(t: Tree)
    requires Measured(t) && Balanced(t)
    ensures Size(t) >= Fib(Height(t) + 2)
  {
    if t.Branch? {
      LeavesAtLeastFib(t.left);
      LeavesAtLeastFib(t.right);
      FibMonotone(t.height, Height(t.left) + 2);
      FibMonotone(t.height, Height(t.right) + 2);
    }
  }

  /** Height is at most 45 for a tree a snapshot can hold, and at most 90 for any `int64` size. */
  lemma HeightBound(t: Tree)
    requires Measured(t) && Balanced(t)
    ensures Size(t) < UINT32_LIMIT ==> Height(t) <= 45
    ensures Size(t) < INT64_LIMIT ==> Height(t) <= 90
  {
    hide Fib;
    LeavesAtLeastFib(t);
    if Height(t) > 45 { FibFrom48(Height(t) + 2); }
    if Height(t) > 90 { FibFrom93(Height(t) + 2); }
  }

  lemma {:induction false} SizeCountsLeaves(t: Tree)
    requires Measured(t)
    ensures Size(t) >= 1 && (t.Branch? ==> Size(t) >= 2 && Height(t) >= 1)
  {
    if t.Branch? { SizeCountsLeaves(t.left); SizeCountsLeaves(t.right); }
  }
}
