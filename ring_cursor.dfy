/**
  Arithmetic of the rotating slot cursor that both queues keep over their
  ring: the cursor moves one slot at a time and wraps from the last slot
  back to slot 0.
 */
module RingCursor {

  /** The slot after `i` in a ring of `n` slots, computed as the queues do:
      `i + 1`, or 0 when that reaches the ring size. */
  function Succ(i: nat, n: nat): (j: nat)
    requires i < n
    ensures j < n && (j == 0 <==> i + 1 == n) && (j != 0 ==> j == i + 1)
  {
    if i + 1 >= n then 0 else i + 1
  }

  /** The cursor advance is the step `(i + 1) mod n`. */
  lemma SuccIsModulo(i: nat, n: nat)
    requires i < n
    ensures Succ(i, n) == (i + 1) % n
  {
    if i + 1 < n {
      assert (i + 1) / n == 0;
    } else {
      assert i + 1 == n;
      assert (i + 1) / n == 1;
    }
  }

  /** The slot reached from `h` after `d` cursor advances. */
  function ProbeAt(h: nat, d: nat, n: nat): (j: nat)
    requires h < n
    ensures j < n
  {
    if d == 0 then h else Succ(ProbeAt(h, d - 1, n), n)
  }

  /** How many cursor advances lead from slot `a` to slot `b`. */
  function Dist(a: nat, b: nat, n: nat): (d: nat)
    requires a < n && b < n
    ensures d < n
    ensures d == 0 <==> a == b
  {
    if a <= b then b - a else b + n - a
  }

  /** Before the wrap point the cursor just counts up. */
  lemma {:induction false} ProbeLinear(h: nat, d: nat, n: nat)
    requires h + d < n
    ensures ProbeAt(h, d, n) == h + d
  {
    if d > 0 {
      ProbeLinear(h, d - 1, n);
    }
  }

  /** Advancing `a + b` times is advancing `a` times and then `b` times. */
  lemma {:induction false} ProbeShift(h: nat, a: nat, b: nat, n: nat)
    requires h < n
    ensures ProbeAt(h, a + b, n) == ProbeAt(ProbeAt(h, a, n), b, n)
  {
    if b > 0 {
      ProbeShift(h, a, b - 1, n);
    }
  }

  /** After `n - h` advances from `h` the cursor has wrapped to slot 0. */
  lemma WrapToZero(h: nat, n: nat)
    requires h < n
    ensures ProbeAt(h, n - h, n) == 0
  {
    ProbeLinear(h, n - 1 - h, n);
  }

  /** Every slot is reached from every start within fewer than `n`
      advances, namely after `Dist(a, b, n)` of them. */
  lemma ProbeReaches(a: nat, b: nat, n: nat)
    requires a < n && b < n
    ensures ProbeAt(a, Dist(a, b, n), n) == b
  {
    if a <= b {
      ProbeLinear(a, b - a, n);
    } else {
      WrapToZero(a, n);
      ProbeShift(a, n - a, b, n);
      ProbeLinear(0, b, n);
    }
  }

  /** Conversely, `Dist` counts the advances: the first `n` probes from
      `a` visit pairwise different slots. */
  lemma DistOfProbe(a: nat, d: nat, n: nat)
    requires a < n && d < n
    ensures Dist(a, ProbeAt(a, d, n), n) == d
  {
    if a + d < n {
      ProbeLinear(a, d, n);
    } else {
      WrapToZero(a, n);
      ProbeShift(a, n - a, a + d - n, n);
      ProbeLinear(0, a + d - n, n);
    }
  }

  /** One advance of the end point adds one to the distance, unless the
      start is the very slot the cursor moves onto. */
  lemma DistSucc(c: nat, h: nat, n: nat)
    requires c < n && h < n && c != Succ(h, n)
    ensures Dist(c, Succ(h, n), n) == Dist(c, h, n) + 1
  {
  }
}
