/**
  The slot-reuse queue (`queue_t<T, Storage>` of lockfree_queue_v2.hpp) as
  a class run by a single thread. The ring is an array of slots updated in
  place; `head`, `pushEnd` and `popEnd` are the atomic cursors, and every
  compare-and-swap is a compare-and-set method on them or on a slot's
  flags and link.

  Each method is proved against the step functions of `ReuseSpec`, and
  through the refinement lemmas there against a FIFO queue on `Contents()`.
 */
module ReuseQueue {
  import opened RingCursor
  import opened ReuseSpec

  class Queue<T(0)> {
    const ringsz: nat
    const slots: array<Slot<T>>
    var head: int
    var pushEnd: nat
    var popEnd: nat
    /** The slots of the FIFO chain, from the one `popEnd` names to the one
        `pushEnd` names. */
    ghost var chain: seq<nat>

    /** The queue state as a value. */
    ghost function Model(): Ring<T>
      reads this, slots
    {
      Ring(slots[..], head, pushEnd, popEnd)
    }

    ghost predicate Valid()
      reads this, slots
    {
      slots.Length == ringsz && Inv(Model(), chain)
    }

    /** The queued elements, oldest first. */
    ghost function Contents(): seq<T>
      reads this, slots
      requires Valid()
    {
      Elements(Model(), chain)
    }

    /** Builds a ring of `max(sz, 8)` fresh slots: free, consumed and
        unlinked, with all cursors 0 and no queued element. */
    constructor (sz: nat := DefaultCapacity)
      ensures Valid() && fresh(slots)
      ensures ringsz == Capacity(sz) && Initial(Model(), ringsz)
      ensures chain == [] && Contents() == []
    {
      var n := Capacity(sz);
      var a := new Slot<T>[n];
      for i := 0 to n
        invariant forall j :: 0 <= j < i ==> a[j].next == 0 && !a[j].busy && a[j].consumed
      {
        a[i] := FreshSlot(a[i].payload);
      }
      ringsz, slots := n, a;
      head, pushEnd, popEnd := 0, 0, 0;
      chain := [];
    }

    /** Enqueues `x`: claims the first free slot in probe order from the
        cursor and appends it to the chain. The source loops forever when
        every slot is busy, so a free slot is required. */
    method Push(x: T) returns (ok: bool)
      requires Valid() && HasFree(Model())
      modifies this, slots
      ensures Valid() && ok
      ensures Model() == PushStep(old(Model()), x)
      ensures chain == old(chain) + [ClaimIndex(old(Model()))]
      ensures Contents() == old(Contents()) + [x]
      ensures pushEnd != 0 && popEnd != 0
    {
      PushRefines(Model(), chain, x);
      TailOpen(Model(), chain);
      Place(x);
      return true;
    }

    /** The body of push: probe for a free slot, then fill and append it. */
    method Place(x: T)
      requires slots.Length == ringsz && 0 <= head < ringsz && pushEnd <= ringsz && HasFree(Model())
      requires pushEnd != 0 ==> slots[pushEnd - 1].busy && slots[pushEnd - 1].next == 0
      modifies this`head, this`pushEnd, this`popEnd, this`chain, slots
      ensures Model() == PushStep(old(Model()), x)
      ensures chain == old(chain) + [ClaimIndex(old(Model()))]
    {
      ghost var r0 := Model();
      var k := Probe();
      FilledAfterMark(r0.slots, k, x, pushEnd);
      Append(k, x);
    }

    /** The probe loop of push: each attempt moves the cursor one slot on
        from where it stood and tries to mark the slot it left busy. The
        first attempt expects the cursor at 0; when it is elsewhere the
        attempt fails and picks up its position. Returns the slot claimed,
        the first free one in probe order. */
    method Probe() returns (k: nat)
      requires slots.Length == ringsz && 0 <= head < ringsz && HasFree(Model())
      modifies this`head, slots
      ensures k == ClaimIndex(old(Model())) && head == Succ(k, ringsz)
      ensures slots[..] == old(slots[..])[k := old(slots[k]).(busy := true)]
    {
      ghost var r0 := Model();
      PushProbes(r0);
      ghost var d0 := FirstFreeProbe(r0.slots, r0.head, 0);
      ghost var probes := 0;
      var headExpected: int := 0;
      while true
        invariant slots[..] == r0.slots
        invariant 0 <= head < ringsz && 0 <= headExpected < ringsz
        invariant probes <= d0 && head == ProbeAt(r0.head, probes, ringsz)
        invariant headExpected != head ==> probes == 0
        decreases 2 * (d0 - probes) + (if headExpected == head then 0 else 1)
      {
        var headDesired := headExpected + 1;
        if headDesired >= ringsz {
          headDesired := 0;
        }
        var moved;
        moved, headExpected := CasHead(headExpected, headDesired);
        if moved {
          var claimed, _ := CasBusy(headExpected, false, true);
          if claimed {
            // probe number `probes` is the first that finds a free slot
            assert probes == d0;
            return headExpected;
          }
          headExpected := headDesired;
          probes := probes + 1;
        }
      }
    }

    /** Fills slot `k`, which push has marked busy, with `x`, `next` 0 and
        not consumed, and appends it: as the whole chain when `pushEnd` is
        0, otherwise after the tail, whose link is still 0, so the first
        link attempt succeeds. */
    method Append(k: nat, x: T)
      requires slots.Length == ringsz && k < ringsz && slots[k].busy && pushEnd <= ringsz
      requires pushEnd != 0 ==> pushEnd - 1 != k && slots[pushEnd - 1].next == 0
      modifies this`pushEnd, this`popEnd, this`chain, slots
      ensures slots[..] == Filled(old(slots[..]), k, x, old(pushEnd))
      ensures pushEnd == k + 1 && popEnd == (if old(pushEnd) == 0 then k + 1 else old(popEnd))
      ensures chain == old(chain) + [k]
    {
      slots[k] := slots[k].(payload := x);
      slots[k] := slots[k].(next := 0);
      slots[k] := slots[k].(consumed := false);
      var desired := k + 1;
      var expected := 0;
      chain := chain + [k];
      var first;
      first, expected := CasPushEnd(expected, desired);
      if first {
        popEnd := desired;
        return;
      }
      var t := expected - 1;
      expected := 0;
      var linked, _ := CasNext(t, expected, desired);
      assert linked;
      pushEnd := desired;
    }

    /** Dequeues into `output`. Fails, leaving everything and `output` as
        they were, when there is no chain or its head is a drained slot
        without successor. A drained head that has a successor is released
        and the loop goes on with the successor. */
    method Pop(output: T) returns (ok: bool, output': T)
      requires Valid()
      modifies this, slots
      ensures Valid()
      ensures var p := PopStep(old(Model()), old(chain));
        && Model() == p.ring && chain == p.chain
        && (ok <==> p.item.Some?)
        && output' == (if ok then p.item.value else output)
      ensures ok <==> old(Contents()) != []
      ensures ok ==> output' == old(Contents())[0] && Contents() == old(Contents())[1..]
      ensures !ok ==> Model() == old(Model()) && chain == old(chain)
      ensures old(popEnd) != 0 ==> popEnd != 0
    {
      PopRefines(Model(), chain);
      PopCases(Model(), chain);
      ok, output' := Poll(output, PopStep(Model(), chain));
    }

    /** The loop of pop, run towards the outcome `p` that `PopReady`
        describes for the current state. */
    method Poll(output: T, ghost p: Popped<T>) returns (ok: bool, output': T)
      requires slots.Length == ringsz && PopReady(Model(), chain, p)
      modifies slots, this`popEnd, this`chain
      ensures Model() == p.ring && chain == p.chain
      ensures ok == p.item.Some? && output' == (if ok then p.item.value else output)
    {
      ghost var r0, c0 := Model(), chain;
      ghost var skip := r0.popEnd != 0 && r0.slots[r0.popEnd - 1].consumed && r0.slots[r0.popEnd - 1].next != 0;
      ghost var skipped := false;
      var done;
      output' := output;
      var expected := popEnd;
      while true
        invariant slots.Length == ringsz && expected <= ringsz && output' == output
        invariant !skipped ==> Model() == r0 && chain == c0 && expected == popEnd
        invariant skipped ==> skip && Model() == Consume(r0, r0.popEnd - 1) && chain == c0[1..]
        invariant skipped ==> expected == popEnd || expected == r0.popEnd
        decreases (if popEnd != 0 && slots[popEnd - 1].consumed then 2 else 0) + (if expected != popEnd then 1 else 0)
      {
        ghost var e := expected - 1;
        done, ok, expected, output' := Round(expected, output');
        if done {
          return;
        }
        if expected == e + 1 {
          skipped := true;
        }
      }
    }

    /** One turn of the pop loop, from `expected`, the value of `popEnd`
        last seen. It returns with `done` when there is nothing to take
        (`expected` is 0, or names a drained slot without successor) or
        when it delivered. A failed move of `popEnd` only picks up its
        current value. A successful one makes an attempt on the slot, which
        either delivers it or, when it was already drained, only frees it. */
    method Round(expected: nat, output: T) returns (done: bool, ok: bool, expected': nat, output': T)
      requires expected <= slots.Length
      requires var r := Model(); expected != 0 && expected == r.popEnd ==>
        r.slots[expected - 1].busy && (r.slots[expected - 1].next != 0 ==> chain != [])
      modifies slots, this`popEnd, this`chain
      ensures ok ==> done
      ensures var r, c := old(Model()), old(chain);
        && (expected == 0 ==> done && !ok && Model() == r && chain == c && output' == output)
        && (expected != 0 ==> var e := expected - 1; var s := r.slots[e];
          && (s.next == 0 && s.consumed ==> done && !ok && Model() == r && chain == c && output' == output)
          && (!(s.next == 0 && s.consumed) && expected != r.popEnd ==>
                !done && expected' == r.popEnd && Model() == r && chain == c && output' == output)
          && (!(s.next == 0 && s.consumed) && expected == r.popEnd ==>
                && done == !s.consumed && ok == done && expected' == expected
                && Model() == Consume(r, e)
                && chain == (if s.next == 0 then c else c[1..])
                && output' == (if done then s.payload else output)))
    {
      output' := output;
      expected' := expected;
      if expected' == 0 {
        return true, false, expected', output';
      }
      var orig := expected';
      var e := expected' - 1;
      var next := slots[e].next;
      var consumed := slots[e].consumed;
      if next == 0 && consumed {
        return true, false, expected', output';
      }
      var taken;
      taken, expected' := CasPopEnd(expected', next);
      if taken {
        var delivered;
        delivered, output' := Attempt(e, orig, next, output');
        expected' := orig;
        return delivered, delivered, expected', output';
      }
      return false, false, expected', output';
    }

    /** One attempt on slot `e`, after `popEnd` has moved from it (`orig`)
        to its successor `next`: mark it consumed and take its payload if
        it was not consumed yet; then either put `popEnd` back on it when it
        has no successor, or free it. Reports whether it delivered. */
    method Attempt(e: nat, orig: nat, next: nat, output: T) returns (delivered: bool, output': T)
      requires e < slots.Length && orig == e + 1 && slots[e].busy && slots[e].next == next && popEnd == next
      requires next != 0 ==> chain != []
      modifies slots, this`popEnd, this`chain
      ensures delivered == !old(slots[e].consumed)
      ensures output' == if delivered then old(slots[e].payload) else output
      ensures slots[..] == old(slots[..])[e := old(slots[e]).(consumed := true, busy := next == 0)]
      ensures popEnd == (if next == 0 then orig else next)
      ensures chain == if next == 0 then old(chain) else old(chain)[1..]
    {
      output' := output;
      var won, consumedExpected := CasConsumed(e, false, true);
      if won {
        output' := slots[e].payload;
      }
      if next == 0 {
        var expected := next;
        // putting `popEnd` back on the drained last slot succeeds
        var rr;
        rr, expected := CasPopEnd(expected, orig);
        assert rr;
      } else {
        // the slot is busy, so freeing it succeeds
        var rr, _ := CasBusy(e, true, false);
        assert rr;
        chain := chain[1..];
      }
      delivered := !consumedExpected;
    }

    /** `compare_exchange_weak` on the cursor, without spurious failure. */
    method CasHead(expected: int, desired: int) returns (success: bool, seen: int)
      modifies this`head
      ensures seen == old(head) && success == (seen == expected)
      ensures head == if success then desired else seen
    {
      seen := head;
      success := seen == expected;
      if success {
        head := desired;
      }
    }

    /** `compare_exchange_weak` on `pushEnd`, without spurious failure. */
    method CasPushEnd(expected: nat, desired: nat) returns (success: bool, seen: nat)
      modifies this`pushEnd
      ensures seen == old(pushEnd) && success == (seen == expected)
      ensures pushEnd == if success then desired else seen
    {
      seen := pushEnd;
      success := seen == expected;
      if success {
        pushEnd := desired;
      }
    }

    /** `compare_exchange_weak` without spurious failure (the move on) or
        `compare_exchange_strong` (the restore) on `popEnd`: stores
        `desired` when it holds `expected`; either way returns whether it
        did and the value it held. */
    method CasPopEnd(expected: nat, desired: nat) returns (success: bool, seen: nat)
      modifies this`popEnd
      ensures seen == old(popEnd) && success == (seen == expected)
      ensures popEnd == if success then desired else seen
    {
      seen := popEnd;
      success := seen == expected;
      if success {
        popEnd := desired;
      }
    }

    /** `compare_exchange_strong` on the consumed flag of slot `e`. */
    method CasConsumed(e: nat, expected: bool, desired: bool) returns (success: bool, seen: bool)
      requires e < slots.Length
      modifies slots
      ensures seen == old(slots[e].consumed) && success == (seen == expected)
      ensures slots[..] == if success then old(slots[..])[e := old(slots[e]).(consumed := desired)] else old(slots[..])
    {
      seen := slots[e].consumed;
      success := seen == expected;
      if success {
        slots[e] := slots[e].(consumed := desired);
      }
    }

    /** `compare_exchange_weak` without spurious failure (the claim) or
        `compare_exchange_strong` (the release) on the busy flag of slot
        `e`. */
    method CasBusy(e: nat, expected: bool, desired: bool) returns (success: bool, seen: bool)
      requires e < slots.Length
      modifies slots
      ensures seen == old(slots[e].busy) && success == (seen == expected)
      ensures slots[..] == if success then old(slots[..])[e := old(slots[e]).(busy := desired)] else old(slots[..])
    {
      seen := slots[e].busy;
      success := seen == expected;
      if success {
        slots[e] := slots[e].(busy := desired);
      }
    }

    /** `compare_exchange_weak` on the `next_p` link of slot `t`, without
        spurious failure. */
    method CasNext(t: nat, expected: nat, desired: nat) returns (success: bool, seen: nat)
      requires t < slots.Length
      modifies slots
      ensures seen == old(slots[t].next) && success == (seen == expected)
      ensures slots[..] == if success then old(slots[..])[t := old(slots[t]).(next := desired)] else old(slots[..])
    {
      seen := slots[t].next;
      success := seen == expected;
      if success {
        slots[t] := slots[t].(next := desired);
      }
    }
  }
}
