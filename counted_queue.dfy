/**
  The counted queue (`queue_t<T, alloc>` of lockfree_queue.hpp) as a class
  run by a single thread. The ring is an array of nodes updated in place;
  `head`, `pushEnd`, `popEnd`, `observedLast` and `count` are the atomic
  fields, and every compare-and-swap is a compare-and-set on them or on a
  node's `next`.

  Each method is proved against the step functions of `CountedSpec`, and
  through the refinement lemmas there against a FIFO queue on `Contents()`.
 */
module CountedQueue {
  import opened RingCursor
  import opened CountedSpec

  class Queue<T(0)> {
    const ringsz: nat
    const slots: array<Node<T>>
    var head: int
    var pushEnd: nat
    var popEnd: nat
    var observedLast: nat
    var count: int
    /** The nodes of the chain, from the one `popEnd` (or, once drained,
        `observedLast`) names to the one `pushEnd` names. */
    ghost var chain: seq<nat>

    /** The queue state as a value. */
    ghost function Model(): Ring<T>
      reads this, slots
    {
      Ring(slots[..], head, pushEnd, popEnd, observedLast, count)
    }

    ghost predicate Valid()
      reads this, slots
    {
      slots.Length == ringsz && Inv(Model(), chain)
    }

    /** The queued elements, oldest first. */
    ghost function Contents(): seq<T>
      reads this, slots
      requires Valid()
    {
      Elements(Model(), chain)
    }

    /** Builds a ring of exactly `sz` default nodes, unlinked, with every
        field 0 and no queued element. */
    constructor (sz: nat := DefaultCapacity)
      ensures Valid() && fresh(slots)
      ensures ringsz == sz && Initial(Model(), sz)
      ensures chain == [] && Contents() == []
    {
      var a := new Node<T>[sz];
      for i := 0 to sz
        invariant forall j :: 0 <= j < i ==> a[j].next == 0
      {
        a[i] := Node(a[i].payload, 0);
      }
      ringsz, slots := sz, a;
      head, pushEnd, popEnd, observedLast, count := 0, 0, 0, 0, 0;
      chain := [];
    }

    /** Enqueues `x` unless the counter has reached a quarter of the ring:
        overwrites the node after the cursor, moves the cursor onto it and
        appends it to the chain. */
    method Push(x: T) returns (ok: bool)
      requires Valid()
      modifies this, slots
      ensures Valid()
      ensures ok == Admits(old(Model())) && (ok <==> old(count) < ringsz / 4)
      ensures Model() == PushStep(old(Model()), x)
      ensures chain == if ok then old(chain) + [head] else old(chain)
      ensures Contents() == if ok then old(Contents()) + [x] else old(Contents())
      ensures ok ==> head == Succ(old(head), ringsz) && pushEnd == head + 1
      ensures 0 <= count <= ringsz / 4
    {
      PushRefines(Model(), chain, x);
      PushGate(Model(), chain, x);
      TailOpen(Model(), chain);
      if count >= ringsz / 4 {
        return false;
      }
      Place(x);
      return true;
    }

    /** The body of an accepted push: claim the node after the cursor,
        write it, and append it. */
    method Place(x: T)
      requires slots.Length == ringsz && Cursors(Model()) && Admits(Model())
      requires pushEnd != 0 ==> pushEnd - 1 != Succ(head, ringsz) && slots[pushEnd - 1].next == 0
      modifies this`head, this`pushEnd, this`popEnd, this`count, this`chain, slots
      ensures Model() == PushStep(old(Model()), x)
      ensures chain == old(chain) + [head]
    {
      var k := Claim();
      slots[k] := slots[k].(payload := x);
      slots[k] := slots[k].(next := 0);
      chain := chain + [k];
      Link(k);
    }

    /** The cursor loop of push: the first attempt expects the cursor at
        -1, which it never is, and only picks up its position; the second
        moves it one slot on, wrapping to 0 at the ring's end. Returns the
        slot it moved to. */
    method Claim() returns (k: nat)
      requires 0 <= head < ringsz
      modifies this`head
      ensures k == Succ(old(head), ringsz) && head == k
    {
      var expectedHead: int := -1;
      var desiredHead: int := -1;
      while true
        invariant head == old(head)
        invariant expectedHead == -1 || expectedHead == head
        decreases if expectedHead == head then 0 else 1
      {
        desiredHead := expectedHead + 1;
        if desiredHead >= ringsz {
          desiredHead := 0;
        }
        var moved;
        moved, expectedHead := CasHead(expectedHead, desiredHead);
        if moved {
          return desiredHead;
        }
      }
    }

    /** Appends node `k`, already written: as the whole chain when
        `pushEnd` is 0, which also sets `popEnd`, otherwise after the tail,
        whose link is still 0, so the first link attempt succeeds. Counts
        the new element. */
    method Link(k: nat)
      requires slots.Length == ringsz && k < ringsz && pushEnd <= ringsz
      requires pushEnd != 0 ==> pushEnd - 1 != k && slots[pushEnd - 1].next == 0
      modifies this`pushEnd, this`popEnd, this`count, slots
      ensures slots[..] == if old(pushEnd) == 0 then old(slots[..]) else old(slots[..])[old(pushEnd) - 1 := old(slots[pushEnd - 1]).(next := k + 1)]
      ensures pushEnd == k + 1 && popEnd == (if old(pushEnd) == 0 then k + 1 else old(popEnd))
      ensures count == old(count) + 1
    {
      var desired := k + 1;
      var expected := 0;
      var first;
      first, expected := CasPushEnd(expected, desired);
      if first {
        popEnd := desired;
        count := count + 1;
        return;
      }
      var t := expected - 1;
      expected := 0;
      var linked, _ := CasNext(t, expected, desired);
      assert linked;
      pushEnd := desired;
      count := count + 1;
    }

    /** Dequeues into `output`. Delivers exactly when `popEnd` is set.
        With `popEnd` 0 it fails, leaving everything as it was when there
        is no drained node with a successor; otherwise it hands `popEnd`
        on to that successor and still fails, and the next pop delivers. */
    method Pop(output: T) returns (ok: bool, output': T)
      requires Valid()
      modifies this
      ensures Valid()
      ensures var p := PopStep(old(Model()), old(chain));
        && Model() == p.ring && chain == p.chain
        && ok == p.item.Some?
        && output' == (if ok then p.item.value else output)
      ensures ok <==> old(popEnd) != 0
      ensures ok ==> old(Contents()) != [] && output' == old(Contents())[0] && Contents() == old(Contents())[1..]
      ensures !ok ==> Contents() == old(Contents()) && output' == output
      ensures old(Contents()) == [] ==> Model() == old(Model())
      ensures 0 <= count <= ringsz / 4
    {
      PopRefines(Model(), chain);
      PopOutcomes(Model(), chain);
      InvHeadShape(Model(), chain);
      ok, output' := Poll(output);
    }

    /** The loop of pop, which turns at most twice: once more after a
        hand-off, to find `observedLast` 0 and fail. */
    method Poll(output: T) returns (ok: bool, output': T)
      requires slots.Length == ringsz && popEnd <= ringsz && observedLast <= ringsz
      requires popEnd != 0 ==> observedLast == 0
      modifies this`popEnd, this`observedLast, this`count, this`chain
      ensures var p := PopStep(old(Model()), old(chain));
        && Model() == p.ring && chain == p.chain
        && ok == p.item.Some? && output' == (if ok then p.item.value else output)
    {
      ghost var r0, c0 := Model(), chain;
      ghost var handed := false;
      var done;
      output' := output;
      var expected := popEnd;
      while true
        invariant slots.Length == ringsz && observedLast <= ringsz && expected <= ringsz && output' == output
        invariant !handed ==> Model() == r0 && chain == c0 && expected == popEnd
        invariant handed ==> && r0.popEnd == 0 && expected == 0 && observedLast == 0
                             && Model() == PopStep(r0, c0).ring && chain == PopStep(r0, c0).chain
        decreases if handed then 0 else 1
      {
        done, ok, expected, output' := Round(expected, output');
        if done {
          return;
        }
        handed := true;
      }
    }

    /** One turn of the pop loop from `expected`, the value of `popEnd`
        last seen. With `expected` 0: fail when `observedLast` is 0 or its
        node has no successor; otherwise clear `observedLast`, put `popEnd`
        on the successor and go round again. Otherwise try to move `popEnd`
        on to the node's `next`: when that fails, only pick up its current
        value; when it succeeds, deliver the node, record it in
        `observedLast` when it was the last linked one, and count one
        element less. */
    method Round(expected: nat, output: T) returns (done: bool, ok: bool, expected': nat, output': T)
      requires expected <= slots.Length && observedLast <= slots.Length
      requires expected != 0 && expected == popEnd ==> observedLast == 0
      requires expected == 0 && observedLast != 0 ==> popEnd == 0
      modifies this`popEnd, this`observedLast, this`count, this`chain
      ensures ok ==> done
      ensures var r, c := old(Model()), old(chain);
        && (expected == 0 ==>
              && (r.observedLast == 0 || r.slots[r.observedLast - 1].next == 0 ==>
                    done && !ok && Model() == r && chain == c && output' == output)
              && (r.observedLast != 0 && r.slots[r.observedLast - 1].next != 0 ==>
                    && !done && expected' == 0 && chain == Rest(c) && output' == output
                    && Model() == r.(observedLast := 0, popEnd := r.slots[r.observedLast - 1].next)))
        && (expected != 0 && expected != r.popEnd ==>
              !done && expected' == r.popEnd && Model() == r && chain == c && output' == output)
        && (expected != 0 && expected == r.popEnd ==>
              var s := r.slots[expected - 1];
              && done && ok && output' == s.payload
              && chain == (if s.next == 0 then c else Rest(c))
              && Model() == r.(popEnd := s.next, observedLast := if s.next == 0 then expected else r.observedLast, count := r.count - 1))
    {
      output' := output;
      expected' := expected;
      if expected' == 0 {
        var idle;
        idle, expected' := CasObserved(expected', 0);
        if idle {
          return true, false, expected', output';
        }
        var o := expected' - 1;
        var next := slots[o].next;
        if next > 0 {
          var cleared;
          cleared, expected' := CasObserved(expected', 0);
          if cleared {
            expected' := 0;
            var moved, _ := CasPopEnd(expected', next);
            assert moved;
            chain := Rest(chain);
            return false, false, expected', output';
          }
        }
        return true, false, expected', output';
      }
      var e := expected' - 1;
      var next := slots[e].next;
      var taken;
      taken, expected' := CasPopEnd(expected', next);
      if !taken {
        return false, false, expected', output';
      }
      output' := slots[e].payload;
      if next == 0 {
        // recording the drained node succeeds at the first attempt
        var recorded, _ := CasObserved(0, expected');
        assert recorded;
      } else {
        chain := Rest(chain);
      }
      count := count - 1;
      return true, true, expected', output';
    }

    /** `compare_exchange_strong` on the cursor: stores `desired` when it
        holds `expected`; either way returns whether it did and the value
        it held. */
    method CasHead(expected: int, desired: int) returns (success: bool, seen: int)
      modifies this`head
      ensures seen == old(head) && success == (seen == expected)
      ensures head == if success then desired else seen
    {
      seen := head;
      success := seen == expected;
      if success {
        head := desired;
      }
    }

    /** `compare_exchange_strong` on `pushEnd`. */
    method CasPushEnd(expected: nat, desired: nat) returns (success: bool, seen: nat)
      modifies this`pushEnd
      ensures seen == old(pushEnd) && success == (seen == expected)
      ensures pushEnd == if success then desired else seen
    {
      seen := pushEnd;
      success := seen == expected;
      if success {
        pushEnd := desired;
      }
    }

    /** `compare_exchange_strong` on `popEnd`. */
    method CasPopEnd(expected: nat, desired: nat) returns (success: bool, seen: nat)
      modifies this`popEnd
      ensures seen == old(popEnd) && success == (seen == expected)
      ensures popEnd == if success then desired else seen
    {
      seen := popEnd;
      success := seen == expected;
      if success {
        popEnd := desired;
      }
    }

    /** `compare_exchange_strong` (or, without spurious failure,
        `compare_exchange_weak`) on `observedLast`. */
    method CasObserved(expected: nat, desired: nat) returns (success: bool, seen: nat)
      modifies this`observedLast
      ensures seen == old(observedLast) && success == (seen == expected)
      ensures observedLast == if success then desired else seen
    {
      seen := observedLast;
      success := seen == expected;
      if success {
        observedLast := desired;
      }
    }

    /** `compare_exchange_strong` on the `next` link of node `t`. */
    method CasNext(t: nat, expected: nat, desired: nat) returns (success: bool, seen: nat)
      requires t < slots.Length
      modifies slots
      ensures seen == old(slots[t].next) && success == (seen == expected)
      ensures slots[..] == if success then old(slots[..])[t := old(slots[t]).(next := desired)] else old(slots[..])
    {
      seen := slots[t].next;
      success := seen == expected;
      if success {
        slots[t] := slots[t].(next := desired);
      }
    }
  }
}
