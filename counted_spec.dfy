/**
  Value-level semantics of the counted queue (`queue_t<T, alloc>` of
  lockfree_queue.hpp) run by a single thread: a fixed ring of nodes
  threaded into a FIFO chain by per-node `next` links, a ring cursor
  `head` naming the node written last, the chain ends `pushEnd` and
  `popEnd`, the `observedLast` hand-off and the fill counter `count`.
  Node `i` has identity `i + 1`; identity 0 means "none".

  The chain is given as a ghost sequence of node indices, from the node
  `popEnd` names to the node `pushEnd` names. Once the queue has been
  drained, `popEnd` is 0 and the first chain node is the drained last
  node `observedLast` names: it holds no element, it only carries the
  link to the nodes pushed after it.
 */
module CountedSpec {
  import opened Wrappers
  import opened RingCursor

  /** The ring size the queue builds by default. */
  const DefaultCapacity: nat := 1024

  /** One ring node: the payload and the identity of the next node in the
      chain (0 = none). */
  datatype Node<T> = Node(payload: T, next: nat)

  /** The whole queue state: the nodes, the cursor, the chain ends, the
      hand-off and the fill counter. */
  datatype Ring<T> = Ring(slots: seq<Node<T>>, head: int, pushEnd: nat, popEnd: nat, observedLast: nat, count: int)

  /** What a pop leaves behind: the new state, the new chain, and the
      element delivered, if any. */
  datatype Popped<T> = Popped(ring: Ring<T>, chain: seq<nat>, item: Option<T>)

  ghost predicate InRing(chain: seq<nat>, n: nat)
  {
    forall i :: 0 <= i < |chain| ==> chain[i] < n
  }

  /** The chain nodes are the ones the cursor wrote last, oldest first:
      the `i`-th lies `|chain| - 1 - i` cursor advances behind `head`.
      In particular no node is named twice. */
  ghost predicate Trail(chain: seq<nat>, head: nat, n: nat)
    requires head < n
  {
    forall i :: 0 <= i < |chain| ==> chain[i] < n && Dist(chain[i], head, n) == |chain| - 1 - i
  }

  /** Each chain node's `next` names the chain's following node, and the
      last one's is 0. */
  ghost predicate Linked<T>(slots: seq<Node<T>>, chain: seq<nat>)
    requires InRing(chain, |slots|)
    decreases |chain|
  {
    if |chain| <= 1 then chain == [] || slots[chain[0]].next == 0
    else slots[chain[0]].next == chain[1] + 1 && Linked(slots, chain[1..])
  }

  /** The chain less its first node. */
  function Rest(c: seq<nat>): seq<nat>
  {
    if c == [] then [] else c[1..]
  }

  /** The chain ends: all of `pushEnd`, `popEnd` and `observedLast` are 0
      before the first push; afterwards `pushEnd` names the last node, and
      the first node is named by `popEnd` or, once drained, by
      `observedLast`, never by both. */
  ghost predicate Ends<T>(r: Ring<T>, chain: seq<nat>)
  {
    && (chain == [] ==> r.pushEnd == 0 && r.popEnd == 0 && r.observedLast == 0)
    && (chain != [] ==>
          && r.pushEnd == chain[|chain| - 1] + 1
          && (r.popEnd == 0 ==> r.observedLast == chain[0] + 1)
          && (r.popEnd != 0 ==> r.popEnd == chain[0] + 1 && r.observedLast == 0))
  }

  /** The chain nodes that hold a queued element: all of them but the
      drained node `observedLast` names. */
  function Live<T>(r: Ring<T>, chain: seq<nat>): seq<nat>
  {
    if r.popEnd == 0 then Rest(chain) else chain
  }

  /** The payloads held by the nodes of `c`, in chain order. */
  ghost function Payloads<T>(slots: seq<Node<T>>, c: seq<nat>): seq<T>
    requires InRing(c, |slots|)
  {
    seq(|c|, i requires 0 <= i < |c| => slots[c[i]].payload)
  }

  /** The FIFO contents of the queue, oldest first. */
  ghost function Elements<T>(r: Ring<T>, chain: seq<nat>): seq<T>
    requires InRing(chain, |r.slots|)
  {
    Payloads(r.slots, Live(r, chain))
  }

  /** The invariant of the counted queue, with `chain` its logical chain:
      the counter counts the queued elements and stays within a quarter
      of the ring. */
  ghost predicate Inv<T>(r: Ring<T>, chain: seq<nat>)
  {
    match r
    case Ring(slots, head, _, _, _, count) =>
      && 0 <= head && (head < |slots| || |slots| == 0)
      && InRing(chain, |slots|)
      && (chain != [] ==> head < |slots| && Trail(chain, head, |slots|))
      && Linked(slots, chain)
      && Ends(r, chain)
      && count == |Live(r, chain)| && count <= |slots| / 4
  }

  /** The state of a freshly constructed queue of `n` nodes. */
  ghost predicate Initial<T>(r: Ring<T>, n: nat)
  {
    && |r.slots| == n
    && r.head == 0 && r.pushEnd == 0 && r.popEnd == 0 && r.observedLast == 0 && r.count == 0
    && (forall i :: 0 <= i < n ==> r.slots[i].next == 0)
  }

  /** A fresh queue keeps the invariant with an empty chain and holds nothing. */
  lemma InitialInv<T>(r: Ring<T>, n: nat)
    requires Initial(r, n)
    ensures Inv(r, []) && Elements(r, []) == []
  {
  }

  /** The first chain node has identity `First(r)`: a node at `popEnd`, or
      else the drained node at `observedLast`. */
  function First<T>(r: Ring<T>): nat
  {
    if r.popEnd != 0 then r.popEnd else r.observedLast
  }

  /** What the invariant says about the first chain node, free of
      quantifiers: there is one exactly when the chain is not empty; its
      `next` is 0 exactly when it is the only one, and names the second
      otherwise. */
  ghost predicate HeadShape<T>(r: Ring<T>, chain: seq<nat>)
  {
    && r.popEnd <= |r.slots| && r.observedLast <= |r.slots|
    && (r.popEnd != 0 ==> r.observedLast == 0)
    && (First(r) == 0 <==> chain == [])
    && (First(r) != 0 ==>
          var s := r.slots[First(r) - 1];
          && First(r) == chain[0] + 1
          && (s.next == 0 <==> |chain| == 1)
          && (|chain| > 1 ==> s.next == chain[1] + 1 && s.next <= |r.slots|))
  }

  lemma InvHeadShape<T>(r: Ring<T>, chain: seq<nat>)
    requires Inv(r, chain)
    ensures HeadShape(r, chain)
  {
  }

  // ----- push -----

  /** The cursor facts push needs to be defined. */
  ghost predicate Cursors<T>(r: Ring<T>)
  {
    0 <= r.count && 0 <= r.head && (r.head < |r.slots| || |r.slots| == 0) && r.pushEnd <= |r.slots|
  }

  /** The fill gate: push is accepted only while fewer than a quarter of
      the ring's nodes are counted. */
  ghost predicate Admits<T>(r: Ring<T>)
  {
    r.count < |r.slots| / 4
  }

  /** The nodes after push writes `x` with `next` 0 into node `k` and links
      it after the tail `pushEnd` names, if any. */
  ghost function Filled<T>(s: seq<Node<T>>, k: nat, x: T, pushEnd: nat): seq<Node<T>>
    requires k < |s| && pushEnd <= |s|
  {
    var written := s[k := Node(x, 0)];
    if pushEnd == 0 then written
    else written[pushEnd - 1 := written[pushEnd - 1].(next := k + 1)]
  }

  /** The effect of one push of `x`: nothing when the gate refuses; else
      the node after the cursor is overwritten with `x`, the cursor moves
      onto it, it becomes the first chain node (first push ever) or is
      linked after the tail, and the counter goes up. */
  ghost function PushStep<T>(r: Ring<T>, x: T): Ring<T>
    requires Cursors(r)
  {
    if !Admits(r) then r
    else
      var k := Succ(r.head, |r.slots|);
      Ring(Filled(r.slots, k, x, r.pushEnd), k, k + 1, if r.pushEnd == 0 then k + 1 else r.popEnd, r.observedLast, r.count + 1)
  }

  lemma InvCursors<T>(r: Ring<T>, chain: seq<nat>)
    requires Inv(r, chain)
    ensures Cursors(r)
  {
    if r.pushEnd != 0 {
      assert chain[|chain| - 1] < |r.slots|;
    }
  }

  /** The last node of a linked chain has `next` 0. */
  lemma {:induction false} LinkedLast<T>(slots: seq<Node<T>>, chain: seq<nat>)
    requires InRing(chain, |slots|) && Linked(slots, chain) && chain != []
    ensures slots[chain[|chain| - 1]].next == 0
    decreases |chain|
  {
    if |chain| > 1 {
      LinkedLast(slots, chain[1..]);
      assert chain[1..][|chain| - 2] == chain[|chain| - 1];
    }
  }

  /** The tail, when there is one, is unlinked, and a push the gate lets
      through writes a node other than the tail. */
  lemma TailOpen<T>(r: Ring<T>, chain: seq<nat>)
    requires Inv(r, chain)
    ensures r.pushEnd != 0 ==> 0 < r.pushEnd <= |r.slots| && r.slots[r.pushEnd - 1].next == 0
    ensures r.pushEnd != 0 && Admits(r) ==> r.pushEnd - 1 != Succ(r.head, |r.slots|)
  {
    if r.pushEnd != 0 {
      LinkedLast(r.slots, chain);
      if Admits(r) {
        PushSparesChain(r, chain);
      }
    }
  }

  /** The gate refuses exactly when the counter has reached a quarter of
      the ring, and then push changes nothing; a ring of fewer than four
      nodes refuses every push. */
  lemma PushGate<T>(r: Ring<T>, chain: seq<nat>, x: T)
    requires Inv(r, chain)
    ensures Cursors(r)
    ensures !Admits(r) <==> r.count >= |r.slots| / 4
    ensures !Admits(r) ==> PushStep(r, x) == r
    ensures |r.slots| < 4 ==> !Admits(r)
    ensures 0 <= r.count <= |r.slots| / 4
  {
    InvCursors(r, chain);
  }

  /** The cursor slot one short of a full turn behind: the slot just after
      `h` is `n - 1` advances behind it. */
  lemma DistAround(h: nat, n: nat)
    requires h < n && 2 <= n
    ensures Dist(Succ(h, n), h, n) == n - 1
  {
  }

  /** The node push writes holds no queued element and is not the
      drained hand-off node: the gate keeps the chain shorter than the
      distance the cursor has to go round to reach it again. */
  lemma PushSparesChain<T>(r: Ring<T>, chain: seq<nat>)
    requires Inv(r, chain) && Admits(r)
    ensures 4 <= |r.slots| && 0 <= r.head < |r.slots|
    ensures Succ(r.head, |r.slots|) !in chain
    ensures |chain| < |r.slots| - 1
  {
    var n, k := |r.slots|, Succ(r.head, |r.slots|);
    assert |chain| <= r.count + 1;
    DistAround(r.head, n);
    forall i | 0 <= i < |chain|
      ensures chain[i] != k
    {
      assert Dist(chain[i], r.head, n) == |chain| - 1 - i;
    }
  }

  /** After push the trail ends at the written node, one cursor advance
      further on. */
  lemma TrailAppend(chain: seq<nat>, h: nat, n: nat)
    requires h < n && 2 <= n && (chain != [] ==> Trail(chain, h, n))
    requires Succ(h, n) !in chain && |chain| < n - 1
    ensures Trail(chain + [Succ(h, n)], Succ(h, n), n)
  {
    var k := Succ(h, n);
    var c := chain + [k];
    forall i | 0 <= i < |c|
      ensures c[i] < n && Dist(c[i], k, n) == |c| - 1 - i
    {
      if i < |chain| {
        assert c[i] == chain[i] != k;
        DistSucc(chain[i], h, n);
      }
    }
  }

  /** Linking a new last node after the old one keeps the links. */
  lemma {:induction false} AppendLinked<T>(s: seq<Node<T>>, s': seq<Node<T>>, c: seq<nat>, k: nat)
    requires InRing(c, |s|) && Linked(s, c) && k < |s| && k !in c && |s'| == |s|
    requires forall i, j :: 0 <= i < j < |c| ==> c[i] != c[j]
    requires s'[k].next == 0
    requires c != [] ==> s'[c[|c| - 1]].next == k + 1
    requires forall i :: 0 <= i < |s| && i != k && (c == [] || i != c[|c| - 1]) ==> s'[i].next == s[i].next
    ensures InRing(c + [k], |s|) && Linked(s', c + [k])
    decreases |c|
  {
    assert InRing(c + [k], |s|);
    if |c| > 1 {
      var t := c[1..];
      assert t[|t| - 1] == c[|c| - 1];
      assert c[0] != c[|c| - 1] && c[0] != k;
      assert forall i :: 0 <= i < |t| ==> t[i] == c[i + 1];
      AppendLinked(s, s', t, k);
      assert (c + [k])[1..] == t + [k];
    }
  }

  /** A trail names no node twice. */
  lemma TrailDistinct(chain: seq<nat>, h: nat, n: nat)
    requires h < n && Trail(chain, h, n)
    ensures forall i, j :: 0 <= i < j < |chain| ==> chain[i] != chain[j]
  {
    forall i, j | 0 <= i < j < |chain|
      ensures chain[i] != chain[j]
    {
      assert Dist(chain[i], h, n) != Dist(chain[j], h, n);
    }
  }

  /** The payloads of a chain with one node appended, after a write that
      touched no other payload. */
  lemma PayloadsAppend<T>(s: seq<Node<T>>, s': seq<Node<T>>, c: seq<nat>, k: nat)
    requires InRing(c, |s|) && k < |s| && k !in c && |s'| == |s|
    requires forall i :: 0 <= i < |s| && i != k ==> s'[i].payload == s[i].payload
    ensures InRing(c + [k], |s|)
    ensures Payloads(s', c + [k]) == Payloads(s, c) + [s'[k].payload]
  {
    assert InRing(c + [k], |s|);
    var p', p := Payloads(s', c + [k]), Payloads(s, c) + [s'[k].payload];
    forall i | 0 <= i < |c| + 1
      ensures p'[i] == p[i]
    {
      if i < |c| {
        assert (c + [k])[i] == c[i] != k;
      }
    }
  }

  /** What an accepted push does to the nodes and the ends: node `k`
      holds `x` with `next` 0 and the cursor is on it; it is the new
      tail; the old tail, if any, links to it; `popEnd` names it too on
      the very first push; nothing else changed but the counter, which
      went up by one. */
  ghost predicate Appended<T>(r: Ring<T>, r': Ring<T>, k: nat, x: T)
  {
    && k < |r.slots| && |r'.slots| == |r.slots|
    && r'.slots[k] == Node(x, 0) && r'.head == k && r'.pushEnd == k + 1
    && r'.count == r.count + 1 && r'.observedLast == r.observedLast
    && (r.pushEnd == 0 ==> r'.popEnd == k + 1 && forall i :: 0 <= i < |r.slots| && i != k ==> r'.slots[i] == r.slots[i])
    && (r.pushEnd != 0 ==>
          && r.pushEnd - 1 != k && r.pushEnd <= |r.slots|
          && r'.popEnd == r.popEnd
          && r'.slots[r.pushEnd - 1] == r.slots[r.pushEnd - 1].(next := k + 1)
          && forall i :: 0 <= i < |r.slots| && i != k && i != r.pushEnd - 1 ==> r'.slots[i] == r.slots[i])
  }

  /** An accepted push overwrites the node after the cursor as
      `Appended` says, and that node is not part of the chain. */
  lemma PushWrites<T>(r: Ring<T>, chain: seq<nat>, x: T)
    requires Inv(r, chain) && Admits(r)
    ensures Cursors(r) && 4 <= |r.slots|
    ensures var k := Succ(r.head, |r.slots|);
      && Appended(r, PushStep(r, x), k, x)
      && k !in chain && |chain| < |r.slots| - 1
  {
    InvCursors(r, chain);
    PushSparesChain(r, chain);
  }

  /** Appending the written node keeps the invariant. */
  lemma AppendKeepsInv<T>(r: Ring<T>, chain: seq<nat>, r': Ring<T>, x: T)
    requires Inv(r, chain) && Admits(r) && 4 <= |r.slots|
    requires var k := Succ(r.head, |r.slots|); Appended(r, r', k, x) && k !in chain && |chain| < |r.slots| - 1
    ensures Inv(r', chain + [Succ(r.head, |r.slots|)])
  {
    var n, k := |r.slots|, Succ(r.head, |r.slots|);
    var c' := chain + [k];
    assert Trail(c', k, n) by {
      TrailAppend(chain, r.head, n);
    }
    assert InRing(c', n) && Linked(r'.slots, c') by {
      AppendLinks(r, chain, r', x);
    }
    assert |Live(r', c')| == |Live(r, chain)| + 1 by {
      AppendLive(r, chain, r', k, x);
    }
    assert Ends(r', c') by {
      assert c'[|c'| - 1] == k;
      if chain != [] {
        assert c'[0] == chain[0];
      }
    }
  }

  /** The written node is linked as the new last chain node. */
  lemma AppendLinks<T>(r: Ring<T>, chain: seq<nat>, r': Ring<T>, x: T)
    requires Inv(r, chain) && 4 <= |r.slots|
    requires var k := Succ(r.head, |r.slots|); Appended(r, r', k, x) && k !in chain
    ensures InRing(chain + [Succ(r.head, |r.slots|)], |r.slots|) && Linked(r'.slots, chain + [Succ(r.head, |r.slots|)])
  {
    var k := Succ(r.head, |r.slots|);
    if chain != [] {
      TrailDistinct(chain, r.head, |r.slots|);
    }
    AppendLinked(r.slots, r'.slots, chain, k);
  }

  /** The written node joins the queued nodes at the back. */
  lemma AppendLive<T>(r: Ring<T>, chain: seq<nat>, r': Ring<T>, k: nat, x: T)
    requires Ends(r, chain) && Appended(r, r', k, x)
    ensures Live(r', chain + [k]) == Live(r, chain) + [k]
  {
    if chain != [] {
      assert (chain + [k])[1..] == chain[1..] + [k];
    }
  }

  /** Appending the written node appends `x` to the contents. */
  lemma AppendElements<T>(r: Ring<T>, chain: seq<nat>, r': Ring<T>, k: nat, x: T)
    requires InRing(chain, |r.slots|) && Ends(r, chain) && Appended(r, r', k, x) && k !in chain
    ensures InRing(chain + [k], |r.slots|)
    ensures Elements(r', chain + [k]) == Elements(r, chain) + [x]
  {
    AppendLive(r, chain, r', k, x);
    var live := Live(r, chain);
    assert k !in live;
    PayloadsAppend(r.slots, r'.slots, live, k);
  }

  /** An accepted push keeps the invariant with the written node appended
      to the chain, and appends `x` to the contents. */
  lemma PushAccepted<T>(r: Ring<T>, chain: seq<nat>, x: T)
    requires Inv(r, chain) && Admits(r)
    ensures Cursors(r)
    ensures var k := Succ(r.head, |r.slots|); var r' := PushStep(r, x);
      && Inv(r', chain + [k])
      && Elements(r', chain + [k]) == Elements(r, chain) + [x]
  {
    PushWrites(r, chain, x);
    AppendKeepsInv(r, chain, PushStep(r, x), x);
    AppendElements(r, chain, PushStep(r, x), Succ(r.head, |r.slots|), x);
  }

  /** Push refines a FIFO enqueue behind a gate: accepted, it appends `x`
      to the contents and the written node to the chain; refused, it
      changes nothing. Either way the invariant, and with it the counter
      bound, is kept. */
  lemma PushRefines<T>(r: Ring<T>, chain: seq<nat>, x: T)
    requires Inv(r, chain)
    ensures Cursors(r)
    ensures var chain' := if Admits(r) then chain + [Succ(r.head, |r.slots|)] else chain;
      && Inv(PushStep(r, x), chain')
      && Elements(PushStep(r, x), chain') == Elements(r, chain) + (if Admits(r) then [x] else [])
      && PushStep(r, x).count <= |r.slots| / 4
  {
    InvCursors(r, chain);
    if Admits(r) {
      PushAccepted(r, chain, x);
    }
  }

  // ----- pop -----

  /** The effect of one pop. With `popEnd` 0: nothing when there is no
      drained node or it has no successor yet; otherwise the hand-off,
      which clears `observedLast`, puts `popEnd` on the successor and
      still delivers nothing. With `popEnd` set: deliver its payload, move
      `popEnd` to its `next`, remember it in `observedLast` when that is
      0, and count one element less. (A cursor beyond the ring, which the
      invariant rules out, counts as no node.) */
  ghost function PopStep<T>(r: Ring<T>, chain: seq<nat>): Popped<T>
  {
    if r.popEnd == 0 then
      if r.observedLast == 0 || r.observedLast > |r.slots| || r.slots[r.observedLast - 1].next == 0 then
        Popped(r, chain, None)
      else
        Popped(r.(observedLast := 0, popEnd := r.slots[r.observedLast - 1].next), Rest(chain), None)
    else if r.popEnd > |r.slots| then Popped(r, chain, None)
    else
      var s := r.slots[r.popEnd - 1];
      Popped(r.(popEnd := s.next, observedLast := if s.next == 0 then r.popEnd else r.observedLast, count := r.count - 1),
             if s.next == 0 then chain else Rest(chain),
             Some(s.payload))
  }

  /** What a pop from `r` with chain `chain` must achieve to behave as a
      FIFO dequeue: keep the invariant; when it delivers, deliver the
      oldest element and drop it; when it does not, keep the contents;
      and never touch the nodes, the cursor or the tail. */
  ghost predicate Dequeues<T>(r: Ring<T>, chain: seq<nat>, p: Popped<T>)
    requires InRing(chain, |r.slots|)
  {
    match p
    case Popped(r', chain', item) =>
      && Inv(r', chain')
      && |r'.slots| == |r.slots|
      && (item.Some? ==> Elements(r, chain) != [] && item.value == Elements(r, chain)[0] && Elements(r', chain') == Elements(r, chain)[1..])
      && (item.None? ==> Elements(r', chain') == Elements(r, chain))
      && r'.slots == r.slots && r'.head == r.head && r'.pushEnd == r.pushEnd
  }

  /** The trail and the links of a chain carry over to its rest. */
  lemma RestKeeps<T>(r: Ring<T>, chain: seq<nat>)
    requires Inv(r, chain) && |chain| > 1
    ensures InRing(chain[1..], |r.slots|) && Trail(chain[1..], r.head, |r.slots|) && Linked(r.slots, chain[1..])
  {
    var c := chain[1..];
    assert forall i :: 0 <= i < |c| ==> c[i] == chain[i + 1];
  }

  /** Dropping the first payload. */
  lemma PayloadsTail<T>(s: seq<Node<T>>, c: seq<nat>)
    requires InRing(c, |s|) && c != []
    ensures Payloads(s, c) == [s[c[0]].payload] + Payloads(s, c[1..])
  {
    var p, q := Payloads(s, c), [s[c[0]].payload] + Payloads(s, c[1..]);
    forall i | 0 <= i < |c|
      ensures p[i] == q[i]
    {
      if i > 0 {
        assert c[1..][i - 1] == c[i];
      }
    }
  }

  /** The hand-off keeps the invariant and the contents, and leaves
      `popEnd` on the drained node's successor, which then holds the
      oldest element. */
  lemma HandOffKeeps<T>(r: Ring<T>, chain: seq<nat>)
    requires Inv(r, chain) && r.popEnd == 0 && r.observedLast != 0
    requires r.observedLast <= |r.slots| && r.slots[r.observedLast - 1].next != 0
    ensures var p := PopStep(r, chain);
      && |chain| > 1 && p.chain == chain[1..] && p.item.None?
      && Inv(p.ring, p.chain) && Live(p.ring, p.chain) == Live(r, chain)
      && p.ring.popEnd == chain[1] + 1
  {
    assert |chain| > 1 by {
      InvHeadShape(r, chain);
    }
    RestKeeps(r, chain);
  }

  /** Delivering a node that has a successor drops it from the chain. */
  lemma DeliverWithSuccessor<T>(r: Ring<T>, chain: seq<nat>)
    requires Inv(r, chain) && r.popEnd != 0
    requires r.popEnd <= |r.slots| && r.slots[r.popEnd - 1].next != 0
    ensures Dequeues(r, chain, PopStep(r, chain)) && PopStep(r, chain).item.Some?
  {
    var p := PopStep(r, chain);
    assert |chain| > 1 && r.popEnd == chain[0] + 1 by {
      InvHeadShape(r, chain);
    }
    RestKeeps(r, chain);
    assert p.chain == chain[1..];
    assert Inv(p.ring, p.chain);
    PayloadsTail(r.slots, chain);
  }

  /** Delivering the last linked node leaves `popEnd` 0 and the node in
      `observedLast`, as the drained first node of the chain. */
  lemma DeliverLast<T>(r: Ring<T>, chain: seq<nat>)
    requires Inv(r, chain) && r.popEnd != 0
    requires r.popEnd <= |r.slots| && r.slots[r.popEnd - 1].next == 0
    ensures Dequeues(r, chain, PopStep(r, chain)) && PopStep(r, chain).item.Some?
  {
    var p := PopStep(r, chain);
    assert |chain| == 1 && r.popEnd == chain[0] + 1 by {
      InvHeadShape(r, chain);
    }
    assert Live(p.ring, p.chain) == [];
    assert Inv(p.ring, p.chain);
  }

  /** Pop refines a FIFO dequeue (see `Dequeues`). */
  lemma PopRefines<T>(r: Ring<T>, chain: seq<nat>)
    requires Inv(r, chain)
    ensures Dequeues(r, chain, PopStep(r, chain))
  {
    InvHeadShape(r, chain);
    if r.popEnd == 0 {
      if r.observedLast != 0 && r.slots[r.observedLast - 1].next != 0 {
        HandOffKeeps(r, chain);
      }
    } else if r.slots[r.popEnd - 1].next == 0 {
      DeliverLast(r, chain);
    } else {
      DeliverWithSuccessor(r, chain);
    }
  }

  /** The outcomes of pop, case by case: it delivers exactly when `popEnd`
      is set; it changes nothing exactly when `popEnd` is 0 and there is
      no drained node with a successor, which is exactly when the queue is
      empty; and the remaining case is the hand-off, after which the next
      pop delivers. */
  lemma PopOutcomes<T>(r: Ring<T>, chain: seq<nat>)
    requires Inv(r, chain)
    ensures var p := PopStep(r, chain);
      var idle := r.popEnd == 0 && (r.observedLast == 0 || r.slots[r.observedLast - 1].next == 0);
      && (p.item.Some? <==> r.popEnd != 0)
      && (idle ==> p == Popped(r, chain, None))
      && (Elements(r, chain) == [] <==> idle)
      && (r.popEnd == 0 && !idle ==>
            && p.ring == r.(observedLast := 0, popEnd := r.slots[r.observedLast - 1].next)
            && PopStep(p.ring, p.chain).item.Some?)
  {
    InvHeadShape(r, chain);
    if r.popEnd == 0 && r.observedLast != 0 && r.slots[r.observedLast - 1].next != 0 {
      HandOffKeeps(r, chain);
    }
    assert |Elements(r, chain)| == |Live(r, chain)|;
  }

  /** Delivering the last linked node records it for the hand-off;
      delivering one with a successor moves `popEnd` on to it. */
  lemma PopDrains<T>(r: Ring<T>, chain: seq<nat>)
    requires Inv(r, chain) && r.popEnd != 0
    ensures var p := PopStep(r, chain); var s := r.slots[r.popEnd - 1];
      && p.ring.count == r.count - 1
      && (s.next == 0 ==> p.ring.popEnd == 0 && p.ring.observedLast == r.popEnd)
      && (s.next != 0 ==> p.ring.popEnd == s.next && p.ring.observedLast == 0)
  {
    InvHeadShape(r, chain);
  }
}
