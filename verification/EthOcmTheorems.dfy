/**
 What the InterNiche driver guarantees after every run of `EthOcm.Run`: every number of descriptors,
 every sequence of submissions and frames, every placement of the MAC's actions between the driver's.
 */
module EthOcmTheorems {
  import opened Options
  import opened MacRing
  import opened EthOcmTx
  import opened EthOcmRx
  import opened EthOcm

  /** A state some run can reach. */
  ghost predicate Reached(s: State) {
    exists n: nat, bufs: seq<nat>, acts: seq<Action> ::
      n >= 1 && bufs != [] && Distinct(bufs) && s == Run(Init(n, bufs), acts)
  }

  lemma ReachedInv(s: State)
    requires Reached(s)
    ensures Inv(s) && Wf(s)
  {
    var n: nat, bufs: seq<nat>, acts: seq<Action> :|
      n >= 1 && bufs != [] && Distinct(bufs) && s == Run(Init(n, bufs), acts);
    Reachable(n, bufs, acts);
  }

  /**
   The transmit ring: `sending` holds (next - cur) mod n packets, or n when `next_tx_desc_rdy` is
   clear; its i-th packet is in descriptor (cur + i) mod n, pointer and length two bytes past its start;
   READY is set only on descriptors of the packets in flight; and the MAC stands on the first of those
   it has not finished.
   */
  lemma TxRingShape(s: State)
    requires Reached(s)
    ensures var t := s.tx; var n := |t.bds|;
      && n >= 1 && |InFlight(t)| <= n && 0 <= Finished(t) <= |InFlight(t)|
      && |t.sending| == (if t.rdy then (t.next - t.cur) % n else n)
      && (forall i :: 0 <= i < |t.sending| ==>
            At(t, i).ptr == t.sending[i].buf + 2 && At(t, i).len == t.sending[i].plen % 0x1_0000_0000 - 2)
      && (forall i :: 0 <= i < n ==> (At(t, i).own <==> Finished(t) <= i < |InFlight(t)|))
      && t.hw == (t.cur + Finished(t)) % n
  {
    hide Reached, TxRing, TxBooks, TxAt, RxInv, At;
    ReachedInv(s);
    var t := s.tx;
    RingIndices(t);
    forall i | 0 <= i < |t.bds|
      ensures At(t, i).own <==> Finished(t) <= i < |InFlight(t)|
      ensures i < |t.sending| ==> Carries(At(t, i), t.sending[i])
    {
      RingAt(t, i);
      if i < |t.sending| {
        SendingIsValid(t, s.tpc, i);
      }
    }
  }

  /** The descriptor carries the packet past its header bias. */
  predicate Carries(b: Bd, p: Packet) {
    b.ptr == p.buf + 2 && b.len == p.plen % 0x1_0000_0000 - 2
  }

  lemma FrameIs(p: Packet)
    requires LenOk(p)
    ensures Frame(p) == Sent(p.buf + 2, p.plen % 0x1_0000_0000 - 2)
  {
    ModShift(p.plen);
  }

  /** Packets on their way have a valid length. */
  lemma SendingIsValid(t: Tx, pc: TxPc, i: nat)
    requires TxBooks(t) && i < |t.sending|
    ensures LenOk(t.sending[i])
  {
    SelectValid(t.submitted);
    assert (t.reaped + t.sending + Select(t.hand + t.tosend, true))[|t.reaped| + i] == t.sending[i];
  }

  lemma {:induction false} SelectValid(ps: seq<Packet>)
    ensures forall i :: 0 <= i < |Select(ps, true)| ==> LenOk(Select(ps, true)[i])
  {
    if ps != [] {
      SelectValid(ps[..|ps| - 1]);
    }
  }

  lemma RingIndices(t: Tx)
    requires TxRing(t)
    ensures |t.bds| >= 1 && |InFlight(t)| <= |t.bds| && 0 <= Finished(t) <= |InFlight(t)|
    ensures |t.sending| == (if t.rdy then (t.next - t.cur) % |t.bds| else |t.bds|)
    ensures t.hw == (t.cur + Finished(t)) % |t.bds|
  {
    hide Describes;
    SlotIsModular(t.cur, |t.sending|, |t.bds|);
    SlotIsModular(t.cur, Finished(t), |t.bds|);
  }

  /** The descriptor `i` places after `cur_tx_desc`, modulo the ring size. */
  function At(t: Tx, i: nat): Bd
    requires t.bds != []
  {
    t.bds[(t.cur + i) % |t.bds|]
  }

  lemma RingAt(t: Tx, i: nat)
    requires TxRing(t) && i < |t.bds|
    ensures At(t, i).own <==> Finished(t) <= i < |InFlight(t)|
    ensures i < |t.sending| && LenOk(t.sending[i]) ==> Carries(At(t, i), t.sending[i])
  {
    SlotIsModular(t.cur, i, |t.bds|);
    if i < |t.sending| && LenOk(t.sending[i]) {
      FrameIs(t.sending[i]);
      var b := t.bds[Slot(t.cur, i, |t.bds|)];
      assert InFlight(t)[i] == t.sending[i];
      assert Sent(b.ptr, b.len) == Frame(t.sending[i]);
    }
  }

  /**
   No completion is lost: while a descriptor is finished and not reaped, a transmit bit is pending in
   `int_source`, or the handler has cleared it and has not finished its reap loop.
   */
  lemma NoLostCompletion(s: State)
    requires Reached(s)
    ensures Finished(s.tx) > 0 ==> s.src.Tx() || WillReap(s)
    ensures s.pc == Idle && !s.src.Tx() ==> Finished(s.tx) == 0
    ensures Filled(s.rx) > 0 ==> s.src.Rx() || s.pc.IsrRx?
    ensures s.pc == Idle && !s.src.Rx() ==> Filled(s.rx) == 0
  {
    hide Reached;
    ReachedInv(s);
  }

  /** Outside `eth_ocm_tx_isr`, nothing waits in `tosend` unless every descriptor is in flight. */
  lemma TxIsrDrains(s: State)
    requires Reached(s) && s.tpc == TxIdle
    ensures s.tx.tosend == [] || |s.tx.sending| == |s.tx.bds|
  {
    hide Reached;
    ReachedInv(s);
  }

  /**
   `eth_ocm_low_send` never finds a nested call or a busy descriptor, so a packet is dropped at set-up
   if and only if its length is outside the limits.
   */
  lemma SetUpFailsOnlyOnLength(s: State)
    requires Reached(s) && s.tpc == LowCheck
    ensures |s.tx.hand| == 1 && !s.tx.sem && !s.tx.bds[s.tx.next].own
    ensures SwStep(s, None).tx.dropped == s.tx.dropped + s.tx.hand <==> !LenOk(s.tx.hand[0])
    ensures LenOk(s.tx.hand[0]) <==> 4 <= s.tx.hand[0].plen % 0x1_0000_0000 - 2 <= 1518
  {
    hide Reached;
    ReachedInv(s);
    NextIsFree(s.tx, LowCheck);
    ModShift(s.tx.hand[0].plen);
  }

  lemma ModShift(x: nat)
    ensures 4 <= (x - 2) % 0x1_0000_0000 <= 1518 <==> 4 <= x % 0x1_0000_0000 - 2 <= 1518
  {
  }

  lemma {:induction false} SelectSplit(ps: seq<Packet>)
    ensures multiset(Select(ps, true)) + multiset(Select(ps, false)) == multiset(ps)
    ensures |Select(ps, true)| + |Select(ps, false)| == |ps|
  {
    if ps != [] {
      var k := |ps| - 1;
      SelectSplit(ps[..k]);
      assert ps == ps[..k] + [ps[k]];
      var ok := LenOk(ps[k]);
      assert Select(ps, ok) == Select(ps[..k], ok) + [ps[k]];
      assert Select(ps, !ok) == Select(ps[..k], !ok);
    }
  }

  /**
   Conservation and order: packets with a valid length leave the driver transmitted, in submission
   order; the others leave it dropped, in submission order; every submission is in exactly one place;
   `ifOutUcastPkts` counts the frames reaped that met no error, `ifOutDiscards` those that did and the
   packets dropped; and the wire carries a prefix of the valid submissions.
   */
  lemma TxConservation(s: State)
    requires Reached(s)
    ensures var t := s.tx;
      && t.reaped + t.sending + Select(t.hand + t.tosend, true) == Select(t.submitted, true)
      && t.dropped + Select(t.hand + t.tosend, false) == Select(t.submitted, false)
      && multiset(t.reaped) + multiset(t.dropped) + multiset(t.sending) + multiset(t.hand) + multiset(t.tosend)
         == multiset(t.submitted)
      && t.ucast + t.discards == |t.reaped| + |t.dropped|
      && |t.reaped| <= |t.errs| == |t.wire| && t.ucast == CountOf(t.errs[..|t.reaped|], false)
      && t.discards == |t.dropped| + CountOf(t.errs[..|t.reaped|], true)
      && |t.submitted| == |t.reaped| + |t.dropped| + |t.sending| + |t.hand| + |t.tosend|
      && |t.wire| <= |Select(t.submitted, true)|
      && (forall k :: 0 <= k < |t.wire| ==>
            var p := Select(t.submitted, true)[k]; t.wire[k] == Sent(p.buf + 2, p.plen % 0x1_0000_0000 - 2))
  {
    hide Reached, TxRing, RxInv, Frame;
    ReachedInv(s);
    var t := s.tx;
    WirePrefix(t, s.tpc);
    SelectValid(t.submitted);
    forall k | 0 <= k < |t.wire|
      ensures var p := Select(t.submitted, true)[k]; t.wire[k] == Sent(p.buf + 2, p.plen % 0x1_0000_0000 - 2)
    {
      FrameIs(Select(t.submitted, true)[k]);
    }
    SelectSplit(t.submitted);
    SelectSplit(t.hand + t.tosend);
    Regroup(t.reaped, t.sending, Select(t.hand + t.tosend, true),
            t.dropped, Select(t.hand + t.tosend, false), t.hand, t.tosend);
  }

  lemma Regroup<T>(r: seq<T>, s: seq<T>, y: seq<T>, d: seq<T>, n: seq<T>, h: seq<T>, t: seq<T>)
    requires multiset(y) + multiset(n) == multiset(h + t)
    ensures multiset(r + s + y) + multiset(d + n) == multiset(r) + multiset(d) + multiset(s) + multiset(h) + multiset(t)
  {
    assert multiset(h + t) == multiset(h) + multiset(t);
    assert multiset(r + s + y) == multiset(r) + multiset(s) + multiset(y);
    assert multiset(d + n) == multiset(d) + multiset(n);
    Shuffle(multiset(r), multiset(s), multiset(y), multiset(d), multiset(n));
    Shuffle(multiset(r), multiset(s), multiset(h), multiset(d), multiset(t));
  }

  lemma Shuffle<T>(r: multiset<T>, s: multiset<T>, y: multiset<T>, d: multiset<T>, n: multiset<T>)
    ensures r + s + y + (d + n) == r + d + s + (y + n)
    ensures r + d + s + (y + n) == r + d + s + y + n
  {
  }

  lemma WirePrefix(t: Tx, pc: TxPc)
    requires TxBooks(t) && TxAt(t, pc)
    ensures t.wire <= Frames(Select(t.submitted, true))
  {
    var w := t.reaped + InFlight(t)[..Finished(t)];
    HandedOn(t, pc);
    FramesPrefix(w, Select(t.submitted, true));
  }

  lemma HandedOn(t: Tx, pc: TxPc)
    requires TxBooks(t) && TxAt(t, pc)
    ensures t.reaped + InFlight(t) <= Select(t.submitted, true)
  {
    hide Books, WireIs, Select;
    if t.armed {
      assert t.hand == [t.hand[0]] && InFlight(t) == t.sending + [t.hand[0]];
      BooksLeave(t.submitted, t.reaped, t.dropped, t.sending, t.hand[0], t.tosend);
      BooksPrefix(t.submitted, t.reaped, t.dropped, t.sending + [t.hand[0]], t.tosend);
    } else {
      assert InFlight(t) == t.sending;
      BooksPrefix(t.submitted, t.reaped, t.dropped, t.sending, t.hand + t.tosend);
    }
  }

  lemma BooksPrefix(sub: seq<Packet>, reaped: seq<Packet>, dropped: seq<Packet>, sending: seq<Packet>,
                    rest: seq<Packet>)
    requires Books(sub, reaped, dropped, sending, rest)
    ensures reaped + sending <= Select(sub, true) && dropped <= Select(sub, false)
  {
  }

  lemma FramesPrefix(w: seq<Packet>, all: seq<Packet>)
    requires w <= all
    ensures Frames(w) <= Frames(all)
  {
  }

  /** No packet is freed twice: the tickets of the packets freed so far are pairwise different. */
  lemma FreedOnce(s: State, i: nat, j: nat)
    requires Reached(s)
    requires i < j < |s.tx.reaped + s.tx.dropped|
    ensures (s.tx.reaped + s.tx.dropped)[i].ticket != (s.tx.reaped + s.tx.dropped)[j].ticket
  {
    hide Reached, TxRing, RxInv, TxAt;
    ReachedInv(s);
    var t := s.tx;
    assert t.reaped <= Select(t.submitted, true) && t.dropped <= Select(t.submitted, false);
    FreedApart(t.submitted, t.reaped, t.dropped, i, j);
  }

  lemma FreedApart(ps: seq<Packet>, a: seq<Packet>, b: seq<Packet>, i: nat, j: nat)
    requires forall i :: 0 <= i < |ps| ==> ps[i].ticket == i
    requires a <= Select(ps, true) && b <= Select(ps, false)
    requires i < j < |a + b|
    ensures (a + b)[i].ticket != (a + b)[j].ticket
  {
    SelectOrdered(ps, true);
    SelectOrdered(ps, false);
    var yes, no := Select(ps, true), Select(ps, false);
    assert (a + b)[i] == if i < |a| then yes[i] else no[i - |a|];
    assert (a + b)[j] == if j < |a| then yes[j] else no[j - |a|];
  }

  /** A selection keeps the order of submission, and every packet in it is the one its ticket names. */
  lemma {:induction false} SelectOrdered(ps: seq<Packet>, ok: bool)
    requires forall i :: 0 <= i < |ps| ==> ps[i].ticket == i
    ensures forall i :: 0 <= i < |Select(ps, ok)| ==>
      var p := Select(ps, ok)[i]; p.ticket < |ps| && ps[p.ticket] == p && LenOk(p) == ok
    ensures forall i, j :: 0 <= i < j < |Select(ps, ok)| ==> Select(ps, ok)[i].ticket < Select(ps, ok)[j].ticket
  {
    if ps != [] {
      SelectOrdered(ps[..|ps| - 1], ok);
    }
  }

  /**
   Nothing is ever stuck: when the processor is idle, no transmit interrupt is pending and the MAC has
   nothing to send, every packet ever submitted has been freed and counted.
   */
  lemma QuiescentMeansDone(s: State)
    requires Reached(s) && s.pc == Idle && !s.src.Tx() && !MacCanSend(s.tx)
    ensures s.tx.tosend == [] && s.tx.sending == []
    ensures s.tx.ucast + s.tx.discards == |s.tx.submitted|
    ensures s.tx.wire == Frames(Select(s.tx.submitted, true))
  {
    hide Reached, TxBooks, TxRing, RxInv;
    ReachedInv(s);
    var t := s.tx;
    if t.sending != [] {
      MacHasWork(t);
    }
    AllDone(t);
  }

  lemma AllDone(t: Tx)
    requires TxBooks(t) && t.tosend == [] && t.sending == [] && t.hand == []
    ensures t.ucast + t.discards == |t.submitted|
    ensures t.wire == Frames(Select(t.submitted, true))
  {
    SelectSplit(t.submitted);
    assert t.hand + t.tosend == [] && InFlight(t) == [];
    assert t.reaped + [] + [] == t.reaped && t.dropped + [] == t.dropped;
  }

  lemma MacHasWork(t: Tx)
    requires TxInv(t, TxIdle) && Finished(t) == 0 && t.sending != []
    ensures MacCanSend(t)
  {
    assert InFlight(t) == t.sending;
    WindowHead(t.bds, t.cur, |t.sending|, 0, t.hw);
  }

  /** Both directions of the transmit ring: what the machine does to it is what a bounded queue does. */
  function TxFifo(t: Tx): Fifo<Packet> {
    Fifo(|t.bds|, InFlight(t), if Finished(t) < 0 then 0 else Finished(t))
  }

  lemma TxStepFifo(t: Tx, pc: TxPc)
    requires TxInv(t, pc)
    ensures FifoStep(TxFifo(t), TxFifo(TxStep(t, pc).0))
  {
    hide TxBooks, TxRing;
    var t' := TxStep(t, pc).0;
    match pc
    case ReapBody => ReapFifo(t);
    case LowCtrl => WriteCtrlFifo(t);
    case _ => assert InFlight(t') == InFlight(t) && TxFifo(t') == TxFifo(t);
  }

  lemma ReapFifo(t: Tx)
    requires TxInv(t, ReapBody)
    ensures FifoStep(TxFifo(t), TxFifo(TxStep(t, ReapBody).0))
  {
    hide TxBooks, TxRing;
    assert InFlight(t) == t.sending && InFlight(Reap(t)) == t.sending[1..];
  }

  lemma WriteCtrlFifo(t: Tx)
    requires TxInv(t, LowCtrl)
    ensures FifoStep(TxFifo(t), TxFifo(TxStep(t, LowCtrl).0))
  {
    hide TxBooks, TxRing;
    assert InFlight(t) == t.sending && InFlight(WriteCtrl(t)) == t.sending + [t.hand[0]];
  }

  /** Every action keeps the transmit ring a bounded queue of capacity n: it refines `MacRing.Fifo`. */
  lemma TxRefinesFifo(s: State, a: Action)
    requires Reached(s)
    ensures Wf(s) && FifoOk(TxFifo(s.tx)) && FifoStep(TxFifo(s.tx), TxFifo(Step(s, a).tx))
  {
    hide Reached;
    ReachedInv(s);
    TxRingShape(s);
    var t, t' := s.tx, Step(s, a).tx;
    match a
    case Sw(alloc) =>
      if s.pc == PktSend || s.pc == IsrTx {
        TxStepFifo(t, s.tpc);
      }
    case DoSubmit(buf, plen) => assert InFlight(t') == InFlight(t);
    case Irq =>
    case DoMacSend(err) =>
      if MacCanSend(t) {
        MacSendKeeps(t, s.tpc, err);
        assert InFlight(t') == InFlight(t);
      }
    case DoMacFill(f) =>
    case MacBusy =>
    case DoStackTake =>
  }

  /**
   Receive ownership: the buffers in `rx_pkts` are distinct and disjoint from those queued for the
   stack; every descriptor the MAC owns points at its own `rx_pkts` buffer; so no queued buffer is one
   the MAC may write, and every queued buffer still holds the frame it was queued with.
   */
  lemma RxOwnership(s: State)
    requires Reached(s)
    ensures var r := s.rx;
      && |r.pkts| == |r.bds| && Ownership(r.pkts, r.rcvdq)
      && (forall j :: 0 <= j < |r.bds| && r.bds[j].own ==> r.bds[j].ptr == r.pkts[j] + 2)
      && (forall j, i :: 0 <= j < |r.bds| && r.bds[j].own && 0 <= i < |r.rcvdq| ==> r.bds[j].ptr != r.rcvdq[i] + 2)
      && |r.rcvdq| <= |r.delivered|
      && (forall i :: 0 <= i < |r.rcvdq| ==>
            r.rcvdq[i] + 2 in r.mem && r.mem[r.rcvdq[i] + 2] == r.delivered[|r.delivered| - |r.rcvdq| + i])
  {
    hide Reached, Window, TxInv, RxFilled, RxBooks;
    ReachedInv(s);
  }

  /**
   Receive order and count: a frame processed is queued if and only if it is good and `pk_alloc` had a
   buffer for it; the frames queued are exactly those, in arrival order; and frames processed plus busy
   events the MAC has raised equal frames delivered plus `ifInDiscards`, plus a busy event that is still
   in `int_source` or in the handler's hands.
   */
  lemma RxOrderAndCount(s: State)
    requires Reached(s)
    ensures var r := s.rx;
      && |r.room| == |r.log| <= |r.arrived|
      && (forall i :: 0 <= i < |r.log| ==> (r.log[i] <==> !r.arrived[i].bad && r.room[i]))
      && r.delivered == Pick(r.arrived[..|r.log|], r.log)
      && (forall i :: 0 <= i < |r.delivered| ==> !r.delivered[i].bad)
      && |r.log| + r.raised == |r.delivered| + r.discards + BusyPending(s)
      && (s.pc == Idle && !s.src.busy ==> |r.log| + r.raised == |r.delivered| + r.discards)
      && (s.pc == Idle && !s.src.Rx() ==> |r.log| == |r.arrived|)
  {
    hide Reached;
    ReachedInv(s);
    PickGood(s.rx.arrived[..|s.rx.log|], s.rx.log);
  }

  lemma {:induction false} PickGood(fs: seq<RxFrame>, log: seq<bool>)
    requires |fs| == |log|
    requires forall i :: 0 <= i < |log| && log[i] ==> !fs[i].bad
    ensures forall i :: 0 <= i < |Pick(fs, log)| ==> !Pick(fs, log)[i].bad
  {
    if log != [] {
      PickGood(fs[..|log| - 1], log[..|log| - 1]);
    }
  }
}
