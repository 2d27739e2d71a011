/**
 The transmit half of the InterNiche driver for the OpenCores MAC: the `tosend` and `sending` queues,
 the descriptor indices and the reap and send loops of `eth_ocm_tx_isr`, cut at every access to a
 device register so that the MAC may act between any two of them.
 */
module EthOcmTx {
  import opened MacRing

  const ETHHDR_BIAS := 2
  const ETH_OCM_MIN_MTU := 4
  const ETH_OCM_MAX_MTU := 1518

  /** A packet as handed to `eth_ocm_pkt_send`; `ticket` numbers the submissions. */
  datatype Packet = Packet(ticket: nat, buf: nat, plen: nat)

  /** What the MAC puts on the wire for one descriptor. */
  datatype Sent = Sent(ptr: nat, len: int)

  /** `len` in `eth_ocm_low_send`: an unsigned 32-bit subtraction. */
  function FrameLen(p: Packet): int {
    (p.plen - ETHHDR_BIAS) % 0x1_0000_0000
  }

  predicate LenOk(p: Packet) {
    ETH_OCM_MIN_MTU <= FrameLen(p) <= ETH_OCM_MAX_MTU
  }

  function Frame(p: Packet): Sent {
    Sent(p.buf + ETHHDR_BIAS, FrameLen(p))
  }

  function Frames(ps: seq<Packet>): (r: seq<Sent>)
    ensures |r| == |ps|
  {
    seq(|ps|, i requires 0 <= i < |ps| => Frame(ps[i]))
  }

  /**
   The state: descriptors and the MAC's pointer; the driver's fields; the packet `low_send` holds
   between leaving `tosend` and entering `sending`, and whether its descriptor is armed; the MIB
   counters; and the history of submissions, of packets freed after transmission or at set-up, of the
   wire, and of which frames on it met an error.
   */
  datatype Tx = Tx(
    bds: seq<Bd>, hw: nat,
    cur: nat, next: nat, rdy: bool, sem: bool,
    tosend: seq<Packet>, sending: seq<Packet>, hand: seq<Packet>, armed: bool,
    ucast: nat, discards: nat,
    submitted: seq<Packet>, reaped: seq<Packet>, dropped: seq<Packet>, wire: seq<Sent>,
    errs: seq<bool>)

  /** Where the driver stands in `eth_ocm_tx_isr`; each step makes at most one register access. */
  datatype TxPc = TxIdle | ReapTest | ReapBody | SendTest | LowCheck | LowPtr | LowCtrl | LowDone

  predicate TxWf(t: Tx) {
    t.cur < |t.bds| && t.next < |t.bds|
  }

  function TxInit(n: nat): Tx
    requires n >= 1
  {
    Tx(seq(n, _ => Bd(false, false, false, false, 0, 0)), 0, 0, 0, true, false,
       [], [], [], false, 0, 0, [], [], [], [], [])
  }

  /** The body of the reap loop: take the oldest packet back, count it, free it, advance `cur`. */
  function Reap(t: Tx): Tx
    requires TxWf(t) && t.sending != []
  {
    t.(discards := t.discards + (if t.bds[t.cur].err then 1 else 0),
       ucast := t.ucast + (if t.bds[t.cur].err then 0 else 1),
       reaped := t.reaped + [t.sending[0]], sending := t.sending[1..],
       cur := Bump(t.cur, |t.bds|), rdy := true)
  }

  /** `getq(&tosend)`. */
  function Take(t: Tx): Tx
    requires t.tosend != []
  {
    t.(hand := [t.tosend[0]], tosend := t.tosend[1..])
  }

  /** A failed set-up: count the discard and free the packet. */
  function Drop(t: Tx): Tx {
    t.(discards := t.discards + 1, dropped := t.dropped + t.hand, hand := [])
  }

  /** The descriptor's pointer word, then its control word and the release of `sem`. */
  function WritePtr(t: Tx): Tx
    requires TxWf(t) && t.hand != []
  {
    t.(bds := t.bds[t.next := t.bds[t.next].(ptr := Frame(t.hand[0]).ptr)])
  }

  function WriteCtrl(t: Tx): Tx
    requires TxWf(t) && t.hand != []
  {
    var b := Bd(true, true, t.next == |t.bds| - 1, false, t.bds[t.next].ptr, FrameLen(t.hand[0]));
    t.(bds := t.bds[t.next := b], armed := true, sem := false)
  }

  /** After a successful set-up: advance `next` and queue the packet on `sending`. */
  function Book(t: Tx): Tx
    requires TxWf(t)
  {
    var next := Bump(t.next, |t.bds|);
    t.(next := next, rdy := t.rdy && next != t.cur,
       sending := t.sending + t.hand, hand := [], armed := false)
  }

  /** One step of `eth_ocm_tx_isr`. */
  function TxStep(t: Tx, pc: TxPc): (r: (Tx, TxPc))
    requires TxWf(t)
    ensures TxWf(r.0) && |r.0.bds| == |t.bds|
  {
    match pc
    case TxIdle => (t, TxIdle)
    case ReapTest =>
      if |t.sending| > 0 && (t.cur != t.next || !t.rdy) && !t.bds[t.cur].own then (t, ReapBody) else (t, SendTest)
    case ReapBody => if t.sending == [] then (t, ReapTest) else (Reap(t), ReapTest)
    case SendTest =>
      if t.rdy && |t.tosend| > 0 && !t.bds[t.next].own then (Take(t), LowCheck) else (t, TxIdle)
    case LowCheck =>
      if t.hand == [] then (t, SendTest)
      else if t.sem || !LenOk(t.hand[0]) || t.bds[t.next].own then (Drop(t), SendTest)
      else (t.(sem := true), LowPtr)
    case LowPtr => if t.hand == [] then (t, SendTest) else (WritePtr(t), LowCtrl)
    case LowCtrl => if t.hand == [] then (t, SendTest) else (WriteCtrl(t), LowDone)
    case LowDone => (Book(t), SendTest)
  }

  /** `putq(&tosend, pkt)` of `eth_ocm_pkt_send`, for the next submission. */
  function Submit(t: Tx, buf: nat, plen: nat): (r: Tx)
    ensures TxWf(t) ==> TxWf(r)
  {
    var p := Packet(|t.submitted|, buf, plen);
    t.(tosend := t.tosend + [p], submitted := t.submitted + [p])
  }

  predicate MacCanSend(t: Tx) {
    t.hw < |t.bds| && t.bds[t.hw].own
  }

  /** The MAC transmits the descriptor it stands on, with or without an error. */
  function MacSend(t: Tx, err: bool): (r: Tx)
    requires MacCanSend(t)
    ensures |r.bds| == |t.bds| && (TxWf(t) ==> TxWf(r))
  {
    var (bds, hw) := Finish(t.bds, t.hw, err);
    t.(bds := bds, hw := hw, wire := t.wire + [Sent(t.bds[t.hw].ptr, t.bds[t.hw].len)],
       errs := t.errs + [err])
  }

  // ---- The invariant ----

  /** The packets whose descriptors are in the MAC's window, oldest first. */
  function InFlight(t: Tx): seq<Packet> {
    t.sending + if t.armed then t.hand else []
  }

  /** How many of them the MAC has finished and the driver has not yet taken back. */
  function Finished(t: Tx): int {
    |t.wire| - |t.reaped|
  }

  /** The packets of `ps` whose length check comes out as `ok`, in order. */
  function Select(ps: seq<Packet>, ok: bool): seq<Packet> {
    if ps == [] then []
    else Select(ps[..|ps| - 1], ok) + if LenOk(ps[|ps| - 1]) == ok then [ps[|ps| - 1]] else []
  }

  /** The descriptors from `cur` on carry the packets of `q`, one each and in order. */
  ghost predicate Describes(bds: seq<Bd>, cur: nat, q: seq<Packet>) {
    && cur < |bds| && |q| <= |bds|
    && (forall i :: 0 <= i < |q| ==>
          Sent(bds[Slot(cur, i, |bds|)].ptr, bds[Slot(cur, i, |bds|)].len) == Frame(q[i]))
  }

  /** The indices and the ready flag fit a window of `cnt` queued packets, `q` of them in flight. */
  ghost predicate Ring(bds: seq<Bd>, hw: nat, cur: nat, next: nat, rdy: bool, cnt: nat, q: seq<Packet>, done: int) {
    && 0 <= done && cnt <= |bds| && cur < |bds| && |q| <= |bds|
    && Window(bds, cur, |q|, done, hw)
    && Describes(bds, cur, q)
    && next == Slot(cur, cnt, |bds|)
    && (rdy <==> cnt < |bds|)
  }

  ghost predicate TxRing(t: Tx) {
    Ring(t.bds, t.hw, t.cur, t.next, t.rdy, |t.sending|, InFlight(t), Finished(t))
  }

  /** Where the submitted packets are: the valid ones leave in order through `sending`, the others as dropped. */
  ghost predicate Books(submitted: seq<Packet>, reaped: seq<Packet>, dropped: seq<Packet>, sending: seq<Packet>,
                        rest: seq<Packet>) {
    && reaped + sending + Select(rest, true) == Select(submitted, true)
    && dropped + Select(rest, false) == Select(submitted, false)
  }

  /** The wire carries the reaped packets and then the finished ones of those in flight. */
  ghost predicate WireIs(wire: seq<Sent>, reaped: seq<Packet>, q: seq<Packet>, done: int) {
    0 <= done <= |q| && wire == Frames(reaped + q[..done])
  }

  ghost predicate TxBooks(t: Tx) {
    && (forall i :: 0 <= i < |t.submitted| ==> t.submitted[i].ticket == i)
    && Books(t.submitted, t.reaped, t.dropped, t.sending, t.hand + t.tosend)
    && t.ucast + t.discards == |t.reaped| + |t.dropped|
    && WireIs(t.wire, t.reaped, InFlight(t), Finished(t))
  }

  /** How often `v` is in `bs`. */
  function CountOf(bs: seq<bool>, v: bool): nat {
    if bs == [] then 0 else CountOf(bs[..|bs| - 1], v) + if bs[|bs| - 1] == v then 1 else 0
  }

  /** The finished descriptors still show what the frames behind the first `taken` met. */
  ghost predicate Faults(bds: seq<Bd>, cur: nat, errs: seq<bool>, taken: nat, done: int) {
    && cur < |bds| && 0 <= done <= |bds| && |errs| == taken + done
    && (forall i :: 0 <= i < done ==> bds[Slot(cur, i, |bds|)].err == errs[taken + i])
  }

  /** Which counter each freed packet went to. */
  ghost predicate Counted(ucast: nat, discards: nat, errs: seq<bool>, taken: nat, dropped: nat) {
    && taken <= |errs| && ucast == CountOf(errs[..taken], false)
    && discards == dropped + CountOf(errs[..taken], true)
  }

  ghost predicate TxFaults(t: Tx) {
    && Faults(t.bds, t.cur, t.errs, |t.reaped|, Finished(t))
    && Counted(t.ucast, t.discards, t.errs, |t.reaped|, |t.dropped|)
  }

  /** What holds at each point of `eth_ocm_tx_isr`. */
  ghost predicate TxAt(t: Tx, pc: TxPc) {
    && (pc in {LowCheck, LowPtr, LowCtrl, LowDone} <==> t.hand != [])
    && (t.hand != [] ==> |t.hand| == 1 && t.rdy)
    && (t.sem <==> pc in {LowPtr, LowCtrl})
    && (t.armed <==> pc == LowDone)
    && (pc in {LowPtr, LowCtrl, LowDone} ==> LenOk(t.hand[0]))
    && (pc == ReapBody ==> Finished(t) > 0)
    && (pc == LowCtrl ==> t.next < |t.bds| && t.bds[t.next].ptr == Frame(t.hand[0]).ptr)
    && (pc == TxIdle ==> t.tosend == [] || |t.sending| == |t.bds|)
  }

  ghost predicate TxInv(t: Tx, pc: TxPc) {
    && TxWf(t) && 0 <= Finished(t) <= |InFlight(t)| <= |t.bds| && (t.rdy <==> |t.sending| < |t.bds|)
    && TxRing(t) && TxBooks(t) && TxFaults(t) && TxAt(t, pc)
  }

  // ---- How the packets move between the books ----

  lemma {:induction false} SelectAppend(a: seq<Packet>, b: seq<Packet>, ok: bool)
    ensures Select(a + b, ok) == Select(a, ok) + Select(b, ok)
    decreases |b|
  {
    if b == [] {
      assert a + b == a;
    } else {
      var b' := b[..|b| - 1];
      assert (a + b)[..|a + b| - 1] == a + b';
      SelectAppend(a, b', ok);
    }
  }

  lemma SelectOne(p: Packet, ok: bool)
    ensures Select([p], ok) == if LenOk(p) == ok then [p] else []
  {
    assert [p][..0] == [];
    assert Select([], ok) == [];
  }

  lemma SelectHand(p: Packet, tosend: seq<Packet>, ok: bool)
    ensures Select([p] + tosend, ok) == (if LenOk(p) == ok then [p] else []) + Select(tosend, ok)
  {
    SelectAppend([p], tosend, ok);
    SelectOne(p, ok);
  }

  lemma BooksSubmit(sub: seq<Packet>, reaped: seq<Packet>, dropped: seq<Packet>, sending: seq<Packet>,
                    rest: seq<Packet>, p: Packet)
    requires Books(sub, reaped, dropped, sending, rest)
    ensures Books(sub + [p], reaped, dropped, sending, rest + [p])
  {
    SelectAppend(rest, [p], true);
    SelectAppend(rest, [p], false);
    SelectAppend(sub, [p], true);
    SelectAppend(sub, [p], false);
    hide Select;
    Assoc(reaped + sending, Select(rest, true), Select([p], true));
    Assoc(dropped, Select(rest, false), Select([p], false));
  }

  lemma Assoc<T>(a: seq<T>, b: seq<T>, c: seq<T>)
    ensures a + (b + c) == a + b + c
  {
  }

  lemma BooksLeave(sub: seq<Packet>, reaped: seq<Packet>, dropped: seq<Packet>, sending: seq<Packet>,
                   p: Packet, tosend: seq<Packet>)
    requires Books(sub, reaped, dropped, sending, [p] + tosend)
    ensures if LenOk(p) then Books(sub, reaped, dropped, sending + [p], tosend)
            else Books(sub, reaped, dropped + [p], sending, tosend)
  {
    SelectHand(p, tosend, true);
    SelectHand(p, tosend, false);
    hide Select;
    Assoc(reaped, sending, [p]);
    Assoc(reaped + sending, [p], Select(tosend, true));
    Assoc(dropped, [p], Select(tosend, false));
  }

  lemma BooksReap(sub: seq<Packet>, reaped: seq<Packet>, dropped: seq<Packet>, sending: seq<Packet>, rest: seq<Packet>)
    requires Books(sub, reaped, dropped, sending, rest) && sending != []
    ensures Books(sub, reaped + [sending[0]], dropped, sending[1..], rest)
  {
    hide Select;
    assert reaped + [sending[0]] + sending[1..] == reaped + sending;
  }

  lemma WireReap(wire: seq<Sent>, reaped: seq<Packet>, q: seq<Packet>, done: int)
    requires WireIs(wire, reaped, q, done) && done > 0
    ensures WireIs(wire, reaped + [q[0]], q[1..], done - 1)
  {
    assert reaped + [q[0]] + q[1..][..done - 1] == reaped + q[..done];
  }

  lemma WireSend(wire: seq<Sent>, reaped: seq<Packet>, q: seq<Packet>, done: int)
    requires WireIs(wire, reaped, q, done) && done < |q|
    ensures WireIs(wire + [Frame(q[done])], reaped, q, done + 1)
  {
    assert reaped + q[..done + 1] == reaped + q[..done] + [q[done]];
  }

  lemma WirePush(wire: seq<Sent>, reaped: seq<Packet>, q: seq<Packet>, done: int, p: Packet)
    requires WireIs(wire, reaped, q, done)
    ensures WireIs(wire, reaped, q + [p], done)
  {
    assert (q + [p])[..done] == q[..done];
  }

  // ---- How the errors are counted ----

  lemma FaultsReap(bds: seq<Bd>, cur: nat, errs: seq<bool>, taken: nat, done: int)
    requires Faults(bds, cur, errs, taken, done) && done > 0
    ensures taken < |errs| && bds[cur].err == errs[taken]
    ensures Faults(bds, Slot(cur, 1, |bds|), errs, taken + 1, done - 1)
  {
    var n := |bds|;
    assert Slot(cur, 0, n) == cur;
    forall i | 0 <= i < done - 1
      ensures bds[Slot(Slot(cur, 1, n), i, n)].err == errs[taken + 1 + i]
    {
      assert Slot(Slot(cur, 1, n), i, n) == Slot(cur, i + 1, n);
    }
  }

  lemma CountedReap(ucast: nat, discards: nat, errs: seq<bool>, taken: nat, dropped: nat)
    requires Counted(ucast, discards, errs, taken, dropped) && taken < |errs|
    ensures Counted(ucast + (if errs[taken] then 0 else 1), discards + (if errs[taken] then 1 else 0),
                    errs, taken + 1, dropped)
  {
    assert errs[..taken + 1][..taken] == errs[..taken];
  }

  lemma FaultsSend(bds: seq<Bd>, cur: nat, errs: seq<bool>, taken: nat, done: int, hw: nat, err: bool)
    requires Faults(bds, cur, errs, taken, done) && done < |bds| && hw == Slot(cur, done, |bds|)
    ensures Faults(Finish(bds, hw, err).0, cur, errs + [err], taken, done + 1)
  {
  }

  lemma CountedSend(ucast: nat, discards: nat, errs: seq<bool>, taken: nat, dropped: nat, err: bool)
    requires Counted(ucast, discards, errs, taken, dropped)
    ensures Counted(ucast, discards, errs + [err], taken, dropped)
  {
    assert (errs + [err])[..taken] == errs[..taken];
  }

  lemma FaultsWrite(bds: seq<Bd>, cur: nat, errs: seq<bool>, taken: nat, done: int, cnt: nat, b: Bd)
    requires Faults(bds, cur, errs, taken, done) && done <= cnt < |bds|
    ensures Faults(bds[Slot(cur, cnt, |bds|) := b], cur, errs, taken, done)
  {
  }

  // ---- How the ring moves ----

  lemma DescribesPop(bds: seq<Bd>, cur: nat, q: seq<Packet>)
    requires Describes(bds, cur, q) && q != []
    ensures Describes(bds, Slot(cur, 1, |bds|), q[1..])
  {
    var n := |bds|;
    forall i | 0 <= i < |q| - 1
      ensures Slot(Slot(cur, 1, n), i, n) == Slot(cur, i + 1, n)
    {
    }
  }

  lemma RingPop(bds: seq<Bd>, hw: nat, cur: nat, next: nat, rdy: bool, q: seq<Packet>, done: int)
    requires Ring(bds, hw, cur, next, rdy, |q|, q, done) && 0 < done <= |q|
    ensures Ring(bds, hw, Slot(cur, 1, |bds|), next, true, |q| - 1, q[1..], done - 1)
  {
    hide Window, Describes;
    WindowPop(bds, cur, |q|, done, hw);
    DescribesPop(bds, cur, q);
  }

  lemma RingFinish(bds: seq<Bd>, hw: nat, cur: nat, next: nat, rdy: bool, cnt: nat, q: seq<Packet>, done: int,
                   err: bool)
    requires Ring(bds, hw, cur, next, rdy, cnt, q, done) && hw < |bds| && bds[hw].own
    ensures done < |q| && Frame(q[done]) == Sent(bds[hw].ptr, bds[hw].len) && hw == Slot(cur, done, |bds|)
    ensures Ring(Finish(bds, hw, err).0, Finish(bds, hw, err).1, cur, next, rdy, cnt, q, done + 1)
  {
    WindowFinish(bds, cur, |q|, done, hw, err);
  }

  lemma RingPtr(bds: seq<Bd>, hw: nat, cur: nat, next: nat, rdy: bool, q: seq<Packet>, done: int, b: Bd)
    requires Ring(bds, hw, cur, next, rdy, |q|, q, done) && rdy && !b.own
    ensures Ring(bds[next := b], hw, cur, next, rdy, |q|, q, done)
  {
    assert Dist(cur, next, |bds|) == |q|;
    WindowFrame(bds, cur, |q|, done, hw, next, b);
  }

  lemma RingPush(bds: seq<Bd>, hw: nat, cur: nat, next: nat, rdy: bool, q: seq<Packet>, done: int, p: Packet, b: Bd)
    requires Ring(bds, hw, cur, next, rdy, |q|, q, done) && rdy
    requires b.own && b.irq && (b.wrap <==> next == |bds| - 1) && Sent(b.ptr, b.len) == Frame(p)
    ensures Ring(bds[next := b], hw, cur, next, rdy, |q|, q + [p], done)
  {
    WindowPush(bds, cur, |q|, done, hw, b);
  }

  // ---- Preservation ----

  lemma TxInitInv(n: nat)
    requires n >= 1
    ensures TxInv(TxInit(n), TxIdle)
  {
  }

  lemma SubmitKeeps(t: Tx, buf: nat, plen: nat)
    requires TxInv(t, TxIdle)
    ensures TxInv(Submit(t, buf, plen), ReapTest)
  {
    hide Ring, Books, WireIs, Faults, Counted;
    var t' := Submit(t, buf, plen);
    var p := Packet(|t.submitted|, buf, plen);
    assert InFlight(t') == InFlight(t) && t'.hand + t'.tosend == t.hand + t.tosend + [p];
    BooksSubmit(t.submitted, t.reaped, t.dropped, t.sending, t.hand + t.tosend, p);
  }

  /** The MAC transmitting a descriptor keeps the transmit invariant wherever the driver stands. */
  lemma MacSendKeeps(t: Tx, pc: TxPc, err: bool)
    requires TxInv(t, pc) && MacCanSend(t)
    ensures TxInv(MacSend(t, err), pc)
    ensures Finished(MacSend(t, err)) == Finished(t) + 1
  {
    hide Ring, Books, WireIs, Describes, Faults, Counted;
    assert InFlight(MacSend(t, err)) == InFlight(t);
    RingFinish(t.bds, t.hw, t.cur, t.next, t.rdy, |t.sending|, InFlight(t), Finished(t), err);
    WireSend(t.wire, t.reaped, InFlight(t), Finished(t));
    FaultsSend(t.bds, t.cur, t.errs, |t.reaped|, Finished(t), t.hw, err);
    CountedSend(t.ucast, t.discards, t.errs, |t.reaped|, |t.dropped|, err);
  }

  /** The descriptor `next` points at is never owned by the MAC while the ring is not full. */
  lemma NextIsFree(t: Tx, pc: TxPc)
    requires TxInv(t, pc) && t.rdy && pc != LowDone
    ensures !t.bds[t.next].own
  {
    hide Books, WireIs, Describes, Faults, Counted;
    assert InFlight(t) == t.sending;
    assert Dist(t.cur, t.next, |t.bds|) == |t.sending|;
  }

  lemma NextSlot(t: Tx, pc: TxPc)
    requires TxInv(t, pc)
    ensures t.next == Slot(t.cur, |t.sending|, |t.bds|)
  {
    hide Window, Describes, Books, WireIs, Faults, Counted;
  }

  lemma ReapTestKeeps(t: Tx)
    requires TxInv(t, ReapTest)
    ensures var (t', pc') := TxStep(t, ReapTest); TxInv(t', pc') && (pc' == SendTest ==> Finished(t) == 0)
  {
    hide Books, WireIs, Describes, Faults, Counted;
    assert InFlight(t) == t.sending;
    if |t.sending| > 0 {
      WindowHead(t.bds, t.cur, |t.sending|, Finished(t), t.hw);
    }
  }

  lemma ReapKeeps(t: Tx)
    requires TxInv(t, ReapBody)
    ensures t.sending != [] && TxInv(Reap(t), ReapTest)
  {
    hide Ring, Books, WireIs, Faults, Counted;
    assert InFlight(t) == t.sending && InFlight(Reap(t)) == t.sending[1..];
    FaultsReap(t.bds, t.cur, t.errs, |t.reaped|, Finished(t));
    CountedReap(t.ucast, t.discards, t.errs, |t.reaped|, |t.dropped|);
    RingPop(t.bds, t.hw, t.cur, t.next, t.rdy, t.sending, Finished(t));
    BooksReap(t.submitted, t.reaped, t.dropped, t.sending, t.hand + t.tosend);
    WireReap(t.wire, t.reaped, t.sending, Finished(t));
  }

  lemma TakeKeeps(t: Tx)
    requires TxInv(t, SendTest) && t.rdy && t.tosend != []
    ensures TxInv(Take(t), LowCheck)
  {
    hide Ring, Books, WireIs, Faults, Counted;
    assert InFlight(Take(t)) == InFlight(t);
    assert Take(t).hand + Take(t).tosend == t.hand + t.tosend;
  }

  lemma DropKeeps(t: Tx)
    requires TxInv(t, LowCheck) && !LenOk(t.hand[0])
    ensures TxInv(Drop(t), SendTest)
  {
    hide Ring, Books, WireIs, Faults;
    assert InFlight(Drop(t)) == InFlight(t);
    assert t.hand == [t.hand[0]] && Drop(t).hand + Drop(t).tosend == t.tosend;
    BooksLeave(t.submitted, t.reaped, t.dropped, t.sending, t.hand[0], t.tosend);
  }

  lemma LockKeeps(t: Tx)
    requires TxInv(t, LowCheck) && LenOk(t.hand[0])
    ensures TxInv(t.(sem := true), LowPtr)
  {
    hide Ring, Books, WireIs, Faults, Counted;
    assert InFlight(t.(sem := true)) == InFlight(t);
  }

  lemma WritePtrKeeps(t: Tx)
    requires TxInv(t, LowPtr)
    ensures TxInv(WritePtr(t), LowCtrl)
  {
    NextIsFree(t, LowPtr);
    hide Ring, Books, WireIs, Faults, Counted;
    NextSlot(t, LowPtr);
    FaultsWrite(t.bds, t.cur, t.errs, |t.reaped|, Finished(t), |t.sending|, WritePtr(t).bds[t.next]);
    assert InFlight(t) == t.sending == InFlight(WritePtr(t));
    RingPtr(t.bds, t.hw, t.cur, t.next, t.rdy, t.sending, Finished(t), WritePtr(t).bds[t.next]);
  }

  lemma WriteCtrlKeeps(t: Tx)
    requires TxInv(t, LowCtrl)
    ensures TxInv(WriteCtrl(t), LowDone)
  {
    hide Ring, Books, WireIs, Faults, Counted;
    var p := t.hand[0];
    NextSlot(t, LowCtrl);
    FaultsWrite(t.bds, t.cur, t.errs, |t.reaped|, Finished(t), |t.sending|, WriteCtrl(t).bds[t.next]);
    assert InFlight(t) == t.sending && InFlight(WriteCtrl(t)) == t.sending + [p];
    RingPush(t.bds, t.hw, t.cur, t.next, t.rdy, t.sending, Finished(t), p, WriteCtrl(t).bds[t.next]);
    WirePush(t.wire, t.reaped, t.sending, Finished(t), p);
  }

  lemma BookKeeps(t: Tx)
    requires TxInv(t, LowDone)
    ensures TxInv(Book(t), SendTest)
  {
    hide Window, Describes, Books, WireIs, Faults, Counted;
    assert t.hand == [t.hand[0]] && Book(t).hand + Book(t).tosend == t.tosend;
    assert InFlight(Book(t)) == Book(t).sending == InFlight(t);
    BooksLeave(t.submitted, t.reaped, t.dropped, t.sending, t.hand[0], t.tosend);
  }

  /** Every step of `eth_ocm_tx_isr` keeps the transmit invariant. */
  lemma TxStepKeeps(t: Tx, pc: TxPc)
    requires TxInv(t, pc)
    ensures var (t', pc') := TxStep(t, pc); TxInv(t', pc')
    ensures var (t', pc') := TxStep(t, pc); pc == ReapTest && pc' == SendTest ==> Finished(t') == 0
  {
    hide TxRing, TxBooks, TxFaults;
    match pc
    case TxIdle =>
    case ReapTest => ReapTestKeeps(t);
    case ReapBody => ReapKeeps(t);
    case SendTest =>
      if t.rdy {
        NextIsFree(t, pc);
        if t.tosend != [] {
          TakeKeeps(t);
        }
      }
    case LowCheck =>
      NextIsFree(t, pc);
      if LenOk(t.hand[0]) {
        LockKeeps(t);
      } else {
        DropKeeps(t);
      }
    case LowPtr => WritePtrKeeps(t);
    case LowCtrl => WriteCtrlKeeps(t);
    case LowDone => BookKeeps(t);
  }
}
