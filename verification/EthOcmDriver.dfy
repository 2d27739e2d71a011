/**
 The driver's routines as the imperative code they are. `tx` and `rx` hold the device's registers, the
 driver's own fields and the history; `src` is `int_source`. Between any two register accesses the
 rest of the world may act: the MAC on both rings and on `int_source`, and the stack on `rcvdq`.
 `world` says what it does at each such point; it is arbitrary, so what is proved holds for every
 interleaving. The ghost fields say where the driver stands in the transition system `EthOcm`: every
 access is one of its steps, so whatever holds of every run there holds of this code.
 */
module EthOcmDriver {
  import opened Options
  import opened MacRing
  import opened EthOcmTx
  import opened EthOcmRx
  import opened EthOcm
  import opened EthOcmTheorems

  const ENP_NOBUFFER := -21
  const ENP_RESOURCE := -22
  const EFBIG := 27
  const EBUSY := 16

  function Size(w: seq<seq<Action>>): nat {
    if w == [] then 0 else |w[0]| + Size(w[1..])
  }

  /** What the driver keeps for itself: everything but the registers, the wire and the memory. */
  function TxSoft(t: Tx): Tx {
    t.(bds := [], hw := 0, wire := [], errs := [])
  }

  function RxSoft(r: Rx): Rx {
    r.(bds := [], hw := 0, mem := map[], rcvdq := [], arrived := [], raised := 0)
  }

  predicate IsWorld(a: Action) {
    a.DoMacSend? || a.DoMacFill? || a.MacBusy? || a.DoStackTake?
  }

  /** The actions of the rest of the world in a batch, one after the other. */
  function WorldRun(s: State, acts: seq<Action>): (s': State)
    requires Wf(s)
    ensures Wf(s')
  {
    if acts == [] then s
    else
      var s', a := WorldRun(s, acts[..|acts| - 1]), acts[|acts| - 1];
      if IsWorld(a) then Step(s', a) else s'
  }

  function NextBatch(world: seq<seq<Action>>): seq<Action> {
    if world == [] then [] else world[0]
  }

  /** What `pk_alloc` answers next: a buffer nobody holds, or none. */
  function Answer(allocs: seq<Option<nat>>, r: Rx): Option<nat> {
    if allocs != [] && allocs[0].Some? && Free(r, allocs[0].value) then allocs[0] else None
  }

  ghost predicate Good(s: State) {
    Wf(s) && Inv(s) && Reached(s)
  }

  lemma GoodStep(s: State, a: Action)
    requires Wf(s) && Good(s)
    ensures Good(Step(s, a))
  {
    hide Inv;
    StepKeeps(s, a);
    var n: nat, bufs: seq<nat>, acts: seq<Action> :|
      n >= 1 && bufs != [] && Distinct(bufs) && s == Run(Init(n, bufs), acts);
    assert (acts + [a])[..|acts|] == acts;
    assert Step(s, a) == Run(Init(n, bufs), acts + [a]);
  }

  /** The driver's step at its current place. */
  lemma GoodSw(s: State, alloc: Option<nat>)
    requires Wf(s) && Good(s)
    ensures Good(SwStep(s, alloc))
  {
    GoodStep(s, Sw(alloc));
  }

  /** The same, inside `eth_ocm_tx_isr` and inside `eth_ocm_rx_isr`. */
  lemma GoodTx(s: State)
    requires Wf(s) && Good(s) && (s.pc == PktSend || s.pc == IsrTx) && s.tpc != TxIdle
    ensures Good(s.(tx := TxStep(s.tx, s.tpc).0, tpc := TxStep(s.tx, s.tpc).1))
  {
    hide Good;
    GoodSw(s, None);
  }

  lemma GoodRx(s: State, alloc: Option<nat>)
    requires Wf(s) && Good(s) && s.pc.IsrRx? && s.rpc != RxIdle
    ensures Good(s.(rx := RxStep(s.rx, s.rpc, alloc).0, rpc := RxStep(s.rx, s.rpc, alloc).1))
  {
    hide Good;
    GoodSw(s, alloc);
  }

  /**
   `eth_ocm_read_init`, with what `pk_alloc` answers for each descriptor: it arms the descriptors in turn
   until one finds no buffer or is not free. When it succeeds, what it leaves is what the driver starts
   from; when it fails, it says why, and the descriptors before that one are armed.
   */
  method ReadInit(start: seq<Bd>, answers: seq<Option<nat>>)
    returns (result: int, count: nat, bds: seq<Bd>, pkts: seq<nat>)
    requires |answers| == |start| > 0
    ensures count == |pkts| <= |start| == |bds|
    ensures forall j :: 0 <= j < count ==> answers[j] == Some(pkts[j]) && !start[j].own
    ensures forall j :: 0 <= j < |bds| ==> bds[j] == if j < count then Armed(j, |bds|, Ptr(pkts[j])) else start[j]
    ensures count < |start| ==> result == if answers[count].None? then ENP_NOBUFFER else ENP_RESOURCE
    ensures count < |start| ==> answers[count].None? || start[count].own
    ensures count == |start| ==> result == 0 && bds == RxInit(pkts).bds
  {
    result, count, bds, pkts := 0, 0, start, [];
    while count < |start|
      invariant count == |pkts| <= |start| == |bds| && result == 0
      invariant forall j :: 0 <= j < count ==> answers[j] == Some(pkts[j]) && !start[j].own
      invariant forall j :: 0 <= j < |bds| ==> bds[j] == if j < count then Armed(j, |bds|, Ptr(pkts[j])) else start[j]
    {
      if answers[count].None? {
        return ENP_NOBUFFER, count, bds, pkts;
      }
      if bds[count].own {
        return ENP_RESOURCE, count, bds, pkts;
      }
      var buf := answers[count].value;
      bds := bds[count := Bd(true, true, count == |start| - 1, false, buf + ETHHDR_BIAS, 0)];
      pkts := pkts + [buf];
      count := count + 1;
    }
  }

  class Driver {
    var tx: Tx
    var rx: Rx
    var src: Src
    /** What the rest of the world will do, batch by batch, and what the allocator will answer. */
    var world: seq<seq<Action>>
    var allocs: seq<Option<nat>>

    ghost var tpc: TxPc
    ghost var rpc: RxPc
    ghost var pc: Pc

    ghost function S(): State
      reads this
    {
      State(tx, tpc, rx, rpc, src, pc)
    }

    ghost predicate Valid()
      reads this
    {
      Wf(S()) && Good(S())
    }

    /** Nothing the driver keeps for itself has changed, and the histories have only grown. */
    twostate predicate OnlyWorld()
      reads this
    {
      && TxSoft(tx) == TxSoft(old(tx)) && RxSoft(rx) == RxSoft(old(rx))
      && |tx.bds| == |old(tx).bds| && |rx.bds| == |old(rx).bds|
      && Size(world) + |rx.arrived| <= old(Size(world) + |rx.arrived|)
    }

    /** The world has only moved forward: histories grew, and any new flag used up part of its schedule. */
    twostate predicate Later()
      reads this
    {
      && old(tx).wire <= tx.wire && old(rx).arrived <= rx.arrived
      && Size(world) <= old(Size(world))
      && (src != old(src) ==> Size(world) < old(Size(world)))
    }

    /** Starting the driver: cleared transmit descriptors, and a buffer of its own for every receive one. */
    constructor (n: nat, bufs: seq<nat>, world: seq<seq<Action>>, allocs: seq<Option<nat>>)
      requires n >= 1 && bufs != [] && Distinct(bufs)
      ensures Valid() && S() == Init(n, bufs) && this.world == world && this.allocs == allocs
    {
      var txd := [];
      for i := 0 to n
        invariant txd == seq(i, _ => Bd(false, false, false, false, 0, 0))
      {
        txd := txd + [Bd(false, false, false, false, 0, 0)];
      }
      var rxd := [];
      for i := 0 to |bufs|
        invariant rxd == RxInit(bufs).bds[..i]
      {
        rxd := rxd + [Bd(true, true, i == |bufs| - 1, false, bufs[i] + ETHHDR_BIAS, 0)];
      }
      tx := Tx(txd, 0, 0, 0, true, false, [], [], [], false, 0, 0, [], [], [], [], []);
      rx := Rx(rxd, 0, 0, 0, bufs, [], map[], 0, false, [], [], [], [], 0, 0);
      src := Src(false, false, false, false, false);
      this.world, this.allocs, tpc, rpc, pc := world, allocs, TxIdle, RxIdle, Idle;
      new;
      assert Run(Init(n, bufs), []) == S();
      Reachable(n, bufs, []);
    }

    method MacSends(err: bool)
      requires Valid()
      modifies this`tx, this`src
      ensures Valid() && S() == Step(old(S()), DoMacSend(err))
    {
      hide Good;
      GoodStep(S(), DoMacSend(err));
      if tx.hw < |tx.bds| && tx.bds[tx.hw].own {
        var b := tx.bds[tx.hw];
        src := src.(txb := src.txb || (b.irq && !err), txe := src.txe || (b.irq && err));
        tx := tx.(bds := tx.bds[tx.hw := b.(own := false, err := err)], hw := if b.wrap then 0 else tx.hw + 1,
                  wire := tx.wire + [Sent(b.ptr, b.len)], errs := tx.errs + [err]);
      }
    }

    method MacFills(f: RxFrame)
      requires Valid()
      modifies this`rx, this`src
      ensures Valid() && S() == Step(old(S()), DoMacFill(f))
    {
      hide Good;
      GoodStep(S(), DoMacFill(f));
      if rx.hw < |rx.bds| && rx.bds[rx.hw].own {
        var b := rx.bds[rx.hw];
        src := src.(rxb := src.rxb || (b.irq && !f.bad), rxe := src.rxe || (b.irq && f.bad));
        rx := rx.(bds := rx.bds[rx.hw := b.(own := false, err := f.bad)], hw := if b.wrap then 0 else rx.hw + 1,
                  mem := rx.mem[b.ptr := f], arrived := rx.arrived + [f]);
      }
    }

    /** One action of the rest of the world. */
    method Act(a: Action)
      requires Valid() && IsWorld(a)
      modifies this`tx, this`rx, this`src
      ensures Valid() && S() == Step(old(S()), a)
    {
      hide Good;
      match a
      case DoMacSend(err) => MacSends(err);
      case DoMacFill(f) => MacFills(f);
      case MacBusy =>
        GoodStep(S(), a);
        if !(rx.hw < |rx.bds| && rx.bds[rx.hw].own) {
          rx := rx.(raised := rx.raised + if src.busy then 0 else 1);
          src := src.(busy := true);
        }
      case DoStackTake =>
        GoodStep(S(), a);
        if rx.rcvdq != [] {
          rx := rx.(rcvdq := rx.rcvdq[1..]);
        }
    }

    /** The rest of the world acts, for as long as its next batch says. */
    method Other()
      requires Valid()
      modifies this`tx, this`rx, this`src, this`world
      ensures Valid() && OnlyWorld() && Later()
    {
      hide Good, Step;
      RunBatch();
    }

    /** The same, with what it does. */
    method RunBatch()
      requires Valid()
      modifies this`tx, this`rx, this`src, this`world
      ensures Valid() && OnlyWorld() && Later()
      ensures S() == WorldRun(old(S()), NextBatch(old(world)))
    {
      hide Good, Step;
      if world == [] {
        return;
      }
      var batch := world[0];
      world := world[1..];
      for i := 0 to |batch|
        invariant Valid() && world == old(world)[1..]
        invariant TxSoft(tx) == TxSoft(old(tx)) && RxSoft(rx) == RxSoft(old(rx))
        invariant |tx.bds| == |old(tx).bds| && |rx.bds| == |old(rx).bds|
        invariant old(tx).wire <= tx.wire && old(rx).arrived <= rx.arrived
        invariant |rx.arrived| <= |old(rx).arrived| + i
        invariant i == 0 ==> src == old(src)
        invariant S() == WorldRun(old(S()), batch[..i])
      {
        assert batch[..i + 1][..i] == batch[..i];
        if IsWorld(batch[i]) {
          WorldSoft(S(), batch[i]);
          Act(batch[i]);
        }
      }
      assert batch[..|batch|] == batch;
    }

    /**
     `eth_ocm_low_send`: 0 when the descriptor is armed, with pointer and length past the header bias. A
     failure means the length is out of range: the nested call and the busy descriptor never happen.
     */
    method LowSend(p: Packet) returns (result: int)
      requires Valid() && tpc == LowCheck && tx.hand == [p] && (pc == PktSend || pc == IsrTx)
      modifies this`tx, this`rx, this`src, this`world, this`tpc
      ensures Valid()
      ensures result == 0 <==> LenOk(p)
      ensures tpc == (if result == 0 then LowDone else LowCheck)
      ensures result == 0 ==> Carries(tx.bds[tx.next], p)
      ensures TxSoft(tx) == TxSoft(old(tx)).(armed := result == 0) && RxSoft(rx) == RxSoft(old(rx))
      ensures |tx.bds| == |old(tx).bds|
      ensures Later()
    {
      hide Good, SwStep;
      Other();
      LowCheckFacts(S());
      if tx.sem {
        return ENP_RESOURCE;
      }
      result := 0;
      if FrameLen(p) < ETH_OCM_MIN_MTU {
        result := -1;
      }
      if FrameLen(p) > ETH_OCM_MAX_MTU {
        result := -EFBIG;
      }
      if tx.bds[tx.next].own {
        result := -EBUSY;
      }
      if result == 0 {
        GoodTx(S());
        tx, tpc := tx.(sem := true), LowPtr;
        LowArm(p);
        LowDoneFacts(S());
      }
    }

    /** The two register writes of `eth_ocm_low_send`, pointer first, and the release of `sem`. */
    method LowArm(p: Packet)
      requires Valid() && tpc == LowPtr && tx.hand == [p] && (pc == PktSend || pc == IsrTx)
      modifies this`tx, this`rx, this`src, this`world, this`tpc
      ensures Valid() && tpc == LowDone
      ensures TxSoft(tx) == TxSoft(old(tx)).(armed := true, sem := false) && RxSoft(rx) == RxSoft(old(rx))
      ensures |tx.bds| == |old(tx).bds|
      ensures Later()
    {
      hide Good, SwStep;
      Other();
      GoodTx(S());
      tx, tpc := tx.(bds := tx.bds[tx.next := tx.bds[tx.next].(ptr := p.buf + ETHHDR_BIAS)]), LowCtrl;
      Other();
      GoodTx(S());
      var ctrl := Bd(true, true, tx.next == |tx.bds| - 1, false, tx.bds[tx.next].ptr, FrameLen(p));
      tx, tpc := tx.(bds := tx.bds[tx.next := ctrl], armed := true, sem := false), LowDone;
    }

    /** The reap loop of `eth_ocm_tx_isr`. */
    method ReapLoop()
      requires Valid() && tpc == ReapTest && (pc == PktSend || pc == IsrTx)
      modifies this`tx, this`rx, this`src, this`world, this`tpc
      ensures Valid() && tpc == SendTest
      ensures RxSoft(rx) == RxSoft(old(rx)) && tx.submitted == old(tx).submitted
      ensures |old(tx).wire| <= |tx.reaped|
      ensures Later()
    {
      hide Good, SwStep;
      Other();
      while tx.sending != [] && (tx.cur != tx.next || !tx.rdy) && !tx.bds[tx.cur].own
        invariant Valid() && tpc == ReapTest
        invariant RxSoft(rx) == RxSoft(old(rx)) && tx.submitted == old(tx).submitted
        invariant Later()
        decreases |tx.sending|
      {
        ReapOne();
        Other();
      }
      ReapedAll(S());
      GoodTx(S());
      tpc := SendTest;
    }

    /** The body of the reap loop, for a finished descriptor. */
    method ReapOne()
      requires Valid() && tpc == ReapTest && (pc == PktSend || pc == IsrTx)
      requires tx.sending != [] && (tx.cur != tx.next || !tx.rdy) && !tx.bds[tx.cur].own
      modifies this`tx, this`rx, this`src, this`world, this`tpc
      ensures Valid() && tpc == ReapTest
      ensures RxSoft(rx) == RxSoft(old(rx)) && tx.submitted == old(tx).submitted && tx.sending == old(tx).sending[1..]
      ensures tx.reaped == old(tx).reaped + [old(tx).sending[0]]
      ensures Later()
    {
      hide Good, SwStep;
      GoodTx(S());
      tpc := ReapBody;
      Other();
      ReapCount();
    }

    /** Count the packet, free it, advance `cur_tx_desc`. */
    method ReapCount()
      requires Valid() && tpc == ReapBody && (pc == PktSend || pc == IsrTx) && tx.sending != []
      modifies this`tx, this`tpc
      ensures Valid() && tpc == ReapTest
      ensures tx == Reap(old(tx))
    {
      hide Good, SwStep;
      GoodTx(S());
      if tx.bds[tx.cur].err {
        tx := tx.(discards := tx.discards + 1);
      } else {
        tx := tx.(ucast := tx.ucast + 1);
      }
      var cur := tx.cur + 1;
      if cur == |tx.bds| {
        cur := 0;
      }
      tx := tx.(reaped := tx.reaped + [tx.sending[0]], sending := tx.sending[1..], cur := cur, rdy := true);
      tpc := ReapTest;
    }

    /** The send loop of `eth_ocm_tx_isr`: on return nothing waits, or every descriptor is in flight. */
    method SendLoop()
      requires Valid() && tpc == SendTest && (pc == PktSend || pc == IsrTx)
      modifies this`tx, this`rx, this`src, this`world, this`tpc
      ensures Valid() && tpc == TxIdle
      ensures RxSoft(rx) == RxSoft(old(rx)) && tx.submitted == old(tx).submitted
      ensures tx.reaped == old(tx).reaped
      ensures tx.tosend == [] || |tx.sending| == |tx.bds|
      ensures Later()
    {
      hide Good, SwStep;
      Other();
      while tx.rdy && tx.tosend != [] && !tx.bds[tx.next].own
        invariant Valid() && tpc == SendTest
        invariant RxSoft(rx) == RxSoft(old(rx)) && tx.submitted == old(tx).submitted
        invariant tx.reaped == old(tx).reaped
        invariant Later()
        decreases |tx.tosend|
      {
        SendOne();
        Other();
      }
      GoodTx(S());
      tpc := TxIdle;
      Drained(S());
    }

    /** The body of the send loop. */
    method SendOne()
      requires Valid() && tpc == SendTest && (pc == PktSend || pc == IsrTx)
      requires tx.rdy && tx.tosend != [] && !tx.bds[tx.next].own
      modifies this`tx, this`rx, this`src, this`world, this`tpc
      ensures Valid() && tpc == SendTest
      ensures RxSoft(rx) == RxSoft(old(rx)) && tx.submitted == old(tx).submitted
      ensures tx.reaped == old(tx).reaped && tx.tosend == old(tx).tosend[1..]
      ensures if LenOk(old(tx).tosend[0])
              then tx.sending == old(tx).sending + [old(tx).tosend[0]] && tx.dropped == old(tx).dropped
              else tx.sending == old(tx).sending && tx.dropped == old(tx).dropped + [old(tx).tosend[0]]
      ensures Later()
    {
      hide Good, SwStep;
      GoodTx(S());
      var p := tx.tosend[0];
      tx, tpc := tx.(hand := [p], tosend := tx.tosend[1..]), LowCheck;
      var result := LowSend(p);
      GoodTx(S());
      if result != 0 {
        tx, tpc := tx.(discards := tx.discards + 1, dropped := tx.dropped + [p], hand := []), SendTest;
      } else {
        var next := tx.next + 1;
        if next == |tx.bds| {
          next := 0;
        }
        var rdy := tx.rdy;
        if next == tx.cur {
          rdy := false;
        }
        tx, tpc := tx.(next := next, rdy := rdy, sending := tx.sending + [p], hand := [], armed := false), SendTest;
      }
    }

    /** `eth_ocm_tx_isr`. */
    method TxIsr()
      requires Valid() && tpc == ReapTest && (pc == PktSend || pc == IsrTx)
      modifies this`tx, this`rx, this`src, this`world, this`tpc
      ensures Valid() && tpc == TxIdle
      ensures RxSoft(rx) == RxSoft(old(rx)) && tx.submitted == old(tx).submitted
      ensures |old(tx).wire| <= |tx.reaped|
      ensures tx.tosend == [] || |tx.sending| == |tx.bds|
      ensures Later()
    {
      hide Good;
      ReapLoop();
      SendLoop();
    }

    /**
     `eth_ocm_pkt_send`: exactly this packet is submitted; packets finished before the call are freed;
     and a packet waits in `tosend` afterwards only if every descriptor is in flight.
     */
    method SendPacket(buf: nat, plen: nat) returns (result: int)
      requires Valid() && pc == Idle
      modifies this`tx, this`rx, this`src, this`world, this`tpc, this`pc
      ensures Valid() && pc == Idle && result == 0
      ensures tx.submitted == old(tx).submitted + [Packet(|old(tx).submitted|, buf, plen)]
      ensures |old(tx).wire| <= |tx.reaped|
      ensures tx.tosend == [] || |tx.sending| == |tx.bds|
    {
      hide Good;
      GoodStep(S(), DoSubmit(buf, plen));
      var p := Packet(|tx.submitted|, buf, plen);
      tx, tpc, pc := tx.(tosend := tx.tosend + [p], submitted := tx.submitted + [p]), ReapTest, PktSend;
      TxIsr();
      GoodSw(S(), None);
      pc := Idle;
      return 0;
    }

    /** `pk_alloc`. */
    method PkAlloc() returns (r: Option<nat>)
      modifies this`allocs
      ensures r == Answer(old(allocs), rx)
    {
      r := None;
      if allocs != [] {
        if allocs[0].Some? && Free(rx, allocs[0].value) {
          r := allocs[0];
        }
        allocs := allocs[1..];
      }
    }

    /**
     `eth_ocm_rx_isr`: every frame stored before the call has been processed on return, and
     `cur_rx_desc` is where the next one will be.
     */
    method RxIsr()
      requires Valid() && rpc == RxRead && pc.IsrRx? && !rx.mid && rx.cur == rx.stored
      modifies this`tx, this`rx, this`src, this`world, this`allocs, this`rpc
      ensures Valid() && rpc == RxIdle
      ensures TxSoft(tx) == TxSoft(old(tx)) && |old(rx).arrived| <= |rx.log|
      ensures rx.stored == rx.cur && rx.busy == old(rx).busy
      ensures Later()
    {
      hide Good, SwStep;
      rx := rx.(cur := rx.stored);
      Other();
      RxReadFacts(S());
      while !rx.bds[rx.cur].own
        invariant Valid() && rpc == RxRead
        invariant TxSoft(tx) == TxSoft(old(tx)) && rx.busy == old(rx).busy
        invariant Later()
        invariant |rx.log| <= |rx.arrived|
        decreases Size(world) + |rx.arrived| - |rx.log|
      {
        RxOne();
        Other();
        RxReadFacts(S());
      }
      RxProcessedAll(S());
      GoodRx(S(), None);
      rx, rpc := rx.(stored := rx.cur), RxIdle;
    }

    /** The body of the receive loop, for the status word just read. */
    method RxOne()
      requires Valid() && rpc == RxRead && pc.IsrRx? && !rx.bds[rx.cur].own
      modifies this`tx, this`rx, this`src, this`world, this`allocs, this`rpc
      ensures Valid() && rpc == RxRead
      ensures TxSoft(tx) == TxSoft(old(tx)) && |rx.log| == |old(rx).log| + 1 && rx.busy == old(rx).busy
      ensures Size(world) + |rx.arrived| <= old(Size(world) + |rx.arrived|)
      ensures Later()
    {
      hide Good, SwStep;
      var stat := rx.bds[rx.cur];
      GoodRx(S(), None);
      rpc := RxBody(stat.err);
      Other();
      RxProcess(stat.err);
      Other();
      RxGiveBack();
    }

    /**
     The decision of the receive loop: a good frame is queued, its buffer replaced by the one `pk_alloc` has;
     a bad one, or one for which it has none, is counted as a discard.
     */
    method RxProcess(bad: bool)
      requires Valid() && rpc == RxBody(bad) && pc.IsrRx?
      modifies this`rx, this`rpc, this`allocs
      ensures Valid() && rpc == RxPtr
      ensures var answer := Answer(old(allocs), old(rx));
        rx == if !bad && answer.Some? then Deliver(old(rx), answer.value) else Discard(old(rx), false)
    {
      hide Good, SwStep;
      var pkt := None;
      if !bad {
        pkt := PkAlloc();
      }
      GoodRx(S(), pkt);
      if pkt.None? {
        rx := rx.(discards := rx.discards + 1, room := rx.room + [false], log := rx.log + [false], mid := true);
      } else {
        var p := rx.pkts[rx.cur];
        var seen := if p + ETHHDR_BIAS in rx.mem then [rx.mem[p + ETHHDR_BIAS]] else [];
        rx := rx.(rcvdq := rx.rcvdq + [p], pkts := rx.pkts[rx.cur := pkt.value],
                  delivered := rx.delivered + seen, room := rx.room + [true], log := rx.log + [true], mid := true);
      }
      rpc := RxPtr;
    }

    /** Give the descriptor back to the MAC, pointer first, and move on. */
    method RxGiveBack()
      requires Valid() && rpc == RxPtr && pc.IsrRx?
      modifies this`tx, this`rx, this`src, this`world, this`rpc
      ensures Valid() && rpc == RxRead
      ensures TxSoft(tx) == TxSoft(old(tx)) && rx.log == old(rx).log && rx.busy == old(rx).busy
      ensures Size(world) + |rx.arrived| <= old(Size(world) + |rx.arrived|)
      ensures Later()
    {
      hide Good, SwStep;
      GoodRx(S(), None);
      rx := rx.(bds := rx.bds[rx.cur := rx.bds[rx.cur].(ptr := rx.pkts[rx.cur] + ETHHDR_BIAS)]);
      rpc := RxCtrl;
      Other();
      GoodRx(S(), None);
      var cur := rx.cur + 1;
      if cur == |rx.bds| {
        cur := 0;
      }
      var ctrl := Bd(true, true, rx.cur == |rx.bds| - 1, false, rx.bds[rx.cur].ptr, 0);
      rx, rpc := rx.(bds := rx.bds[rx.cur := ctrl], cur := cur, mid := false), RxRead;
    }

    /**
     `eth_ocm_isr`: it returns only when `int_source` reads clear, and at that moment every transmit
     descriptor the MAC has finished is reaped and every frame it has stored is processed.
     */
    method Isr()
      requires Valid() && pc == Idle && src.Any()
      modifies this
      ensures Valid() && pc == Idle && !src.Any()
      ensures |tx.wire| == |tx.reaped| && |rx.arrived| == |rx.log|
      ensures old(tx).wire <= tx.wire && old(rx).arrived <= rx.arrived
    {
      hide Good;
      GoodStep(S(), Irq);
      pc := IsrRead;
      Other();
      var result := src;
      GoodSw(S(), None);
      pc := if result.Any() then IsrClear(result) else Idle;
      while result.Any()
        invariant Valid() && pc == (if result.Any() then IsrClear(result) else Idle)
        invariant src == result
        invariant old(tx).wire <= tx.wire && old(rx).arrived <= rx.arrived
        decreases Size(world) + if result.Any() then 1 else 0
      {
        result := IsrPass(result);
      }
      NothingLeft(S());
    }

    /** One pass of the handler's loop: clear the flags that were read, serve them, read again. */
    method IsrPass(r: Src) returns (result: Src)
      requires Valid() && r.Any() && pc == IsrClear(r) && src == r
      modifies this
      ensures Valid() && pc == (if result.Any() then IsrClear(result) else Idle)
      ensures src == result
      ensures old(tx).wire <= tx.wire && old(rx).arrived <= rx.arrived
      ensures Size(world) <= old(Size(world))
      ensures result.Any() ==> Size(world) < old(Size(world))
    {
      hide Good;
      IsrServeRx(r);
      IsrServeTx(r);
      Other();
      result := src;
      GoodSw(S(), None);
      pc := if result.Any() then IsrClear(result) else Idle;
    }

    /** The first half of a pass: the flags are cleared, then receive and busy are served. */
    method IsrServeRx(r: Src)
      requires Valid() && pc == IsrClear(r) && src == r
      modifies this
      ensures Valid() && pc == IsrTx && tpc == if r.Tx() then ReapTest else TxIdle
      ensures old(tx).wire <= tx.wire && old(rx).arrived <= rx.arrived
      ensures Size(world) <= old(Size(world))
      ensures src.Any() ==> Size(world) < old(Size(world))
    {
      hide Good;
      IsrAck(r);
      if r.Rx() {
        RxIsr();
      }
      GoodSw(S(), None);
      if r.busy {
        rx := rx.(discards := rx.discards + 1, busy := rx.busy + 1);
      }
      pc, tpc := IsrTx, if r.Tx() then ReapTest else tpc;
    }

    /**
     Write back exactly the flags that were read: those are cleared, and any the rest of the world has
     raised since the read survives.
     */
    method IsrAck(r: Src)
      requires Valid() && pc == IsrClear(r) && src == r
      modifies this
      ensures Valid() && pc == IsrRx(r) && tpc == TxIdle
      ensures src == WorldRun(old(S()), NextBatch(old(world))).src.Clear(r)
      ensures rpc == (if r.Rx() then RxRead else RxIdle) && !rx.mid && rx.cur == rx.stored
      ensures old(tx).wire <= tx.wire && old(rx).arrived <= rx.arrived
      ensures Size(world) <= old(Size(world))
      ensures src.Any() ==> Size(world) < old(Size(world))
    {
      hide Good, WorldRun;
      IsrPlace(S());
      RunBatch();
      GoodSw(S(), None);
      src, pc := src.Clear(r), IsrRx(r);
      if r.Rx() {
        rpc, rx := RxRead, rx.(cur := rx.stored);
      }
    }

    /** The second half: transmit is served if a transmit flag was read. */
    method IsrServeTx(r: Src)
      requires Valid() && pc == IsrTx && tpc == if r.Tx() then ReapTest else TxIdle
      modifies this
      ensures Valid() && pc == IsrRead
      ensures Later()
    {
      hide Good;
      if r.Tx() {
        TxIsr();
      }
      GoodSw(S(), None);
      pc := IsrRead;
    }
  }

  lemma WorldSoft(s: State, a: Action)
    requires Wf(s) && IsWorld(a)
    ensures var s' := Step(s, a);
      && s'.pc == s.pc && s'.tpc == s.tpc && s'.rpc == s.rpc
      && TxSoft(s'.tx) == TxSoft(s.tx) && RxSoft(s'.rx) == RxSoft(s.rx)
      && |s'.tx.bds| == |s.tx.bds| && |s'.rx.bds| == |s.rx.bds|
      && s.tx.wire <= s'.tx.wire && s.rx.arrived <= s'.rx.arrived
      && |s'.rx.arrived| <= |s.rx.arrived| + 1
  {
  }

  lemma LowDoneFacts(s: State)
    requires Wf(s) && Good(s) && s.tpc == LowDone
    ensures |s.tx.hand| == 1 && Carries(s.tx.bds[s.tx.next], s.tx.hand[0])
  {
    var t := s.tx;
    assert InFlight(t)[|t.sending|] == t.hand[0];
    FrameIs(t.hand[0]);
  }

  lemma LowCheckFacts(s: State)
    requires Wf(s) && Good(s) && s.tpc == LowCheck
    ensures !s.tx.sem && !s.tx.armed && !s.tx.bds[s.tx.next].own
  {
    NextIsFree(s.tx, s.tpc);
  }

  lemma ReapedAll(s: State)
    requires Wf(s) && Good(s) && s.tpc == ReapTest && TxStep(s.tx, ReapTest).1 == SendTest
    ensures |s.tx.wire| == |s.tx.reaped|
  {
    ReapTestKeeps(s.tx);
  }

  lemma Drained(s: State)
    requires Good(s) && s.tpc == TxIdle
    ensures s.tx.tosend == [] || |s.tx.sending| == |s.tx.bds|
  {
  }

  lemma RxReadFacts(s: State)
    requires Good(s) && s.rpc == RxRead
    ensures |s.rx.log| <= |s.rx.arrived|
    ensures Wf(s) && !s.rx.bds[s.rx.cur].own ==> |s.rx.log| < |s.rx.arrived|
  {
    WindowHead(s.rx.bds, s.rx.cur, |s.rx.bds|, Filled(s.rx), s.rx.hw);
  }

  lemma RxProcessedAll(s: State)
    requires Wf(s) && Good(s) && s.rpc == RxRead && s.rx.bds[s.rx.cur].own
    ensures |s.rx.log| == |s.rx.arrived|
  {
    ReadKeeps(s.rx);
  }

  /** Where the driver stands when the handler starts a pass. */
  lemma IsrPlace(s: State)
    requires Good(s) && s.pc.IsrClear?
    ensures s.tpc == TxIdle && s.rpc == RxIdle && !s.rx.mid && s.rx.stored == s.rx.cur
  {
  }

  /** When the processor is idle and no flag is set, nothing the MAC has finished is left unserved. */
  lemma NothingLeft(s: State)
    requires Good(s) && s.pc == Idle && !s.src.Any()
    ensures |s.tx.wire| == |s.tx.reaped| && |s.rx.arrived| == |s.rx.log|
  {
    NoLostCompletion(s);
  }
}
