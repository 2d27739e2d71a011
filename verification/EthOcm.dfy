/**
 The whole InterNiche driver against a MAC that acts between any two of its device accesses:
 `eth_ocm_pkt_send`, the interrupt handler `eth_ocm_isr` and the two routines it calls, as one
 transition system. A run is any sequence of actions; an action that is not possible changes nothing.
 */
module EthOcm {
  import opened Options
  import opened MacRing
  import opened EthOcmTx
  import opened EthOcmRx

  /** The bits of `int_source` the driver looks at. */
  datatype Src = Src(txb: bool, txe: bool, rxb: bool, rxe: bool, busy: bool) {
    predicate Any() { txb || txe || rxb || rxe || busy }
    predicate Tx() { txb || txe }
    predicate Rx() { rxb || rxe }
    /** Writing `w` to the register clears exactly the bits set in `w`. */
    function Clear(w: Src): Src {
      Src(txb && !w.txb, txe && !w.txe, rxb && !w.rxb, rxe && !w.rxe, busy && !w.busy)
    }
  }

  /** Where the processor stands; interrupts are off in all but `Idle`. `r` is `result` of the handler. */
  datatype Pc = Idle | PktSend | IsrRead | IsrClear(r: Src) | IsrRx(r: Src) | IsrTx

  datatype State = State(tx: Tx, tpc: TxPc, rx: Rx, rpc: RxPc, src: Src, pc: Pc)

  datatype Action =
    | Sw(alloc: Option<nat>)             // the processor's next step
    | DoSubmit(buf: nat, plen: nat)      // the stack calls eth_ocm_pkt_send
    | Irq                                // the processor takes the interrupt
    | DoMacSend(err: bool)               // the MAC finishes a transmit descriptor
    | DoMacFill(f: RxFrame)              // the MAC stores a frame
    | MacBusy                            // a frame arrives and there is no empty descriptor
    | DoStackTake                        // the stack takes a packet off rcvdq

  predicate Wf(s: State) {
    TxWf(s.tx) && RxWf(s.rx)
  }

  function Init(n: nat, bufs: seq<nat>): (s: State)
    requires n >= 1 && bufs != []
    ensures Wf(s)
  {
    State(TxInit(n), TxIdle, RxInit(bufs), RxIdle, Src(false, false, false, false, false), Idle)
  }

  /** The processor's next step in `eth_ocm_pkt_send` or `eth_ocm_isr`. */
  function SwStep(s: State, alloc: Option<nat>): (s': State)
    requires Wf(s)
    ensures Wf(s') && |s'.tx.bds| == |s.tx.bds|
  {
    match s.pc
    case Idle => s
    case PktSend =>
      if s.tpc == TxIdle then s.(pc := Idle)
      else var (t, tpc) := TxStep(s.tx, s.tpc); s.(tx := t, tpc := tpc)
    case IsrRead => s.(pc := if s.src.Any() then IsrClear(s.src) else Idle)
    case IsrClear(r) =>
      var s := s.(src := s.src.Clear(r), pc := IsrRx(r));
      if r.Rx() then s.(rpc := RxRead, rx := s.rx.(cur := s.rx.stored)) else s
    case IsrRx(r) =>
      if s.rpc != RxIdle then
        var (x, rpc) := RxStep(s.rx, s.rpc, alloc); s.(rx := x, rpc := rpc)
      else
        var s := if r.busy then s.(rx := s.rx.(discards := s.rx.discards + 1, busy := s.rx.busy + 1)) else s;
        s.(pc := IsrTx, tpc := if r.Tx() then ReapTest else s.tpc)
    case IsrTx =>
      if s.tpc == TxIdle then s.(pc := IsrRead)
      else var (t, tpc) := TxStep(s.tx, s.tpc); s.(tx := t, tpc := tpc)
  }

  function Step(s: State, a: Action): (s': State)
    requires Wf(s)
    ensures Wf(s') && |s'.tx.bds| == |s.tx.bds|
  {
    match a
    case Sw(alloc) => SwStep(s, alloc)
    case DoSubmit(buf, plen) =>
      if s.pc == Idle then s.(tx := Submit(s.tx, buf, plen), tpc := ReapTest, pc := PktSend) else s
    case Irq => if s.pc == Idle && s.src.Any() then s.(pc := IsrRead) else s
    case DoMacSend(err) =>
      if MacCanSend(s.tx) then
        var irq := s.tx.bds[s.tx.hw].irq;
        s.(tx := MacSend(s.tx, err),
           src := s.src.(txb := s.src.txb || (irq && !err), txe := s.src.txe || (irq && err)))
      else s
    case DoMacFill(f) =>
      if MacCanFill(s.rx) then
        var irq := s.rx.bds[s.rx.hw].irq;
        s.(rx := MacFill(s.rx, f),
           src := s.src.(rxb := s.src.rxb || (irq && !f.bad), rxe := s.src.rxe || (irq && f.bad)))
      else s
    case MacBusy =>
      if MacCanFill(s.rx) then s
      else s.(rx := s.rx.(raised := s.rx.raised + if s.src.busy then 0 else 1), src := s.src.(busy := true))
    case DoStackTake => s.(rx := StackTake(s.rx))
  }

  function Run(s: State, acts: seq<Action>): (s': State)
    requires Wf(s)
    ensures Wf(s') && |s'.tx.bds| == |s.tx.bds|
  {
    if acts == [] then s else Step(Run(s, acts[..|acts| - 1]), acts[|acts| - 1])
  }

  // ---- The invariant ----

  /** The two routines are active only inside their callers. */
  ghost predicate Control(s: State) {
    && (s.tpc != TxIdle ==> s.pc == PktSend || s.pc == IsrTx)
    && (s.rpc != RxIdle ==> s.pc.IsrRx?)
  }

  /** The driver is committed to reaping before it can become idle. */
  predicate WillReap(s: State) {
    s.tpc == ReapTest || s.tpc == ReapBody || (s.pc.IsrRx? && s.pc.r.Tx())
  }

  /** Every finished descriptor will still be noticed. */
  ghost predicate Noticed(s: State) {
    && (Finished(s.tx) > 0 ==> s.src.Tx() || WillReap(s))
    && (Filled(s.rx) > 0 ==> s.src.Rx() || s.rpc != RxIdle)
  }

  /** Busy events raised by the MAC and not yet counted: in the register, or read and cleared by the handler. */
  function BusyPending(s: State): nat {
    (if s.src.busy then 1 else 0) + if s.pc.IsrRx? && s.pc.r.busy then 1 else 0
  }

  /** No busy event is lost or counted twice. */
  ghost predicate BusyOk(s: State) {
    && s.rx.raised == s.rx.busy + BusyPending(s)
    && (s.pc.IsrClear? && s.pc.r.busy ==> s.src.busy)
  }

  ghost predicate Inv(s: State) {
    Wf(s) && TxInv(s.tx, s.tpc) && RxInv(s.rx, s.rpc) && Control(s) && Noticed(s) && BusyOk(s)
  }

  lemma SwKeeps(s: State, alloc: Option<nat>)
    requires Inv(s)
    ensures Wf(s) && Inv(SwStep(s, alloc))
  {
    hide TxRing, TxBooks, TxFaults, TxAt, RxRing, RxFilled, RxQueued, RxBooks, RxAt;
    match s.pc
    case Idle =>
    case PktSend => TxPhaseKeeps(s, alloc);
    case IsrRead =>
    case IsrClear(r) =>
      IsrClearKeeps(s, r);
    case IsrRx(r) =>
      if s.rpc != RxIdle {
        RxStepKeeps(s.rx, s.rpc, alloc);
      } else {
        IsrRxExitKeeps(s, r);
      }
    case IsrTx => TxPhaseKeeps(s, alloc);
  }

  lemma TxPhaseKeeps(s: State, alloc: Option<nat>)
    requires Wf(s) && Inv(s) && (s.pc == PktSend || s.pc == IsrTx)
    ensures Inv(SwStep(s, alloc))
  {
    hide TxInv, RxInv;
    TxStepKeeps(s.tx, s.tpc);
    TxNoticed(s.tx, s.tpc);
  }

  /** A transmit step outside the reap loop never adds to the finished descriptors. */
  lemma TxNoticed(t: Tx, pc: TxPc)
    requires TxInv(t, pc)
    ensures Finished(TxStep(t, pc).0) <= Finished(t)
    ensures pc !in {ReapTest, ReapBody} ==> TxStep(t, pc).1 !in {ReapTest, ReapBody}
    ensures pc == ReapBody ==> TxStep(t, pc).1 == ReapTest
  {
  }

  lemma IsrClearKeeps(s: State, r: Src)
    requires Wf(s) && Inv(s) && s.pc == IsrClear(r)
    ensures Inv(SwStep(s, None))
  {
    hide TxInv, Window;
    if r.Rx() {
      assert s.rx.(cur := s.rx.stored) == s.rx;
    }
  }

  lemma IsrRxExitKeeps(s: State, r: Src)
    requires Wf(s) && Inv(s) && s.pc == IsrRx(r) && s.rpc == RxIdle
    ensures Inv(SwStep(s, None))
  {
    hide TxRing, TxBooks, TxFaults, RxQueued, RxFilled;
    var s' := SwStep(s, None);
    assert Filled(s'.rx) == Filled(s.rx);
    BusyKeeps(s.rx);
  }

  lemma BusyKeeps(r: Rx)
    requires RxInv(r, RxIdle)
    ensures RxInv(r.(discards := r.discards + 1, busy := r.busy + 1), RxIdle)
  {
  }

  lemma RaisedKeeps(r: Rx, pc: RxPc, n: nat)
    requires RxInv(r, pc)
    ensures RxInv(r.(raised := n), pc) && Filled(r.(raised := n)) == Filled(r)
  {
    hide Window, Pick;
  }

  lemma StepKeeps(s: State, a: Action)
    requires Inv(s)
    ensures Wf(s) && Inv(Step(s, a))
  {
    hide TxRing, TxBooks, TxFaults, RxFilled, RxQueued, RxBooks;
    match a
    case Sw(alloc) => SwKeeps(s, alloc);
    case DoSubmit(buf, plen) =>
      if s.pc == Idle {
        SubmitKeeps(s.tx, buf, plen);
      }
    case Irq =>
    case DoMacSend(err) =>
      if MacCanSend(s.tx) {
        MacSendKeeps(s.tx, s.tpc, err);
        TxOwnedIrq(s.tx, s.tpc);
      }
    case DoMacFill(f) =>
      if MacCanFill(s.rx) {
        MacFillKeeps(s.rx, s.rpc, f);
      }
    case MacBusy =>
      RaisedKeeps(s.rx, s.rpc, Step(s, a).rx.raised);
    case DoStackTake =>
      StackTakeKeeps(s.rx, s.rpc);
  }

  lemma TxOwnedIrq(t: Tx, pc: TxPc)
    requires TxInv(t, pc) && MacCanSend(t)
    ensures t.bds[t.hw].irq
  {
  }

  /** The invariant holds after every run, whatever the interleaving. */
  lemma {:induction false} Reachable(n: nat, bufs: seq<nat>, acts: seq<Action>)
    requires n >= 1 && bufs != [] && Distinct(bufs)
    ensures Inv(Run(Init(n, bufs), acts))
    ensures |Run(Init(n, bufs), acts).tx.bds| == n
  {
    hide TxRing, TxBooks, TxFaults, RxRing, RxFilled, RxQueued, RxBooks;
    if acts == [] {
      TxInitInv(n);
      RxInitInv(bufs);
    } else {
      var s := Run(Init(n, bufs), acts[..|acts| - 1]);
      Reachable(n, bufs, acts[..|acts| - 1]);
      StepKeeps(s, acts[|acts| - 1]);
    }
  }
}
