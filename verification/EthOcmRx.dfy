/**
 The receive half of the InterNiche driver for the OpenCores MAC: `rx_pkts`, the receive loop of
 `eth_ocm_rx_isr` cut at every device access, the stack's `rcvdq`, and the memory the MAC writes.
 */
module EthOcmRx {
  import opened Options
  import opened MacRing
  import EthOcmTx

  /** A frame as the MAC stores it; `bad` when any bit of ETH_OCM_RXDESC_ERROR_MSK is set with it. */
  datatype RxFrame = RxFrame(data: seq<int>, bad: bool)

  /**
   Descriptors and the MAC's pointer; `cur_rx_desc`, its working copy, the buffer of each descriptor,
   the stack's queue; memory by address; `ifInDiscards`; whether the descriptor at `cur` has been
   processed and not yet given back; and the history of frames stored by the MAC, of what `pk_alloc` had
   for each processed frame and what became of the frame, of the frames queued, of busy
   events counted by the driver and of those raised by the MAC.
   */
  datatype Rx = Rx(
    bds: seq<Bd>, hw: nat,
    stored: nat, cur: nat, pkts: seq<nat>, rcvdq: seq<nat>,
    mem: map<nat, RxFrame>, discards: nat, mid: bool,
    arrived: seq<RxFrame>, room: seq<bool>, log: seq<bool>, delivered: seq<RxFrame>,
    busy: nat, raised: nat)

  /** Where the driver stands in `eth_ocm_rx_isr`; `RxBody` carries the error bits of the word it read. */
  datatype RxPc = RxIdle | RxRead | RxBody(bad: bool) | RxPtr | RxCtrl

  /** The address the MAC is given for a buffer: past the header bias. */
  function Ptr(buf: nat): nat {
    buf + EthOcmTx.ETHHDR_BIAS
  }

  predicate RxWf(r: Rx) {
    r.stored < |r.bds| && r.cur < |r.bds| && |r.pkts| == |r.bds|
  }

  /** A buffer `pk_alloc` may hand out: one that neither the driver nor the stack holds. */
  predicate Free(r: Rx, b: nat) {
    b !in r.pkts && b !in r.rcvdq
  }

  /** The control word of a descriptor given to the MAC. */
  function Armed(j: nat, m: nat, ptr: nat): Bd {
    Bd(true, true, j == m - 1, false, ptr, 0)
  }

  /** The state `eth_ocm_read_init` leaves: every descriptor armed with a buffer of its own. */
  function RxInit(bufs: seq<nat>): Rx
    requires bufs != []
  {
    Rx(seq(|bufs|, j requires 0 <= j < |bufs| => Armed(j, |bufs|, Ptr(bufs[j]))), 0, 0, 0, bufs, [], map[], 0, false,
       [], [], [], [], 0, 0)
  }

  /** Count a discard; `room` says whether there was a buffer to be had. */
  function Discard(r: Rx, room: bool): Rx {
    r.(discards := r.discards + 1, room := r.room + [room], log := r.log + [false], mid := true)
  }

  /** Queue the filled buffer for the stack and put the new one in its place. */
  function Deliver(r: Rx, b: nat): Rx
    requires RxWf(r)
  {
    var p := r.pkts[r.cur];
    r.(rcvdq := r.rcvdq + [p], pkts := r.pkts[r.cur := b], room := r.room + [true], log := r.log + [true], mid := true,
       delivered := r.delivered + (if Ptr(p) in r.mem then [r.mem[Ptr(p)]] else []))
  }

  function GivePtr(r: Rx): Rx
    requires RxWf(r)
  {
    r.(bds := r.bds[r.cur := r.bds[r.cur].(ptr := Ptr(r.pkts[r.cur]))])
  }

  function GiveCtrl(r: Rx): Rx
    requires RxWf(r)
  {
    r.(bds := r.bds[r.cur := Armed(r.cur, |r.bds|, r.bds[r.cur].ptr)],
       cur := Bump(r.cur, |r.bds|), mid := false)
  }

  /** One step of `eth_ocm_rx_isr`; `alloc` is what `pk_alloc` returns if this step calls it. */
  function RxStep(r: Rx, pc: RxPc, alloc: Option<nat>): (s: (Rx, RxPc))
    requires RxWf(r)
    ensures RxWf(s.0)
  {
    match pc
    case RxIdle => (r, RxIdle)
    case RxRead => if r.bds[r.cur].own then (r.(stored := r.cur), RxIdle) else (r, RxBody(r.bds[r.cur].err))
    case RxBody(bad) =>
      var room := alloc.Some? && Free(r, alloc.value);
      if !bad && room then (Deliver(r, alloc.value), RxPtr) else (Discard(r, room), RxPtr)
    case RxPtr => (GivePtr(r), RxCtrl)
    case RxCtrl => (GiveCtrl(r), RxRead)
  }

  predicate MacCanFill(r: Rx) {
    r.hw < |r.bds| && r.bds[r.hw].own
  }

  /** The MAC stores a frame in the buffer of the descriptor it stands on. */
  function MacFill(r: Rx, f: RxFrame): (s: Rx)
    requires MacCanFill(r)
    ensures RxWf(r) ==> RxWf(s)
  {
    var (bds, hw) := Finish(r.bds, r.hw, f.bad);
    r.(bds := bds, hw := hw, mem := r.mem[r.bds[r.hw].ptr := f], arrived := r.arrived + [f])
  }

  /** The stack takes the oldest packet off `rcvdq` and frees it. */
  function StackTake(r: Rx): (s: Rx)
    ensures RxWf(r) ==> RxWf(s)
  {
    if r.rcvdq == [] then r else r.(rcvdq := r.rcvdq[1..])
  }

  // ---- The invariant ----

  /** The frames of `fs` whose outcome in `log` is true, in order. */
  function Pick(fs: seq<RxFrame>, log: seq<bool>): (r: seq<RxFrame>)
    requires |fs| == |log|
  {
    if log == [] then []
    else
      var k := |log| - 1;
      Pick(fs[..k], log[..k]) + if log[k] then [fs[k]] else []
  }

  function Off(r: Rx): nat {
    if r.mid then 1 else 0
  }

  /** How many descriptors from `cur` on the MAC has filled and not been given back. */
  function Filled(r: Rx): int {
    |r.arrived| - |r.log| + Off(r)
  }

  ghost predicate Distinct(s: seq<nat>) {
    forall i, j :: 0 <= i < j < |s| ==> s[i] != s[j]
  }

  /** The buffers belong to one side only. */
  ghost predicate Ownership(pkts: seq<nat>, rcvdq: seq<nat>) {
    && Distinct(pkts) && Distinct(rcvdq)
    && (forall i, j :: 0 <= i < |pkts| && 0 <= j < |rcvdq| ==> pkts[i] != rcvdq[j])
  }

  ghost predicate RxRing(r: Rx) {
    && RxWf(r)
    && Off(r) <= Filled(r)
    && Window(r.bds, r.cur, |r.bds|, Filled(r), r.hw)
    && (forall j :: 0 <= j < |r.bds| && r.bds[j].own ==> r.bds[j].ptr == Ptr(r.pkts[j]))
  }

  /** Every filled descriptor's buffer still holds the frame that arrived for it. */
  ghost predicate RxFilled(r: Rx) {
    && RxWf(r) && |r.log| <= |r.arrived| && Filled(r) <= |r.bds|
    && (forall j :: 0 <= j < |r.bds| && Off(r) <= Dist(r.cur, j, |r.bds|) < Filled(r) ==>
          var f := r.arrived[|r.log| + Dist(r.cur, j, |r.bds|) - Off(r)];
          Ptr(r.pkts[j]) in r.mem && r.mem[Ptr(r.pkts[j])] == f && r.bds[j].err == f.bad)
  }

  /** Every queued buffer still holds the frame it was delivered with. */
  ghost predicate RxQueued(r: Rx) {
    && Ownership(r.pkts, r.rcvdq)
    && |r.rcvdq| <= |r.delivered|
    && (forall i :: 0 <= i < |r.rcvdq| ==>
          Ptr(r.rcvdq[i]) in r.mem && r.mem[Ptr(r.rcvdq[i])] == r.delivered[|r.delivered| - |r.rcvdq| + i])
  }

  ghost predicate RxBooks(r: Rx) {
    && |r.room| == |r.log| <= |r.arrived|
    && r.delivered == Pick(r.arrived[..|r.log|], r.log)
    && (forall i :: 0 <= i < |r.log| ==> (r.log[i] <==> !r.arrived[i].bad && r.room[i]))
    && |r.log| + r.busy == |r.delivered| + r.discards
  }

  ghost predicate RxAt(r: Rx, pc: RxPc) {
    && (r.mid <==> pc in {RxPtr, RxCtrl})
    && (pc.RxIdle? ==> r.stored == r.cur)
    && (pc.RxBody? ==> Filled(r) > 0 && |r.log| < |r.arrived| && pc.bad == r.arrived[|r.log|].bad)
    && (pc.RxCtrl? ==> RxWf(r) && r.bds[r.cur].ptr == Ptr(r.pkts[r.cur]))
  }

  ghost predicate RxInv(r: Rx, pc: RxPc) {
    RxWf(r) && RxRing(r) && RxFilled(r) && RxQueued(r) && RxBooks(r) && RxAt(r, pc)
  }

  // ---- Preservation ----

  lemma RxInitInv(bufs: seq<nat>)
    requires bufs != [] && Distinct(bufs)
    ensures RxInv(RxInit(bufs), RxIdle)
  {
  }

  lemma MacFillRing(r: Rx, f: RxFrame)
    requires RxRing(r) && MacCanFill(r)
    ensures RxRing(MacFill(r, f))
    ensures Filled(r) < |r.bds| && r.hw == Slot(r.cur, Filled(r), |r.bds|)
    ensures Dist(r.cur, r.hw, |r.bds|) == Filled(r)
    ensures r.bds[r.hw].ptr == Ptr(r.pkts[r.hw])
  {
    WindowFinish(r.bds, r.cur, |r.bds|, Filled(r), r.hw, f.bad);
  }

  lemma MacFillFilled(r: Rx, f: RxFrame)
    requires RxFilled(r) && MacCanFill(r) && Distinct(r.pkts) && Off(r) <= Filled(r)
    requires Dist(r.cur, r.hw, |r.bds|) == Filled(r) && r.bds[r.hw].ptr == Ptr(r.pkts[r.hw])
    ensures RxFilled(MacFill(r, f))
  {
    var s := MacFill(r, f);
    forall j | 0 <= j < |s.bds| && Off(s) <= Dist(s.cur, j, |s.bds|) < Filled(s)
      ensures var g := s.arrived[|s.log| + Dist(s.cur, j, |s.bds|) - Off(s)];
              Ptr(s.pkts[j]) in s.mem && s.mem[Ptr(s.pkts[j])] == g && s.bds[j].err == g.bad
    {
      if j != r.hw {
        assert Dist(r.cur, j, |r.bds|) < Filled(r);
        assert s.pkts[j] != s.pkts[r.hw];
      }
    }
  }

  /** The MAC storing a frame keeps the receive invariant; in particular it leaves queued buffers alone. */
  lemma MacFillKeeps(r: Rx, pc: RxPc, f: RxFrame)
    requires RxInv(r, pc) && MacCanFill(r)
    ensures RxInv(MacFill(r, f), pc)
  {
    var s := MacFill(r, f);
    MacFillRing(r, f);
    MacFillFilled(r, f);
    assert s.arrived[..|s.log|] == r.arrived[..|r.log|];
    if pc.RxCtrl? {
      WindowHead(r.bds, r.cur, |r.bds|, Filled(r), r.hw);
    }
  }

  lemma ReadKeeps(r: Rx)
    requires RxInv(r, RxRead)
    ensures var (s, pc') := RxStep(r, RxRead, None); RxInv(s, pc') && (pc'.RxIdle? ==> Filled(r) == 0)
  {
    WindowHead(r.bds, r.cur, |r.bds|, Filled(r), r.hw);
    assert Dist(r.cur, r.cur, |r.bds|) == 0;
  }

  lemma PickNext(r: Rx, b: bool)
    requires |r.log| < |r.arrived|
    ensures Pick(r.arrived[..|r.log| + 1], r.log + [b])
            == Pick(r.arrived[..|r.log|], r.log) + if b then [r.arrived[|r.log|]] else []
  {
    var fs, log := r.arrived[..|r.log| + 1], r.log + [b];
    assert fs[..|r.log|] == r.arrived[..|r.log|] && log[..|r.log|] == r.log;
  }

  lemma DiscardKeeps(r: Rx, bad: bool, room: bool)
    requires RxInv(r, RxBody(bad)) && !(!bad && room)
    ensures RxInv(Discard(r, room), RxPtr)
  {
    hide Window, Distinct;
    var s := Discard(r, room);
    PickNext(r, false);
    assert s.arrived[..|s.log|] == r.arrived[..|r.log| + 1];
  }

  lemma DeliverFilled(r: Rx, b: nat)
    requires RxFilled(r) && !r.mid && Filled(r) > 0 && |r.log| < |r.arrived|
    ensures RxFilled(Deliver(r, b))
  {
    var s := Deliver(r, b);
    forall j | 0 <= j < |s.bds| && Off(s) <= Dist(s.cur, j, |s.bds|) < Filled(s)
      ensures s.pkts[j] == r.pkts[j]
    {
    }
  }

  lemma DeliverQueued(r: Rx, b: nat)
    requires RxWf(r) && RxQueued(r) && Free(r, b) && Ptr(r.pkts[r.cur]) in r.mem
    ensures RxQueued(Deliver(r, b))
  {
    var s := Deliver(r, b);
    var p := r.pkts[r.cur];
    assert s.delivered == r.delivered + [r.mem[Ptr(p)]];
    assert Distinct(s.pkts);
    assert forall i :: 0 <= i < |s.pkts| ==> s.pkts[i] != p;
  }

  lemma DeliverKeeps(r: Rx, b: nat)
    requires RxInv(r, RxBody(false)) && Free(r, b)
    ensures RxInv(Deliver(r, b), RxPtr)
  {
    hide Window, Distinct, RxQueued;
    var s := Deliver(r, b);
    var p := r.pkts[r.cur];
    assert Dist(r.cur, r.cur, |r.bds|) == 0;
    assert Ptr(p) in r.mem && r.mem[Ptr(p)] == r.arrived[|r.log|];
    WindowHead(r.bds, r.cur, |r.bds|, Filled(r), r.hw);
    DeliverFilled(r, b);
    DeliverQueued(r, b);
    PickNext(r, true);
    assert s.arrived[..|s.log|] == r.arrived[..|r.log| + 1];
  }

  lemma GivePtrKeeps(r: Rx)
    requires RxInv(r, RxPtr)
    ensures RxInv(GivePtr(r), RxCtrl)
  {
    hide Distinct, Pick;
    var s := GivePtr(r);
    WindowHead(r.bds, r.cur, |r.bds|, Filled(r), r.hw);
    WindowFrame(r.bds, r.cur, |r.bds|, Filled(r), r.hw, r.cur, s.bds[r.cur]);
  }

  lemma GiveCtrlRing(r: Rx)
    requires RxRing(r) && r.mid && r.bds[r.cur].ptr == Ptr(r.pkts[r.cur])
    ensures RxRing(GiveCtrl(r))
  {
    var s := GiveCtrl(r);
    var m := |r.bds|;
    WindowPop(r.bds, r.cur, m, Filled(r), r.hw);
    assert Slot(Slot(r.cur, 1, m), m - 1, m) == r.cur;
    WindowPush(r.bds, Slot(r.cur, 1, m), m - 1, Filled(r) - 1, r.hw, s.bds[r.cur]);
  }

  lemma GiveCtrlFilled(r: Rx)
    requires RxFilled(r) && r.mid
    ensures RxFilled(GiveCtrl(r))
  {
    var s := GiveCtrl(r);
    var m := |r.bds|;
    forall j | 0 <= j < m && Off(s) <= Dist(s.cur, j, m) < Filled(s)
      ensures var f := s.arrived[|s.log| + Dist(s.cur, j, m) - Off(s)];
              Ptr(s.pkts[j]) in s.mem && s.mem[Ptr(s.pkts[j])] == f && s.bds[j].err == f.bad
    {
      assert Dist(r.cur, j, m) == Dist(s.cur, j, m) + 1;
    }
  }

  lemma GiveCtrlKeeps(r: Rx)
    requires RxInv(r, RxCtrl)
    ensures RxInv(GiveCtrl(r), RxRead)
  {
    hide RxRing, RxFilled, Ownership;
    GiveCtrlRing(r);
    GiveCtrlFilled(r);
  }

  lemma StackTakeKeeps(r: Rx, pc: RxPc)
    requires RxInv(r, pc)
    ensures RxInv(StackTake(r), pc)
  {
    hide Window, Pick;
    if r.rcvdq != [] {
      var s := StackTake(r);
      forall i, j | 0 <= i < |s.pkts| && 0 <= j < |s.rcvdq|
        ensures s.pkts[i] != s.rcvdq[j]
      {
        assert s.rcvdq[j] == r.rcvdq[j + 1];
      }
      assert forall i :: 0 <= i < |s.rcvdq| ==> s.rcvdq[i] == r.rcvdq[i + 1];
    }
  }

  /** Every step of `eth_ocm_rx_isr` keeps the receive invariant. */
  lemma RxStepKeeps(r: Rx, pc: RxPc, alloc: Option<nat>)
    requires RxInv(r, pc)
    ensures var (s, pc') := RxStep(r, pc, alloc); RxInv(s, pc')
    ensures var (s, pc') := RxStep(r, pc, alloc); pc.RxRead? && pc'.RxIdle? ==> Filled(s) == 0
  {
    hide RxRing, RxFilled, RxQueued, RxBooks, RxAt;
    match pc
    case RxIdle =>
    case RxRead => ReadKeeps(r);
    case RxBody(bad) =>
      if !bad && alloc.Some? && Free(r, alloc.value) {
        DeliverKeeps(r, alloc.value);
      } else {
        DiscardKeeps(r, bad, alloc.Some? && Free(r, alloc.value));
      }
    case RxPtr => GivePtrKeeps(r);
    case RxCtrl => GiveCtrlKeeps(r);
  }
}
