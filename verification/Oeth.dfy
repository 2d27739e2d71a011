/**
 The transmit side of the eCos driver for the same MAC, which keeps its ring with `tx_next`, `tx_last`
 and `tx_full` and remembers a key per descriptor to report when the frame is done. The driver's lock
 keeps its routines apart; the MAC acts between any two of their accesses.
 */
module Oeth {
  import opened MacRing

  const OETH_TX_BUFF_SIZE := 1520

  /** An accepted send: the key to report and the frame. */
  datatype Frame = Frame(key: nat, data: seq<int>)

  /**
   Descriptors, the MAC's pointer and the transmit buffers; the driver's fields and `tx_packets`; and
   the history: accepted sends, the descriptor each one was put in and the last one put in each
   descriptor, what the MAC has sent, the keys given to `tx_done`, and which send each was taken for.
   */
  datatype Dev = Dev(
    bds: seq<Bd>, hw: nat, bufs: seq<seq<int>>,
    next: nat, last: nat, full: bool, keys: seq<nat>, packets: nat,
    acc: seq<Frame>, slot: seq<nat>, holds: seq<nat>, wire: seq<seq<int>>,
    told: seq<nat>, rep: seq<nat>)

  /** Where the driver stands: in `openeth_send` before READY is set, in `oeth_tx`, or in the key scan. */
  datatype Pc = Idle | Arm(j: nat) | TxLoop | Scan(i: nat)

  datatype State = State(d: Dev, pc: Pc)

  datatype Action = Send(key: nat, data: seq<int>) | TxDone | Sw | MacSend(err: bool)

  predicate Wf(s: State) {
    && s.d.next < |s.d.bds| && s.d.last < |s.d.bds|
    && |s.d.keys| == |s.d.bufs| == |s.d.holds| == |s.d.bds|
    && (s.pc.Arm? ==> s.pc.j < |s.d.bds|)
  }

  /** `openeth_device_init`: WRAP on the last descriptor, nothing ready. */
  function Init(n: nat): (s: State)
    requires n >= 1
    ensures Wf(s)
  {
    State(Dev(seq(n, (j: nat) => Bd(false, true, j == n - 1, false, j, 0)), 0, seq(n, _ => []),
              0, 0, false, seq(n, _ => 0), 0, [], [], seq(n, _ => 0), [], [], []), Idle)
  }

  predicate CanSend(s: State) {
    !s.d.full
  }

  /** The copy into a transmit buffer: what was behind the frame stays there. */
  function CopyIn(buf: seq<int>, data: seq<int>): (r: seq<int>)
    ensures data <= r
  {
    data + if |data| < |buf| then buf[|data|..] else []
  }

  /** The part of a buffer the MAC reads for a descriptor of length `len`. */
  function Front(buf: seq<int>, len: int): seq<int> {
    if 0 <= len <= |buf| then buf[..len] else buf
  }

  /** `openeth_send` up to the READY bit. The key is stored before the checks that may give up. */
  function SendFrame(d: Dev, key: nat, data: seq<int>): (Dev, Pc)
    requires d.next < |d.bds| && |d.keys| == |d.bufs| == |d.holds| == |d.bds|
  {
    var j := d.next;
    var d := d.(keys := d.keys[j := key]);
    if d.bds[j].own || d.full || |data| > OETH_TX_BUFF_SIZE then (d, Idle)
    else
      var next := if j + 1 >= |d.bds| then 0 else j + 1;
      (d.(bds := d.bds[j := d.bds[j].(err := false, len := |data|)], bufs := d.bufs[j := CopyIn(d.bufs[j], data)],
          next := next, full := next == d.last,
          acc := d.acc + [Frame(key, data)], slot := d.slot + [j], holds := d.holds[j := |d.acc|]), Arm(j))
  }

  function Ready(d: Dev, j: nat): Dev
    requires j < |d.bds|
  {
    d.(bds := d.bds[j := d.bds[j].(own := true, irq := true)])
  }

  /** One round of `oeth_tx`: the loop's test, and the body when it passes. */
  function TxRound(d: Dev): (Dev, Pc)
    requires d.last < |d.bds|
  {
    if d.bds[d.last].own || (d.last == d.next && !d.full) then (d, Scan(0))
    else (d.(packets := d.packets + 1, full := false, last := if d.last + 1 == |d.bds| then 0 else d.last + 1), TxLoop)
  }

  /** One round of the key scan of `oeth_txdone`. */
  function ScanRound(d: Dev, i: nat): (Dev, Pc)
    requires |d.keys| == |d.holds| == |d.bds|
  {
    if i >= |d.bds| then (d, Idle)
    else if d.keys[i] != 0 && !d.bds[i].own
    then (d.(keys := d.keys[i := 0], told := d.told + [d.keys[i]], rep := d.rep + [d.holds[i]]), Scan(i + 1))
    else (d, Scan(i + 1))
  }

  predicate MacCanSend(d: Dev) {
    d.hw < |d.bds| && d.bds[d.hw].own && |d.bufs| == |d.bds|
  }

  function MacSends(d: Dev, err: bool): Dev
    requires MacCanSend(d)
  {
    var (bds, hw) := Finish(d.bds, d.hw, err);
    d.(bds := bds, hw := hw, wire := d.wire + [Front(d.bufs[d.hw], d.bds[d.hw].len)])
  }

  function Step(s: State, a: Action): (s': State)
    requires Wf(s)
    ensures Wf(s')
  {
    match a
    case Send(key, data) =>
      if s.pc == Idle then var (d, pc) := SendFrame(s.d, key, data); State(d, pc) else s
    case TxDone => if s.pc == Idle then s.(pc := TxLoop) else s
    case MacSend(err) => if MacCanSend(s.d) then s.(d := MacSends(s.d, err)) else s
    case Sw =>
      match s.pc
      case Idle => s
      case Arm(j) => State(Ready(s.d, j), Idle)
      case TxLoop => var (d, pc) := TxRound(s.d); State(d, pc)
      case Scan(i) => var (d, pc) := ScanRound(s.d, i); State(d, pc)
  }

  // ---- The invariant ----

  /** Frames accepted and not yet taken back by `oeth_tx`, in the encoding of the three fields. */
  function Count(d: Dev): nat
    requires d.next < |d.bds| && d.last < |d.bds|
  {
    if d.full then |d.bds| else Dist(d.last, d.next, |d.bds|)
  }

  /** Of those, how many the MAC has been given: all but one that is still being armed. */
  function Given(s: State): int
    requires Wf(s)
  {
    Count(s.d) - if s.pc.Arm? then 1 else 0
  }

  ghost predicate RingOk(s: State)
    requires Wf(s)
  {
    var d := s.d;
    var n := |d.bds|;
    && (d.full ==> d.next == d.last)
    && d.packets + Count(d) == |d.acc|
    && d.packets <= |d.wire| && 0 <= Given(s)
    && Window(d.bds, d.last, Given(s), |d.wire| - d.packets, d.hw)
    && (forall j :: 0 <= j < n ==> (d.bds[j].wrap <==> j == n - 1) && d.bds[j].irq)
    && (s.pc.Arm? ==> s.pc.j == Slot(d.last, Given(s), n))
  }

  /** The frames in flight are in their buffers, with their lengths, and the wire carries the frames before them. */
  ghost predicate DataOk(s: State)
    requires Wf(s)
  {
    var d := s.d;
    && |d.slot| == |d.acc| && |d.wire| <= |d.acc|
    && d.packets + Count(d) == |d.acc| && Count(d) <= |d.bds|
    && (forall k :: 0 <= k < |d.acc| ==> d.slot[k] < |d.bds|)
    && (forall i :: 0 <= i < Count(d) ==>
          var j := Slot(d.last, i, |d.bds|);
          && d.slot[d.packets + i] == j && d.holds[j] == d.packets + i
          && d.acc[d.packets + i].data <= d.bufs[j] && d.bds[j].len == |d.acc[d.packets + i].data|)
    && (forall k :: 0 <= k < |d.wire| ==> d.wire[k] == d.acc[k].data)
  }

  /** The key of the k-th accepted send is still waiting in its descriptor. */
  predicate Outstanding(d: Dev, k: nat)
    requires k < |d.slot| && k < |d.acc| && d.slot[k] < |d.keys| && |d.holds| == |d.keys|
  {
    d.holds[d.slot[k]] == k && d.keys[d.slot[k]] == d.acc[k].key
  }

  ghost predicate KeysOk(s: State)
    requires Wf(s)
  {
    var d := s.d;
    && |d.slot| == |d.acc| && |d.told| == |d.rep|
    && (forall k :: 0 <= k < |d.acc| ==>
          d.acc[k].key != 0 && d.slot[k] < |d.bds| && (k in d.rep <==> !Outstanding(d, k)))
    && (forall m :: 0 <= m < |d.rep| ==> d.rep[m] < |d.wire| && d.rep[m] < |d.acc| && d.told[m] == d.acc[d.rep[m]].key)
    && (forall m, m' :: 0 <= m < m' < |d.rep| ==> d.rep[m] != d.rep[m'])
    && (forall j :: 0 <= j < |d.bds| && d.keys[j] != 0 ==>
          d.holds[j] < |d.acc| && d.slot[d.holds[j]] == j && d.keys[j] == d.acc[d.holds[j]].key)
  }

  function KeysOf(acc: seq<Frame>): seq<nat> {
    seq(|acc|, k requires 0 <= k < |acc| => acc[k].key)
  }

  /** The keys in the descriptors, without the zeros that stand for none. */
  function Waiting(keys: seq<nat>): multiset<nat> {
    multiset(keys)[0 := 0]
  }

  /** The promise about keys, in what the stack sees: each one accepted was given to `tx_done` or waits to be. */
  predicate Balanced(d: Dev) {
    multiset(KeysOf(d.acc)) == multiset(d.told) + Waiting(d.keys)
  }

  /** Outside `oeth_txdone` a descriptor outside the window has no key; the scan restores this. */
  ghost predicate KeysAt(s: State)
    requires Wf(s)
  {
    var d := s.d;
    match s.pc
    case TxLoop => true
    case Scan(i) =>
      forall j :: 0 <= j < |d.bds| && j < i && Dist(d.last, j, |d.bds|) >= Count(d) ==> d.keys[j] == 0
    case _ =>
      forall j :: 0 <= j < |d.bds| && Dist(d.last, j, |d.bds|) >= Count(d) ==> d.keys[j] == 0
  }

  ghost predicate Inv(s: State) {
    Wf(s) && RingOk(s) && DataOk(s) && KeysOk(s) && KeysAt(s) && Balanced(s.d)
  }

  // ---- Preservation ----

  lemma InitInv(n: nat)
    requires n >= 1
    ensures Inv(Init(n))
  {
    var keys := Init(n).d.keys;
    assert forall k :: k in multiset(keys) ==> k == 0;
    assert KeysOf([]) == [];
  }

  /** What a caller of `openeth_send` is expected to respect. */
  predicate Allowed(s: State, a: Action) {
    a.Send? && s.pc == Idle ==> CanSend(s) && a.key != 0 && |a.data| <= OETH_TX_BUFF_SIZE
  }

  lemma SendCount(d: Dev, key: nat, data: seq<int>)
    requires d.next < |d.bds| && d.last < |d.bds| && |d.keys| == |d.bufs| == |d.holds| == |d.bds|
    requires !d.full && !d.bds[d.next].own && |data| <= OETH_TX_BUFF_SIZE
    ensures Count(SendFrame(d, key, data).0) == Count(d) + 1
    ensures SendFrame(d, key, data).0.full ==> SendFrame(d, key, data).0.next == d.last
    ensures d.next == Slot(d.last, Count(d), |d.bds|)
  {
  }

  /** The descriptor just behind a window that does not fill the ring is not the MAC's, and may be prepared. */
  lemma Prepare(bds: seq<Bd>, cur: nat, cnt: nat, done: nat, hw: nat, b: Bd)
    requires Window(bds, cur, cnt, done, hw) && cnt < |bds| && cur < |bds| && !b.own
    ensures !bds[Slot(cur, cnt, |bds|)].own && Window(bds[Slot(cur, cnt, |bds|) := b], cur, cnt, done, hw)
  {
    assert Dist(cur, Slot(cur, cnt, |bds|), |bds|) == cnt;
    WindowFrame(bds, cur, cnt, done, hw, Slot(cur, cnt, |bds|), b);
  }

  lemma SendRing(s: State, key: nat, data: seq<int>)
    requires Wf(s) && RingOk(s) && s.pc == Idle && CanSend(s) && |data| <= OETH_TX_BUFF_SIZE
    ensures var (d, pc) := SendFrame(s.d, key, data); pc == Arm(s.d.next) && RingOk(State(d, pc))
    ensures Count(SendFrame(s.d, key, data).0) == Count(s.d) + 1
    ensures s.d.next == Slot(s.d.last, Count(s.d), |s.d.bds|)
  {
    hide Window;
    var d, j := s.d, s.d.next;
    assert j == Slot(d.last, Count(d), |d.bds|);
    Prepare(d.bds, d.last, Count(d), |d.wire| - d.packets, d.hw, d.bds[j].(own := false, err := false, len := |data|));
    SendCount(d, key, data);
  }

  lemma SendData(s: State, key: nat, data: seq<int>)
    requires Wf(s) && DataOk(s) && s.pc == Idle && CanSend(s) && |data| <= OETH_TX_BUFF_SIZE
    requires !s.d.bds[s.d.next].own && s.d.next == Slot(s.d.last, Count(s.d), |s.d.bds|)
    requires Count(SendFrame(s.d, key, data).0) == Count(s.d) + 1
    ensures var (d, pc) := SendFrame(s.d, key, data); DataOk(State(d, pc))
  {
  }

  lemma SendKeys(s: State, key: nat, data: seq<int>)
    requires Wf(s) && KeysOk(s) && KeysAt(s) && s.pc == Idle && CanSend(s) && key != 0 && |data| <= OETH_TX_BUFF_SIZE
    requires |s.d.wire| <= |s.d.acc|
    requires !s.d.bds[s.d.next].own && s.d.next == Slot(s.d.last, Count(s.d), |s.d.bds|)
    requires Count(SendFrame(s.d, key, data).0) == Count(s.d) + 1
    ensures var (d, pc) := SendFrame(s.d, key, data); KeysOk(State(d, pc)) && KeysAt(State(d, pc))
    ensures s.d.keys[s.d.next] == 0
  {
    var d := s.d;
    var (d', pc') := SendFrame(d, key, data);
    assert Dist(d.last, d.next, |d.bds|) == Count(d);
    assert d.keys[d.next] == 0;
    forall k | 0 <= k < |d'.acc|
      ensures d'.acc[k].key != 0 && d'.slot[k] < |d'.bds| && (k in d'.rep <==> !Outstanding(d', k))
    {
      if k < |d.acc| {
        assert d'.slot[k] == d.slot[k];
        assert Outstanding(d, k) <==> Outstanding(d', k);
      }
    }
  }

  lemma SendKeeps(s: State, key: nat, data: seq<int>)
    requires Inv(s) && s.pc == Idle && CanSend(s) && key != 0 && |data| <= OETH_TX_BUFF_SIZE
    ensures var (d, pc) := SendFrame(s.d, key, data); Inv(State(d, pc))
  {
    hide DataOk, KeysOk, KeysAt;
    SendRing(s, key, data);
    assert !s.d.bds[s.d.next].own;
    WireBound(s);
    SendData(s, key, data);
    SendKeys(s, key, data);
    KeysOfMore(s.d.acc, Frame(key, data));
    Filled(s.d.keys, s.d.next, key);
  }

  lemma KeysOfMore(acc: seq<Frame>, x: Frame)
    ensures KeysOf(acc + [x]) == KeysOf(acc) + [x.key]
  {
  }

  /** Storing a key in an empty slot, taking one out of its slot, and storing one over another. */
  lemma Filled(keys: seq<nat>, j: nat, key: nat)
    requires j < |keys|
    ensures keys[j] == 0 && key != 0 ==> Waiting(keys[j := key]) == Waiting(keys) + multiset{key}
    ensures keys[j] != 0 && key == 0 ==> Waiting(keys) == Waiting(keys[j := key]) + multiset{keys[j]}
    ensures keys[j] != 0 && key != 0 ==> Waiting(keys) + multiset{key} == Waiting(keys[j := key]) + multiset{keys[j]}
  {
    assert multiset(keys[j := key]) == multiset(keys) - multiset{keys[j]} + multiset{key};
  }

  lemma WireBound(s: State)
    requires Wf(s) && DataOk(s)
    ensures |s.d.wire| <= |s.d.acc|
  {
  }

  /** Keys, holders and reports unchanged, and the wire no shorter: the key books stay right. */
  lemma KeysFrame(s: State, s': State)
    requires Wf(s) && Wf(s') && KeysOk(s)
    requires s'.d.keys == s.d.keys && s'.d.holds == s.d.holds && s'.d.slot == s.d.slot && s'.d.acc == s.d.acc
    requires s'.d.rep == s.d.rep && s'.d.told == s.d.told && |s.d.wire| <= |s'.d.wire| && |s'.d.bds| == |s.d.bds|
    ensures KeysOk(s')
  {
    assert forall k :: 0 <= k < |s.d.acc| && s.d.slot[k] < |s.d.keys| ==>
        (Outstanding(s'.d, k) <==> Outstanding(s.d, k));
  }

  lemma ReadyRing(s: State)
    requires Wf(s) && RingOk(s) && s.pc.Arm?
    ensures RingOk(State(Ready(s.d, s.pc.j), Idle))
  {
    var d, j := s.d, s.pc.j;
    WindowPush(d.bds, d.last, Given(s), |d.wire| - d.packets, d.hw, d.bds[j].(own := true, irq := true));
  }

  lemma ReadyKeeps(s: State)
    requires Inv(s) && s.pc.Arm?
    ensures Inv(State(Ready(s.d, s.pc.j), Idle))
  {
    hide KeysOk, RingOk;
    ReadyRing(s);
    KeysFrame(s, State(Ready(s.d, s.pc.j), Idle));
  }

  lemma TxRoundKeeps(s: State)
    requires Inv(s) && s.pc == TxLoop
    ensures var (d, pc) := TxRound(s.d); Inv(State(d, pc))
  {
    hide KeysOk, Window;
    var (d', pc') := TxRound(s.d);
    KeysFrame(s, State(d', pc'));
    if pc' == TxLoop {
      TxRoundRing(s);
      TxRoundData(s);
    }
  }

  lemma TxRoundCount(d: Dev)
    requires d.next < |d.bds| && d.last < |d.bds| && (d.full ==> d.next == d.last)
    requires TxRound(d).1 == TxLoop
    ensures Count(d) > 0 && Count(TxRound(d).0) == Count(d) - 1 && TxRound(d).0.last == Slot(d.last, 1, |d.bds|)
  {
  }

  lemma TxRoundRing(s: State)
    requires Wf(s) && RingOk(s) && s.pc == TxLoop && TxRound(s.d).1 == TxLoop
    ensures Count(s.d) > 0 && Count(TxRound(s.d).0) == Count(s.d) - 1
    ensures RingOk(State(TxRound(s.d).0, TxLoop))
  {
    hide Window;
    TxRoundCount(s.d);
    TakeBack(s.d.bds, s.d.last, Count(s.d), |s.d.wire| - s.d.packets, s.d.hw);
  }

  lemma TakeBack(bds: seq<Bd>, cur: nat, cnt: nat, done: nat, hw: nat)
    requires Window(bds, cur, cnt, done, hw) && cnt > 0 && cur < |bds| && !bds[cur].own
    ensures done > 0 && Window(bds, Slot(cur, 1, |bds|), cnt - 1, done - 1, hw)
  {
    WindowHead(bds, cur, cnt, done, hw);
    WindowPop(bds, cur, cnt, done, hw);
  }

  lemma TxRoundData(s: State)
    requires Wf(s) && DataOk(s) && s.pc == TxLoop && TxRound(s.d).1 == TxLoop
    requires Count(s.d) > 0 && Count(TxRound(s.d).0) == Count(s.d) - 1
    ensures DataOk(State(TxRound(s.d).0, TxLoop))
  {
    var d, d', n := s.d, TxRound(s.d).0, |s.d.bds|;
    forall i | 0 <= i < Count(d')
      ensures Slot(d'.last, i, n) == Slot(d.last, i + 1, n)
    {
    }
  }

  /** A descriptor the MAC does not own, with a key in it, holds a frame the MAC has sent. */
  lemma KeyedIsSent(s: State, i: nat)
    requires Wf(s) && RingOk(s) && DataOk(s) && i < |s.d.bds| && !s.pc.Arm? && !s.d.bds[i].own
    requires s.d.holds[i] < |s.d.acc| && s.d.slot[s.d.holds[i]] == i
    ensures s.d.holds[i] < |s.d.wire|
  {
    var d, n := s.d, |s.d.bds|;
    if d.holds[i] >= d.packets {
      var e := d.holds[i] - d.packets;
      assert d.slot[d.packets + e] == Slot(d.last, e, n);
      assert Dist(d.last, i, n) == e;
    }
  }

  lemma ScanKeys(s: State, i: nat)
    requires Wf(s) && KeysOk(s) && s.pc == Scan(i) && i < |s.d.bds| && s.d.keys[i] != 0 && !s.d.bds[i].own
    requires s.d.holds[i] < |s.d.wire|
    ensures KeysOk(State(ScanRound(s.d, i).0, Scan(i + 1)))
  {
    var d, d' := s.d, ScanRound(s.d, i).0;
    var h := d.holds[i];
    assert Outstanding(d, h);
    forall k | 0 <= k < |d.acc|
      ensures k in d'.rep <==> !Outstanding(d', k)
    {
      if k != h {
        assert Outstanding(d', k) <==> Outstanding(d, k);
      }
    }
  }

  lemma ScanKeeps(s: State, i: nat)
    requires Inv(s) && s.pc == Scan(i)
    ensures var (d, pc) := ScanRound(s.d, i); Inv(State(d, pc))
  {
    hide KeysOk, KeysAt, RingOk, DataOk;
    var d := s.d;
    var (d', pc') := ScanRound(d, i);
    if i < |d.bds| && d.keys[i] != 0 && !d.bds[i].own {
      KeyHolder(s, i);
      KeyedIsSent(s, i);
      ScanKeys(s, i);
      Filled(d.keys, i, 0);
    } else {
      KeysFrame(s, State(d', pc'));
    }
    ScanAt(s, i);
    ScanRest(s, i);
  }

  lemma ScanRest(s: State, i: nat)
    requires Wf(s) && RingOk(s) && DataOk(s) && s.pc == Scan(i)
    ensures var (d, pc) := ScanRound(s.d, i); RingOk(State(d, pc)) && DataOk(State(d, pc))
  {
    hide Window;
  }

  lemma KeyHolder(s: State, i: nat)
    requires Wf(s) && KeysOk(s) && i < |s.d.bds| && s.d.keys[i] != 0
    ensures s.d.holds[i] < |s.d.acc| && s.d.slot[s.d.holds[i]] == i
  {
  }

  /** The scan leaves no key behind it outside the window. */
  lemma ScanAt(s: State, i: nat)
    requires Wf(s) && RingOk(s) && KeysAt(s) && s.pc == Scan(i)
    ensures var (d, pc) := ScanRound(s.d, i); KeysAt(State(d, pc))
  {
  }

  lemma MacSendRing(s: State, err: bool)
    requires Wf(s) && RingOk(s) && MacCanSend(s.d)
    ensures RingOk(s.(d := MacSends(s.d, err)))
    ensures |s.d.wire| - s.d.packets < Count(s.d) && s.d.hw == Slot(s.d.last, |s.d.wire| - s.d.packets, |s.d.bds|)
  {
    hide Window;
    WindowFinish(s.d.bds, s.d.last, Given(s), |s.d.wire| - s.d.packets, s.d.hw, err);
  }

  lemma MacData(s: State, err: bool)
    requires Wf(s) && DataOk(s) && MacCanSend(s.d) && s.d.packets <= |s.d.wire|
    requires |s.d.wire| - s.d.packets < Count(s.d) && s.d.hw == Slot(s.d.last, |s.d.wire| - s.d.packets, |s.d.bds|)
    ensures DataOk(s.(d := MacSends(s.d, err)))
  {
    var i := |s.d.wire| - s.d.packets;
    assert Front(s.d.bufs[s.d.hw], s.d.bds[s.d.hw].len) == s.d.acc[s.d.packets + i].data;
  }

  lemma MacKeeps(s: State, err: bool)
    requires Inv(s) && MacCanSend(s.d)
    ensures Inv(s.(d := MacSends(s.d, err)))
  {
    hide KeysOk, Window, DataOk;
    MacSendRing(s, err);
    MacData(s, err);
    KeysFrame(s, s.(d := MacSends(s.d, err)));
  }

  lemma StepKeeps(s: State, a: Action)
    requires Inv(s) && Allowed(s, a)
    ensures Inv(Step(s, a))
  {
    hide RingOk, DataOk, KeysOk;
    match a
    case Send(key, data) =>
      if s.pc == Idle {
        SendKeeps(s, key, data);
      }
    case TxDone =>
      if s.pc == Idle {
        StartKeeps(s);
      }
    case MacSend(err) =>
      if MacCanSend(s.d) {
        MacKeeps(s, err);
      }
    case Sw =>
      match s.pc
      case Idle =>
      case Arm(j) => ReadyKeeps(s);
      case TxLoop => TxRoundKeeps(s);
      case Scan(i) => ScanKeeps(s, i);
  }

  lemma StartKeeps(s: State)
    requires Inv(s) && s.pc == Idle
    ensures Inv(s.(pc := TxLoop))
  {
  }

  // ---- Every run ----

  function Run(s: State, acts: seq<Action>): (s': State)
    requires Wf(s)
    ensures Wf(s')
  {
    if acts == [] then s else Step(Run(s, acts[..|acts| - 1]), acts[|acts| - 1])
  }

  /** Every send of the run respects its caller's side of the bargain at the moment it is made. */
  predicate Legal(s: State, acts: seq<Action>)
    requires Wf(s)
  {
    acts == [] ||
    (Legal(s, acts[..|acts| - 1]) && Allowed(Run(s, acts[..|acts| - 1]), acts[|acts| - 1]))
  }

  /** A state that some legal run from initialisation can reach. */
  ghost predicate Reached(s: State) {
    exists n: nat, acts: seq<Action> :: n >= 1 && Legal(Init(n), acts) && s == Run(Init(n), acts)
  }

  lemma {:induction false} RunInv(n: nat, acts: seq<Action>)
    requires n >= 1 && Legal(Init(n), acts)
    ensures Inv(Run(Init(n), acts))
  {
    hide Inv, Step, Allowed;
    if acts == [] {
      InitInv(n);
    } else {
      var k := |acts| - 1;
      RunInv(n, acts[..k]);
      StepKeeps(Run(Init(n), acts[..k]), acts[k]);
    }
  }

  lemma ReachedInv(s: State)
    requires Reached(s)
    ensures Inv(s)
  {
    var n: nat, acts: seq<Action> :| n >= 1 && Legal(Init(n), acts) && s == Run(Init(n), acts);
    RunInv(n, acts);
  }

  /**
   The ring after every legal run: WRAP sits exactly on the last descriptor; packets counted plus
   frames in flight equal accepted sends; the wire carries the accepted frames in order; the MAC
   stands inside the window the three fields describe.
   */
  lemma RingAndWire(s: State)
    requires Reached(s)
    ensures Wf(s)
    ensures var d := s.d; var n := |d.bds|;
      && (forall j :: 0 <= j < n ==> (d.bds[j].wrap <==> j == n - 1))
      && d.packets + Count(d) == |d.acc|
      && d.packets <= |d.wire| <= |d.acc|
      && (forall k :: 0 <= k < |d.wire| ==> d.wire[k] == d.acc[k].data)
      && (forall j :: 0 <= j < n && d.bds[j].own ==> |d.wire| - d.packets <= Dist(d.last, j, n) < Count(d))
  {
    hide Reached;
    ReachedInv(s);
  }

  /**
   The keys after every legal run. What the stack sees: the accepted keys are, with multiplicity, those
   given to `tx_done` and those waiting in descriptors. Send by send: each accepted key waits in its
   descriptor or has been told, never both; the m-th key told is the key of send rep[m], no send is
   told twice, none before the MAC has sent its frame; and outside `oeth_txdone` every frame counted
   in `tx_packets` has been told.
   */
  lemma KeysOnce(s: State)
    requires Reached(s)
    ensures Balanced(s.d)
    ensures Wf(s) && |s.d.slot| == |s.d.acc| && |s.d.told| == |s.d.rep|
    ensures forall k :: 0 <= k < |s.d.acc| ==> s.d.slot[k] < |s.d.bds| && (k in s.d.rep <==> !Outstanding(s.d, k))
    ensures forall m :: 0 <= m < |s.d.rep| ==>
              s.d.rep[m] < |s.d.wire| <= |s.d.acc| && s.d.told[m] == s.d.acc[s.d.rep[m]].key
    ensures forall m, m' :: 0 <= m < m' < |s.d.rep| ==> s.d.rep[m] != s.d.rep[m']
    ensures s.pc == Idle ==> forall k :: 0 <= k < s.d.packets && k < |s.d.acc| ==> k in s.d.rep
  {
    hide Reached;
    ReachedInv(s);
    if s.pc == Idle {
      forall k | 0 <= k < s.d.packets && k < |s.d.acc|
        ensures k in s.d.rep
      {
        CountedIsReported(s, k);
      }
    }
  }

  lemma CountedIsReported(s: State, k: nat)
    requires Inv(s) && s.pc == Idle && k < s.d.packets && k < |s.d.acc|
    ensures k in s.d.rep
  {
    hide Window;
    var d, n := s.d, |s.d.bds|;
    var j := d.slot[k];
    var e := Dist(d.last, j, n);
    if e < Count(d) {
      assert Slot(d.last, e, n) == j;
      assert d.holds[Slot(d.last, e, n)] == d.packets + e;
    }
  }

  /** The ring as the bounded queue of `MacRing`: accepted frames not yet taken back, oldest first. */
  function TxFifo(s: State): Fifo<Frame>
    requires Wf(s)
  {
    var d := s.d;
    var lo := if d.packets <= |d.acc| then d.packets else |d.acc|;
    Fifo(|d.bds|, d.acc[lo..], if |d.wire| < lo then 0 else |d.wire| - lo)
  }

  /** Every legal action is a step of the bounded queue, or no step of it. */
  lemma RefinesFifo(s: State, a: Action)
    requires Reached(s) && Wf(s) && Allowed(s, a)
    ensures FifoOk(TxFifo(s)) && FifoStep(TxFifo(s), TxFifo(Step(s, a)))
  {
    hide Reached, RingOk, DataOk, KeysOk, KeysAt, FifoStep;
    ReachedInv(s);
    FifoFacts(s);
    StepKeeps(s, a);
    FifoFacts(Step(s, a));
    match a
    case Send(key, data) => SendFifo(s, key, data);
    case TxDone => SameFifo(s, Step(s, a));
    case MacSend(err) => MacFifo(s, err);
    case Sw => SwFifo(s);
  }

  /** What the invariant says about the lengths the queue is made of. */
  lemma FifoFacts(s: State)
    requires Inv(s)
    ensures s.d.packets <= |s.d.wire| <= |s.d.acc| <= s.d.packets + |s.d.bds|
    ensures MacCanSend(s.d) ==> |s.d.wire| < |s.d.acc|
    ensures s.pc == TxLoop && TxRound(s.d).1 == TxLoop ==> s.d.packets < |s.d.wire|
    ensures s.pc == Idle && CanSend(s) ==> !s.d.bds[s.d.next].own && |s.d.acc| < s.d.packets + |s.d.bds|
  {
    hide KeysOk, KeysAt;
    if s.pc == TxLoop && TxRound(s.d).1 == TxLoop {
      TxRoundCount(s.d);
      TakeBack(s.d.bds, s.d.last, Count(s.d), |s.d.wire| - s.d.packets, s.d.hw);
    }
  }

  lemma SameFifo(s: State, s': State)
    requires Wf(s) && Wf(s') && s'.d.packets == s.d.packets && s'.d.acc == s.d.acc && s'.d.wire == s.d.wire
    requires |s'.d.bds| == |s.d.bds|
    ensures FifoStep(TxFifo(s), TxFifo(s'))
  {
  }

  lemma SendFifo(s: State, key: nat, data: seq<int>)
    requires Wf(s) && Allowed(s, Send(key, data)) && s.d.packets <= |s.d.wire| <= |s.d.acc|
    requires s.pc == Idle && CanSend(s) ==> !s.d.bds[s.d.next].own && |s.d.acc| < s.d.packets + |s.d.bds|
    ensures FifoStep(TxFifo(s), TxFifo(Step(s, Send(key, data))))
  {
    if s.pc == Idle {
      var d' := SendFrame(s.d, key, data).0;
      assert d'.acc[s.d.packets..] == s.d.acc[s.d.packets..] + [Frame(key, data)];
    }
  }

  lemma MacFifo(s: State, err: bool)
    requires Wf(s) && s.d.packets <= |s.d.wire| <= |s.d.acc| && (MacCanSend(s.d) ==> |s.d.wire| < |s.d.acc|)
    ensures FifoStep(TxFifo(s), TxFifo(Step(s, MacSend(err))))
  {
  }

  lemma SwFifo(s: State)
    requires Wf(s) && s.d.packets <= |s.d.wire| <= |s.d.acc|
    requires s.pc == TxLoop && TxRound(s.d).1 == TxLoop ==> s.d.packets < |s.d.wire|
    ensures FifoStep(TxFifo(s), TxFifo(Step(s, Sw)))
  {
    if s.pc == TxLoop && TxRound(s.d).1 == TxLoop {
      assert s.d.acc[s.d.packets + 1..] == s.d.acc[s.d.packets..][1..];
    } else {
      SameFifo(s, Step(s, Sw));
    }
  }

  /**
   The exact bargain of `openeth_send`. In a state the driver can be in, the promise about keys holds
   after a send if and only if the ring is not full and the frame fits, or the descriptor already holds
   that very key: otherwise the key it stores first overwrites one that waits, or waits to be told for
   a frame it does not send.
   */
  lemma SendExactly(s: State, key: nat, data: seq<int>)
    requires Inv(s) && s.pc == Idle && key != 0
    ensures Balanced(Step(s, Send(key, data)).d)
       <==> (CanSend(s) && |data| <= OETH_TX_BUFF_SIZE) || s.d.keys[s.d.next] == key
    ensures Balanced(Step(s, Send(key, data)).d) <==> Inv(Step(s, Send(key, data)))
  {
    hide RingOk, DataOk, KeysOk, KeysAt, Waiting, SendFrame;
    if CanSend(s) && |data| <= OETH_TX_BUFF_SIZE {
      SendKeeps(s, key, data);
    } else {
      RefusedSend(s, key, data);
      Filled(s.d.keys, s.d.next, key);
      if s.d.keys[s.d.next] == key {
        assert s.d.keys[s.d.next := key] == s.d.keys;
      } else {
        OneMore(s.d.keys, s.d.next, key);
        var w, w' := Waiting(s.d.keys), Waiting(s.d.keys[s.d.next := key]);
        assert (multiset(s.d.told) + w)[key] != (multiset(s.d.told) + w')[key];
      }
    }
  }

  lemma OneMore(keys: seq<nat>, j: nat, key: nat)
    requires j < |keys| && key != 0 && keys[j] != key
    ensures Waiting(keys[j := key])[key] == Waiting(keys)[key] + 1
  {
    assert multiset(keys[j := key]) == multiset(keys) - multiset{keys[j]} + multiset{key};
  }

  /** A refused send does nothing but store the key. */
  lemma RefusedSend(s: State, key: nat, data: seq<int>)
    requires Inv(s) && s.pc == Idle && !(CanSend(s) && |data| <= OETH_TX_BUFF_SIZE)
    ensures Step(s, Send(key, data)) == s.(d := s.d.(keys := s.d.keys[s.d.next := key]))
  {
  }

  /** How often `k` has been given to `tx_done` or waits to be. */
  function Chances(d: Dev, k: nat): nat {
    multiset(d.told)[k] + multiset(d.keys)[k]
  }

  lemma Stored(keys: seq<nat>, j: nat, key: nat, k: nat)
    requires j < |keys| && key != k
    ensures multiset(keys[j := key])[k] == multiset(keys)[k] - (if keys[j] == k then 1 else 0)
  {
    assert multiset(keys[j := key]) == multiset(keys) - multiset{keys[j]} + multiset{key};
  }

  lemma SendNoChance(d: Dev, key: nat, data: seq<int>, k: nat)
    requires d.next < |d.bds| && |d.keys| == |d.bufs| == |d.holds| == |d.bds| && key != k
    ensures Chances(SendFrame(d, key, data).0, k) <= Chances(d, k)
    ensures multiset(KeysOf(SendFrame(d, key, data).0.acc))[k] == multiset(KeysOf(d.acc))[k]
  {
    Stored(d.keys, d.next, key, k);
    KeysOfMore(d.acc, Frame(key, data));
    assert multiset([key])[k] == 0;
  }

  lemma ScanNoChance(d: Dev, i: nat, k: nat)
    requires |d.keys| == |d.holds| == |d.bds| && k != 0
    ensures Chances(ScanRound(d, i).0, k) == Chances(d, k) && ScanRound(d, i).0.acc == d.acc
  {
    if i < |d.bds| {
      Stored(d.keys, i, 0, k);
    }
  }

  /** Only a send of `k` can bring `k` to `tx_done` once more. */
  lemma NoNewChance(s: State, a: Action, k: nat)
    requires Wf(s) && k != 0 && !(a.Send? && a.key == k)
    ensures Chances(Step(s, a).d, k) <= Chances(s.d, k)
    ensures multiset(KeysOf(Step(s, a).d.acc))[k] == multiset(KeysOf(s.d.acc))[k]
  {
    hide SendFrame, ScanRound, KeysOf;
    match a
    case Send(key, data) => SendNoChance(s.d, key, data, k);
    case TxDone =>
    case MacSend(err) =>
    case Sw =>
      if s.pc.Scan? {
        ScanNoChance(s.d, s.pc.i, k);
      }
  }

  lemma {:induction false} NoMoreChances(s: State, acts: seq<Action>, k: nat)
    requires Wf(s) && k != 0 && forall i :: 0 <= i < |acts| ==> !(acts[i].Send? && acts[i].key == k)
    ensures Chances(Run(s, acts).d, k) <= Chances(s.d, k)
    ensures multiset(KeysOf(Run(s, acts).d.acc))[k] == multiset(KeysOf(s.d.acc))[k]
  {
    hide Step, Chances;
    if acts != [] {
      NoMoreChances(s, acts[..|acts| - 1], k);
      NoNewChance(Run(s, acts[..|acts| - 1]), acts[|acts| - 1], k);
    }
  }

  /**
   What a refused send over a waiting key does: however the run goes on, legal or not, until the stack
   sends that key again it has been told less often than it was accepted.
   */
  lemma NeverTold(s: State, key: nat, data: seq<int>, acts: seq<Action>)
    requires Inv(s) && s.pc == Idle && !(CanSend(s) && |data| <= OETH_TX_BUFF_SIZE)
    requires s.d.keys[s.d.next] != 0 && s.d.keys[s.d.next] != key
    requires forall i :: 0 <= i < |acts| ==> !(acts[i].Send? && acts[i].key == s.d.keys[s.d.next])
    ensures var k, d := s.d.keys[s.d.next], Run(Step(s, Send(key, data)), acts).d;
            multiset(d.told)[k] < multiset(KeysOf(d.acc))[k]
  {
    hide RingOk, DataOk, KeysOk, KeysAt, SendFrame, Run, Step, Balanced, KeysOf;
    var k := s.d.keys[s.d.next];
    RefusedSend(s, key, data);
    NoMoreChances(Step(s, Send(key, data)), acts, k);
    Stored(s.d.keys, s.d.next, key, k);
    BalancedAt(s.d, k);
  }

  lemma BalancedAt(d: Dev, k: nat)
    requires Balanced(d) && k != 0
    ensures multiset(KeysOf(d.acc))[k] == Chances(d, k)
  {
  }

  /** The state after one accepted send on a ring of one. */
  lemma OneInFlight()
    ensures var acts := [Send(7, []), Sw];
            var s := Run(Init(1), acts);
            && Legal(Init(1), acts) && s.pc == Idle && s.d.full && s.d.next == 0
            && s.d.keys == [7] && KeysOf(s.d.acc) == [7]
  {
    var acts := [Send(7, []), Sw];
    assert acts[..1] == [Send(7, [])] && acts[..1][..0] == [] && acts[..0] == [];
    assert Run(Init(1), acts[..0]) == Init(1);
    assert Run(Init(1), acts[..1]) == Step(Init(1), Send(7, []));
    assert Run(Init(1), acts) == Step(Step(Init(1), Send(7, [])), Sw);
  }

  /** A send while the ring is full, on a ring of one: key 7 is accepted, and not told until it is sent again. */
  lemma LostKey(acts: seq<Action>)
    requires forall i :: 0 <= i < |acts| ==> !(acts[i].Send? && acts[i].key == 7)
    ensures var s := Run(Step(Run(Init(1), [Send(7, []), Sw]), Send(9, [])), acts);
            7 in KeysOf(s.d.acc) && 7 !in s.d.told
  {
    hide Inv, SendFrame;
    OneInFlight();
    var s := Run(Init(1), [Send(7, []), Sw]);
    RunInv(1, [Send(7, []), Sw]);
    assert multiset([7])[7] == 1;
    NeverTold(s, 9, [], acts);
    RefusedSend(s, 9, []);
    NoMoreChances(Step(s, Send(9, [])), acts, 7);
  }
}
