/**
 The eCos driver's transmit routines as imperative code over the shared descriptors. `world` holds the
 outcomes of the transmissions the MAC will finish at each point where it may act; it is arbitrary.
 */
module OethDriver {
  import opened MacRing
  import opened Oeth

  ghost predicate Good(s: State) {
    Wf(s) && Inv(s) && Reached(s)
  }

  lemma LegalMore(s0: State, acts: seq<Action>, a: Action)
    requires Wf(s0) && Legal(s0, acts) && Allowed(Run(s0, acts), a)
    ensures Legal(s0, acts + [a]) && Run(s0, acts + [a]) == Step(Run(s0, acts), a)
  {
    hide Step, Allowed;
    assert (acts + [a])[..|acts|] == acts;
  }

  lemma GoodStep(s: State, a: Action)
    requires Wf(s) && Good(s) && Allowed(s, a)
    ensures Good(Step(s, a))
  {
    hide Inv, Step, Allowed, Legal;
    StepKeeps(s, a);
    var n: nat, acts: seq<Action> :| n >= 1 && Legal(Init(n), acts) && s == Run(Init(n), acts);
    LegalMore(Init(n), acts, a);
  }

  class Driver {
    var d: Dev
    var world: seq<seq<bool>>
    ghost var pc: Pc

    ghost function S(): State
      reads this
    {
      State(d, pc)
    }

    ghost predicate Valid()
      reads this
    {
      Wf(S()) && Good(S())
    }

    /** What the MAC does not touch. */
    ghost function Soft(): Dev
      reads this
    {
      d.(bds := [], hw := 0, wire := [])
    }

    /** `openeth_device_init`: every descriptor idle, WRAP on the last one. */
    constructor (n: nat, world: seq<seq<bool>>)
      requires n >= 1
      ensures Valid() && S() == Init(n) && this.world == world
    {
      var bds := [];
      for i := 0 to n
        invariant bds == seq(i, (j: nat) => Bd(false, true, false, false, j, 0))
      {
        bds := bds + [Bd(false, true, false, false, i, 0)];
      }
      bds := bds[n - 1 := bds[n - 1].(wrap := true)];
      d := Dev(bds, 0, seq(n, _ => []), 0, 0, false, seq(n, _ => 0), 0, [], [], seq(n, _ => 0), [], [], []);
      this.world, pc := world, Idle;
      new;
      assert d.bds == Init(n).d.bds;
      assert Run(Init(n), []) == S() && Legal(Init(n), []);
      InitInv(n);
    }

    /** The MAC acts, for as long as its next batch says. */
    method Mac()
      requires Valid()
      modifies this`d, this`world
      ensures Valid() && Soft() == old(Soft()) && |d.bds| == |old(d).bds| && old(d).wire <= d.wire
      ensures forall j :: 0 <= j < |d.bds| && !old(d).bds[j].own ==> d.bds[j] == old(d).bds[j]
    {
      hide Good;
      if world == [] {
        return;
      }
      var batch := world[0];
      world := world[1..];
      for i := 0 to |batch|
        invariant Valid() && Soft() == old(Soft()) && |d.bds| == |old(d).bds| && old(d).wire <= d.wire
        invariant forall j :: 0 <= j < |d.bds| && !old(d).bds[j].own ==> d.bds[j] == old(d).bds[j]
      {
        GoodStep(S(), MacSend(batch[i]));
        if d.hw < |d.bds| && d.bds[d.hw].own {
          var b := d.bds[d.hw];
          d := d.(bds := d.bds[d.hw := b.(own := false, err := batch[i])], hw := if b.wrap then 0 else d.hw + 1,
                  wire := d.wire + [Front(d.bufs[d.hw], b.len)]);
        }
      }
    }

    /** `openeth_can_send`: is there room, that is, are fewer accepted frames in flight than there are descriptors? */
    method CanSendNow() returns (r: bool)
      requires Valid()
      ensures r <==> |d.acc| - d.packets < |d.bds|
      ensures r && pc == Idle ==> !d.bds[d.next].own && d.keys[d.next] == 0
    {
      RoomIs(S());
      r := !d.full;
    }

    /**
     `openeth_send`. With room in the ring and a frame that fits, the frame is accepted after all
     earlier ones; otherwise nothing is sent, but the key of the descriptor is overwritten.
     */
    method SendNow(key: nat, data: seq<int>)
      requires Valid() && pc == Idle && key != 0
      modifies this
      ensures pc == Idle
      ensures old(CanSend(S())) && |data| <= OETH_TX_BUFF_SIZE ==>
        && Valid() && d.acc == old(d).acc + [Oeth.Frame(key, data)] && d.packets == old(d).packets
        && d.told == old(d).told && d.rep == old(d).rep
      ensures !(old(CanSend(S())) && |data| <= OETH_TX_BUFF_SIZE) ==>
        d == old(d).(keys := old(d).keys[old(d).next := key])
    {
      hide Good;
      if CanSend(S()) && |data| <= OETH_TX_BUFF_SIZE {
        NextFree(S());
        GoodStep(S(), Send(key, data));
      }
      var j := d.next;
      d := d.(keys := d.keys[j := key]);
      if d.bds[j].own || d.full || |data| > OETH_TX_BUFF_SIZE {
        return;
      }
      d := d.(bds := d.bds[j := d.bds[j].(err := false, len := |data|)],
              bufs := d.bufs[j := CopyIn(d.bufs[j], data)], acc := d.acc + [Oeth.Frame(key, data)],
              slot := d.slot + [j], holds := d.holds[j := |d.acc|]);
      var next := d.next + 1;
      if next >= |d.bds| {
        next := 0;
      }
      d := d.(next := next, full := next == d.last);
      pc := Arm(j);
      Mac();
      GoodStep(S(), Sw);
      d := d.(bds := d.bds[j := d.bds[j].(own := true, irq := true)]);
      pc := Idle;
    }

    /** `oeth_tx`: every frame the MAC had sent by the time of the call is counted on return. */
    method Tx()
      requires Valid() && pc == TxLoop
      modifies this
      ensures Valid() && pc == Scan(0)
      ensures d.acc == old(d).acc && d.told == old(d).told && d.rep == old(d).rep && |old(d).wire| <= d.packets
    {
      hide Good;
      Mac();
      while !(d.bds[d.last].own || (d.last == d.next && !d.full))
        invariant Valid() && pc == TxLoop && d.acc == old(d).acc && old(d).wire <= d.wire
        invariant d.told == old(d).told && d.rep == old(d).rep
        decreases Count(d)
      {
        TxRoundCount'(S());
        GoodStep(S(), Sw);
        d := d.(packets := d.packets + 1, full := false, last := if d.last + 1 == |d.bds| then 0 else d.last + 1);
        Mac();
      }
      AllCounted(S());
      GoodStep(S(), Sw);
      pc := Scan(0);
    }

    /**
     `oeth_txdone`: every frame the MAC had sent by the time of the call is counted, and the key of
     every counted frame has been given to `tx_done`, as the one it was accepted with.
     */
    method TxDoneNow()
      requires Valid() && pc == Idle
      modifies this
      ensures Valid() && pc == Idle
      ensures d.acc == old(d).acc && |old(d).wire| <= d.packets && old(d).told <= d.told && old(d).rep <= d.rep
      ensures |d.told| == |d.rep| && forall m :: 0 <= m < |d.rep| ==>
                d.rep[m] < |d.acc| && d.told[m] == d.acc[d.rep[m]].key
      ensures forall k :: 0 <= k < d.packets && k < |d.acc| ==> k in d.rep
    {
      hide Good;
      GoodStep(S(), TxDone);
      pc := TxLoop;
      Tx();
      var n := |d.bds|;
      for i := 0 to n
        invariant |d.bds| == n && Valid() && pc == Scan(i) && d.acc == old(d).acc && |old(d).wire| <= d.packets
        invariant old(d).told <= d.told && old(d).rep <= d.rep
      {
        Mac();
        GoodStep(S(), Sw);
        if d.keys[i] != 0 && !d.bds[i].own {
          var k := d.keys[i];
          d := d.(keys := d.keys[i := 0], told := d.told + [k], rep := d.rep + [d.holds[i]]);
        }
        pc := Scan(i + 1);
      }
      GoodStep(S(), Sw);
      pc := Idle;
      AllReported(S());
    }
  }

  lemma NextFree(s: State)
    requires Wf(s) && Good(s) && s.pc == Idle && CanSend(s)
    ensures !s.d.bds[s.d.next].own
  {
    FifoFacts(s);
  }

  lemma TxRoundCount'(s: State)
    requires Wf(s) && Good(s) && s.pc == TxLoop && TxRound(s.d).1 == TxLoop
    ensures Count(s.d) > 0 && Count(TxRound(s.d).0) == Count(s.d) - 1
  {
    TxRoundRing(s);
  }

  lemma AllCounted(s: State)
    requires Wf(s) && Good(s) && s.pc == TxLoop && TxRound(s.d).1 == Scan(0)
    ensures |s.d.wire| == s.d.packets
  {
    if Count(s.d) > 0 {
      WindowHead(s.d.bds, s.d.last, Count(s.d), |s.d.wire| - s.d.packets, s.d.hw);
    }
  }

  lemma AllReported(s: State)
    requires Good(s) && s.pc == Idle
    ensures forall k :: 0 <= k < s.d.packets && k < |s.d.acc| ==> k in s.d.rep
    ensures |s.d.told| == |s.d.rep| && forall m :: 0 <= m < |s.d.rep| ==>
              s.d.rep[m] < |s.d.acc| && s.d.told[m] == s.d.acc[s.d.rep[m]].key
  {
    hide Inv, Reached;
    KeysOnce(s);
  }

  /** The three fields say "full" exactly when every descriptor carries a frame not yet taken back. */
  lemma RoomIs(s: State)
    requires Good(s)
    ensures !s.d.full <==> |s.d.acc| - s.d.packets < |s.d.bds|
    ensures s.pc == Idle && !s.d.full ==> !s.d.bds[s.d.next].own && s.d.keys[s.d.next] == 0
  {
    hide Window, DataOk, KeysOk, Balanced;
    if s.pc == Idle && !s.d.full {
      FifoFacts(s);
      assert Dist(s.d.last, s.d.next, |s.d.bds|) == Count(s.d);
    }
  }
}
