/**
 The Avalon SPI master with the flash on its bus, and the driver's one transaction routine. A byte
 written to TXDATA is exchanged with the chip after some number of status reads, and TMT shows after some
 more; the numbers are arbitrary, and so is whether TRDY already shows while a byte is still being shifted.
 */
module Spi {
  import opened Bytes
  import opened EpcsChip

  datatype Reg = Empty | Holds(value: byte)

  class Master {
    var chip: Chip
    /** The byte being shifted out, and the one received and not yet read. */
    var tx: Reg
    var rx: Reg
    /** Status reads until the byte in `tx` has been exchanged; the same for the bytes to come. */
    var delay: nat
    var delays: seq<nat>
    /** Status reads until TMT shows after the byte has been exchanged; the same for the bytes to come. */
    var lag: nat
    var lags: seq<nat>
    /** Whether TRDY shows early, status read by status read. */
    var early: seq<bool>

    ghost predicate Quiet()
      reads this
    {
      tx == Empty && Shape(chip)
    }

    constructor (c: Chip, delays: seq<nat>, lags: seq<nat>, early: seq<bool>)
      requires Shape(c)
      ensures Quiet() && chip == c
    {
      chip, tx, rx, delay, lag := c, Empty, Empty, 0, 0;
      this.delays, this.lags, this.early := delays, lags, early;
    }

    /** Read STATUS: time passes, and a byte whose time has come is exchanged. */
    method Status() returns (trdy: bool, rrdy: bool, tmt: bool)
      requires Shape(chip)
      modifies this`chip, this`tx, this`rx, this`delay, this`lag, this`lags, this`early
      ensures Shape(chip)
      ensures if old(tx) == Empty then chip == old(chip) && tx == Empty && rx == old(rx)
              else if old(delay) > 0 then chip == old(chip) && tx == old(tx) && rx == old(rx) && delay == old(delay) - 1
              else && chip == Clock(old(chip), old(tx).value).0 && tx == Empty
                   && rx == Holds(Clock(old(chip), old(tx).value).1)
      ensures tx == Empty ==> trdy
      ensures rrdy <==> rx.Holds?
      ensures tmt ==> tx == Empty
      ensures old(tx) == Empty ==> (tmt <==> old(lag) == 0) && (!tmt ==> lag == old(lag) - 1)
    {
      if tx.Holds? {
        if delay > 0 {
          delay := delay - 1;
        } else {
          var (c, reply) := Clock(chip, tx.value);
          chip, tx, rx, lag := c, Empty, Holds(reply), 0;
          if lags != [] {
            lag, lags := lags[0], lags[1..];
          }
        }
      }
      tmt := tx == Empty && lag == 0;
      if tx == Empty && lag > 0 {
        lag := lag - 1;
      }
      trdy := tx == Empty;
      if early != [] {
        trdy := trdy || early[0];
        early := early[1..];
      }
      rrdy := rx.Holds?;
    }

    /** Write TXDATA. */
    method Put(b: byte)
      requires tx == Empty
      modifies this`tx, this`delay, this`delays
      ensures tx == Holds(b)
    {
      tx := Holds(b);
      delay := 0;
      if delays != [] {
        delay, delays := delays[0], delays[1..];
      }
    }

    /** Read RXDATA. */
    method Get() returns (b: byte)
      modifies this`rx
      ensures rx == Empty && (old(rx).Holds? ==> b == old(rx).value)
    {
      b := if rx.Holds? then rx.value else 0;
      rx := Empty;
    }

    /**
     How far a transaction has come when `sent` bytes have been written: with a credit left, all of them
     have been exchanged and their replies read; without, the last one is being shifted, or its reply
     is waiting.
     */
    ghost predicate Progress(c0: Chip, out: seq<byte>, sent: int, credits: int)
      requires Shape(c0)
      reads this
    {
      && 0 <= sent <= |out| && 0 <= credits <= 1
      && (credits == 1 ==> tx == Empty && rx == Empty && chip == Shift(c0, out[..sent]).0)
      && (credits == 0 ==> sent > 0)
      && (credits == 0 && tx.Holds? ==>
            rx == Empty && tx.value == out[sent - 1] && chip == Shift(c0, out[..sent - 1]).0)
      && (credits == 0 && tx == Empty ==> rx == Holds(Shift(c0, out).1[sent - 1]) && chip == Shift(c0, out[..sent]).0)
    }

    /** The inner loop: read STATUS until there is something to do. */
    method Poll(ghost c0: Chip, ghost out: seq<byte>, ghost sent: int, credits: int) returns (trdy: bool, rrdy: bool)
      requires Shape(c0) && Shape(chip) && Progress(c0, out, sent, credits)
      modifies this`chip, this`tx, this`rx, this`delay, this`lag, this`lags, this`early
      ensures Shape(chip) && Progress(c0, out, sent, credits) && tx == Empty
      ensures if credits > 0 then trdy && !rrdy else rrdy
    {
      var tmt;
      if sent > 0 {
        ShiftAt(c0, out, sent - 1);
      }
      hide Shift, Clock;
      trdy, rrdy, tmt := Status();
      while (!trdy || credits == 0) && !rrdy
        invariant Shape(chip) && Progress(c0, out, sent, credits)
        invariant tx == Empty ==> trdy
        invariant rrdy <==> rx.Holds?
        decreases tx.Holds?, delay
      {
        trdy, rrdy, tmt := Status();
      }
    }

    /** Send the next byte, for the one credit there is. */
    method SendByte(b: byte, ghost c0: Chip, ghost out: seq<byte>, ghost sent: nat)
      requires Shape(c0) && Progress(c0, out, sent, 1) && sent < |out| && b == out[sent]
      modifies this`tx, this`delay, this`delays
      ensures Progress(c0, out, sent + 1, 0)
    {
      Put(b);
    }

    /** Take the reply to the last byte sent, and the credit back. */
    method TakeReply(ghost c0: Chip, ghost out: seq<byte>, ghost sent: nat) returns (b: byte)
      requires Shape(c0) && Progress(c0, out, sent, 0) && tx == Empty && 0 < sent <= |out|
      modifies this`rx
      ensures Progress(c0, out, sent, 1) && b == Shift(c0, out).1[sent - 1]
    {
      b := Get();
    }

    /** The final wait: for as long as TMT takes to show, nothing more is exchanged. */
    method AwaitTransmitted()
      requires tx == Empty && Shape(chip)
      modifies this`chip, this`tx, this`rx, this`delay, this`lag, this`lags, this`early
      ensures tx == Empty && chip == old(chip)
    {
      var trdy, rrdy, tmt := Status();
      while !tmt
        invariant chip == old(chip) && tx == Empty
        decreases !tmt, lag
      {
        trdy, rrdy, tmt := Status();
      }
    }

    /**
     `alt_avalon_spi_command`: the chip is clocked with exactly `write` followed by `readLength` zeros,
     what is read is its replies after the first `|write|`, and chip select is released unless the
     caller merges. There is never more than one byte outstanding: what has been sent and what has been
     received differ by one minus the credits, and the branch that gives up the credits is not reached.
     */
    method Command(write: seq<byte>, readLength: nat, merge: bool) returns (read: seq<byte>)
      requires Quiet() && |write| + readLength > 0
      modifies this
      ensures Quiet() && |read| == readLength
      ensures var (c, replies) := Shift(Select(old(chip)), write + Zeros(readLength));
        chip == (if merge then c else Deselect(c)) && read == replies[|write|..]
    {
      hide Shift, Clock, Deselect, Progress;
      var writeZeros, readIgnore, w, credits := readLength, |write|, 0, 1;
      read := [];
      chip := Select(chip);
      ghost var c0, out := chip, write + Zeros(readLength);
      var stale := Get();
      AtStart(c0, out);
      while true
        invariant Shape(chip) && 0 <= w <= |write| && 0 <= readIgnore <= |write| && 0 <= credits <= 1
        invariant 0 <= writeZeros <= readLength && |read| <= readLength
        invariant (w < |write| ==> writeZeros == readLength) && (readIgnore > 0 ==> read == [])
        invariant readIgnore > 0 || |read| < readLength
        invariant Progress(c0, out, w + readLength - writeZeros, credits)
        invariant (w + readLength - writeZeros) - (|write| - readIgnore + |read|) == 1 - credits
        invariant read == Shift(c0, out).1[|write|..|write| + |read|]
        decreases 2 * (readIgnore + readLength - |read|) + credits
      {
        ghost var sent := w + readLength - writeZeros;
        var trdy, rrdy := Poll(c0, out, sent, credits);
        if trdy && credits > 0 {
          credits := credits - 1;
          if w < |write| {
            SendByte(write[w], c0, out, sent);
            w := w + 1;
          } else if writeZeros > 0 {
            writeZeros := writeZeros - 1;
            SendByte(0, c0, out, sent);
          } else {
            assert false;
          }
        }
        if rrdy {
          var b := TakeReply(c0, out, sent);
          if readIgnore > 0 {
            readIgnore := readIgnore - 1;
          } else {
            read := read + [b];
          }
          credits := credits + 1;
          if readIgnore == 0 && |read| == readLength {
            break;
          }
        }
      }
      AtEnd(c0, out);
      AwaitTransmitted();
      if !merge {
        chip := Deselect(chip);
      }
    }

    /** Nothing sent, and everything sent and answered. */
    lemma AtStart(c0: Chip, out: seq<byte>)
      requires Shape(c0) && chip == c0 && tx == Empty && rx == Empty
      ensures Progress(c0, out, 0, 1)
    {
      ShiftNone(c0, out);
    }

    lemma AtEnd(c0: Chip, out: seq<byte>)
      requires Shape(c0) && Progress(c0, out, |out|, 1)
      ensures chip == Shift(c0, out).0 && tx == Empty
    {
      assert out[..|out|] == out;
    }
  }

  lemma ShiftNone(c: Chip, out: seq<byte>)
    requires Shape(c)
    ensures Shift(c, out[..0]).0 == c
  {
  }

  lemma {:induction false} ShiftPrefix(c: Chip, out: seq<byte>, k: nat)
    requires Shape(c) && k <= |out|
    ensures Shift(c, out).1[..k] == Shift(c, out[..k]).1
  {
    if k < |out| {
      ShiftPrefix(c, out[..|out| - 1], k);
      assert out[..|out| - 1][..k] == out[..k];
    } else {
      assert out[..k] == out;
    }
  }

  /** The k-th byte exchanged. */
  lemma ShiftAt(c: Chip, out: seq<byte>, k: nat)
    requires Shape(c) && k < |out|
    ensures Shift(c, out[..k + 1]).0 == Clock(Shift(c, out[..k]).0, out[k]).0
    ensures Shift(c, out).1[k] == Clock(Shift(c, out[..k]).0, out[k]).1
  {
    assert out[..k + 1] == out[..k] + [out[k]];
    ShiftNext(c, out[..k], out[k]);
    ShiftPrefix(c, out, k + 1);
    assert Shift(c, out).1[k] == Shift(c, out).1[..k + 1][k];
  }
}
