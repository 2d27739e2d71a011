/**
 What the receiver does towards its two sides, in order: blocks taken off the line, bytes written to the
 port, bytes handed to the reader. Like the byte stream, it is a function of the line.
 */
module ModemTalk {
  import opened Bytes
  import opened ModemLine
  import opened ModemFrame
  import opened ModemStream

  const CHAR_C: byte := 0x43

  datatype Act = Took(data: seq<byte>) | Wrote(b: byte) | Gave(b: byte)

  function Says(bs: seq<byte>): (r: seq<Act>)
    ensures |r| == |bs|
  {
    seq(|bs|, i requires 0 <= i < |bs| => Wrote(bs[i]))
  }

  function Gives(bs: seq<byte>): (r: seq<Act>)
    ensures |r| == |bs|
  {
    seq(|bs|, i requires 0 <= i < |bs| => Gave(bs[i]))
  }

  lemma SaysAppend(a: seq<byte>, b: seq<byte>)
    ensures Says(a + b) == Says(a) + Says(b) && Gives(a + b) == Gives(a) + Gives(b)
  {
  }

  /** The character that asks the sender for a frame. */
  function Request(crc: bool): byte {
    if crc then CHAR_C else NAK
  }

  /** What `xyzModem_get_hdr` writes: a pending ACK first, and one for an end of file. */
  function HdrSays(h: Hdr, txAck: bool): seq<byte> {
    (if txAck then [ACK] else []) + (if h.Eof? then [ACK] else [])
  }

  /** What it writes at the end of the file: for Y-modem it asks for the final header and acknowledges that too. */
  function EndSays(line: Line, m: Mode): seq<byte> {
    [ACK] + if m.ymodem then [Request(m.crc)] + HdrSays(Parse(line, m.crc, m.f).0, false) + [ACK] else []
  }

  /** How the retry loop answers a header, with `rest` of the line behind it. */
  function Reply(h: Hdr, rest: Line, next: byte, m: Mode): seq<byte> {
    match h
    case Packet(blk, _) => if blk == next then [] else if blk == Prev(next) then [ACK] else [Request(m.crc)]
    case Cancel => []
    case Eof => EndSays(rest, m)
    case _ => [Request(m.crc)]
  }

  /** What one try does: what reading the header writes; the block taken, if it is the expected one; the reply. */
  function TryActs(h: Hdr, rest: Line, next: byte, m: Mode, txAck: bool): seq<Act> {
    Says(HdrSays(h, txAck)) + (if h.Packet? && h.blk == next then [Took(Strip(h.data))] else [])
    + Says(Reply(h, rest, next, m))
  }

  /** What the tries of one fetch do. */
  function FetchActs(line: Line, next: byte, m: Mode, txAck: bool, tries: nat): seq<Act>
    requires tries >= 1
    decreases tries
  {
    var (h, rest) := Parse(line, m.crc, m.f);
    TryActs(h, rest, next, m, txAck) +
    if tries > 1 && GoesOn(h, next) then FetchActs(rest, next, m, false, tries - 1) else []
  }

  /** What one fetch does: a duplicate is taken only when the tries are over and it is what they ended on. */
  function FetchTalk(line: Line, next: byte, m: Mode, txAck: bool): seq<Act> {
    var r := Fetch(line, next, m, MAX_RETRIES);
    FetchActs(line, next, m, txAck, MAX_RETRIES) + if r.Stale? then [Took(r.data)] else []
  }

  /** Everything the receiver does from here on. */
  function Talk(line: Line, next: byte, m: Mode, txAck: bool): seq<Act>
    decreases |line|
  {
    FetchTalk(line, next, m, txAck) +
    match Fetch(line, next, m, MAX_RETRIES)
    case Block(data, rest) => Gives(data) + Talk(rest, Succ(next), m, true)
    case Stale(data, rest) => Gives(data) + Talk(rest, next, m, false)
    case _ => []
  }

  /** What lies ahead, in terms of the next fetch. */
  lemma AheadIs(line: Line, next: byte, m: Mode, txAck: bool)
    ensures var r, done := Fetch(line, next, m, MAX_RETRIES), FetchTalk(line, next, m, txAck);
      && (r.Block? || r.Stale? ==>
            var next', ack' := if r.Block? then Succ(next) else next, r.Block?;
            && Stream(line, next, m) == r.data + Stream(r.rest, next', m)
            && Ending(line, next, m) == Ending(r.rest, next', m) && Closing(line, next, m) == Closing(r.rest, next', m)
            && Talk(line, next, m, txAck) == done + (Gives(r.data) + Talk(r.rest, next', m, ack')))
      && (r.End? || r.Failed? ==>
            && Stream(line, next, m) == [] && Ending(line, next, m) == r.stat && Closing(line, next, m) == r.End?
            && Talk(line, next, m, txAck) == done)
  {
    hide Fetch, FetchTalk, Says, Gives;
  }

  // ---- What an acknowledgement means ----

  function TakenIn(ev: seq<Act>): seq<byte> {
    if ev == [] then []
    else
      var e := ev[|ev| - 1];
      TakenIn(ev[..|ev| - 1]) + if e.Took? then e.data else []
  }

  function GivenIn(ev: seq<Act>): seq<byte> {
    if ev == [] then []
    else
      var e := ev[|ev| - 1];
      GivenIn(ev[..|ev| - 1]) + if e.Gave? then [e.b] else []
  }

  /** Whenever a byte is written to the port, every block taken so far has been handed out to its last byte. */
  ghost predicate Settled(ev: seq<Act>) {
    forall i :: 0 <= i < |ev| && ev[i].Wrote? ==> GivenIn(ev[..i]) == TakenIn(ev[..i])
  }

  lemma NoActs()
    ensures GivenIn([]) == [] && TakenIn([]) == []
  {
  }

  lemma Assoc(a: seq<byte>, b: seq<byte>, c: seq<byte>)
    ensures a + (b + c) == a + b + c
  {
  }

  lemma GivenNext(ev: seq<Act>, e: Act)
    ensures GivenIn(ev + [e]) == GivenIn(ev) + (if e.Gave? then [e.b] else [])
  {
    assert (ev + [e])[..|ev|] == ev;
  }

  lemma {:induction false} GivenOnly(a: seq<Act>, b: seq<Act>)
    ensures GivenIn(a + b) == GivenIn(a) + GivenIn(b)
    decreases |b|
  {
    hide GivenIn;
    if b == [] {
      assert a + b == a && GivenIn([]) == [] by {
        NoActs();
      }
    } else {
      var front, e := b[..|b| - 1], b[|b| - 1];
      GivenOnly(a, front);
      GivenNext(a + front, e);
      GivenNext(front, e);
      assert front + [e] == b && a + front + [e] == a + b;
      Assoc(GivenIn(a), GivenIn(front), (if e.Gave? then [e.b] else []));
    }
  }

  lemma TakenNext(ev: seq<Act>, e: Act)
    ensures TakenIn(ev + [e]) == TakenIn(ev) + (if e.Took? then e.data else [])
  {
    assert (ev + [e])[..|ev|] == ev;
  }

  lemma {:induction false} TakenOnly(a: seq<Act>, b: seq<Act>)
    ensures TakenIn(a + b) == TakenIn(a) + TakenIn(b)
    decreases |b|
  {
    hide TakenIn;
    if b == [] {
      assert a + b == a && TakenIn([]) == [] by {
        NoActs();
      }
    } else {
      var front, e := b[..|b| - 1], b[|b| - 1];
      TakenOnly(a, front);
      TakenNext(a + front, e);
      TakenNext(front, e);
      assert front + [e] == b && a + front + [e] == a + b;
      Assoc(TakenIn(a), TakenIn(front), (if e.Took? then e.data else []));
    }
  }

  lemma GivenAppend(a: seq<Act>, b: seq<Act>)
    ensures GivenIn(a + b) == GivenIn(a) + GivenIn(b) && TakenIn(a + b) == TakenIn(a) + TakenIn(b)
  {
    GivenOnly(a, b);
    TakenOnly(a, b);
  }

  lemma {:induction false} SaysGives(bs: seq<byte>)
    ensures GivenIn(Says(bs)) == [] && TakenIn(Says(bs)) == []
    ensures GivenIn(Gives(bs)) == bs && TakenIn(Gives(bs)) == []
  {
    if bs != [] {
      var front := bs[..|bs| - 1];
      SaysGives(front);
      assert Says(bs)[..|bs| - 1] == Says(front) && Gives(bs)[..|bs| - 1] == Gives(front);
      assert front + [bs[|bs| - 1]] == bs;
    }
  }

  /** The bytes a fetch writes. */
  function FetchSays(line: Line, next: byte, m: Mode, txAck: bool, tries: nat): seq<byte>
    requires tries >= 1
    decreases tries
  {
    var (h, rest) := Parse(line, m.crc, m.f);
    HdrSays(h, txAck) + Reply(h, rest, next, m) +
    if tries > 1 && GoesOn(h, next) then FetchSays(rest, next, m, false, tries - 1) else []
  }

  /** A fetch takes the block it yields after the last byte it writes. */
  lemma {:induction false} TakenLast(line: Line, next: byte, m: Mode, txAck: bool, tries: nat)
    requires tries >= 1
    ensures var r := Fetch(line, next, m, tries);
            FetchActs(line, next, m, txAck, tries)
            == Says(FetchSays(line, next, m, txAck, tries)) + if r.Block? then [Took(r.data)] else []
    decreases tries
  {
    hide Parse, HdrSays, Reply, Strip, Says, TryActs, Fetch;
    var (h, rest) := Parse(line, m.crc, m.f);
    FetchIs(line, next, m, tries);
    TryTakesLast(h, rest, next, m, txAck);
    if tries > 1 && GoesOn(h, next) {
      TakenLast(rest, next, m, false, tries - 1);
      SaysAppend(HdrSays(h, txAck) + Reply(h, rest, next, m), FetchSays(rest, next, m, false, tries - 1));
    } else {
      var said := HdrSays(h, txAck) + Reply(h, rest, next, m);
      assert said + [] == said;
    }
  }

  lemma TryTakesLast(h: Hdr, rest: Line, next: byte, m: Mode, txAck: bool)
    ensures TryActs(h, rest, next, m, txAck)
         == Says(HdrSays(h, txAck) + Reply(h, rest, next, m))
            + if h.Packet? && h.blk == next then [Took(Strip(h.data))] else []
  {
    hide HdrSays, EndSays, Strip, Says;
    SaysAppend(HdrSays(h, txAck), Reply(h, rest, next, m));
    assert Says([]) == [] by {
      SaysNothing();
    }
  }

  lemma SaysNothing()
    ensures Says([]) == []
  {
  }

  /** So does the whole of it: what it writes, then what it takes. */
  lemma FetchTalkIs(line: Line, next: byte, m: Mode, txAck: bool)
    ensures var r := Fetch(line, next, m, MAX_RETRIES);
            FetchTalk(line, next, m, txAck) == Says(FetchSays(line, next, m, txAck, MAX_RETRIES))
                                               + if r.Block? || r.Stale? then [Took(r.data)] else []
  {
    hide Fetch, FetchActs, FetchSays, Says;
    TakenLast(line, next, m, txAck, MAX_RETRIES);
  }

  /** One block of the talk: replies, then the block, then its bytes. */
  lemma BlockSettled(said: seq<byte>, data: seq<byte>)
    ensures var ev := Says(said) + [Took(data)] + Gives(data); Settled(ev) && GivenIn(ev) == TakenIn(ev) == data
  {
    hide GivenIn, TakenIn;
    var ev := Says(said) + [Took(data)] + Gives(data);
    GivenAppend(Says(said) + [Took(data)], Gives(data));
    GivenAppend(Says(said), [Took(data)]);
    SaysGives(said);
    SaysGives(data);
    TookOnly(data);
    SaysSettled(said);
    forall i | 0 <= i < |ev| && ev[i].Wrote? ensures GivenIn(ev[..i]) == TakenIn(ev[..i]) {
      assert i < |said| && ev[..i] == Says(said)[..i];
    }
  }

  lemma TookOnly(data: seq<byte>)
    ensures GivenIn([Took(data)]) == [] && TakenIn([Took(data)]) == data
  {
    assert [Took(data)][..0] == [];
  }

  lemma SaysSettled(said: seq<byte>)
    ensures forall i :: 0 <= i <= |said| ==> GivenIn(Says(said)[..i]) == TakenIn(Says(said)[..i])
  {
    hide GivenIn, TakenIn;
    forall i | 0 <= i <= |said| ensures GivenIn(Says(said)[..i]) == TakenIn(Says(said)[..i]) {
      assert Says(said)[..i] == Says(said[..i]);
      SaysGives(said[..i]);
    }
  }

  lemma SettledAppend(a: seq<Act>, b: seq<Act>)
    requires Settled(a) && GivenIn(a) == TakenIn(a) && Settled(b)
    ensures Settled(a + b)
  {
    hide GivenIn, TakenIn;
    var ev := a + b;
    forall i | 0 <= i < |ev| && ev[i].Wrote? ensures GivenIn(ev[..i]) == TakenIn(ev[..i]) {
      if i < |a| {
        assert ev[..i] == a[..i];
      } else {
        assert ev[..i] == a + b[..i - |a|];
        GivenAppend(a, b[..i - |a|]);
        assert b[i - |a|].Wrote?;
      }
    }
  }

  /**
   The discipline of the acknowledgements, for every line: nothing is written to the port, and so no block
   is acknowledged, while a byte of a block taken off the line is still to be handed out. And what is
   handed out in all is the stream.
   */
  lemma {:induction false} WritesSettled(line: Line, next: byte, m: Mode, txAck: bool)
    ensures Settled(Talk(line, next, m, txAck))
    ensures GivenIn(Talk(line, next, m, txAck)) == Stream(line, next, m)
    decreases |line|, 0
  {
    hide Fetch, FetchTalk, FetchSays, Settled, GivenIn, TakenIn, Says, Gives, Talk, Stream, Ending, Closing;
    AheadIs(line, next, m, txAck);
    FetchTalkIs(line, next, m, txAck);
    var r, said := Fetch(line, next, m, MAX_RETRIES), FetchSays(line, next, m, txAck, MAX_RETRIES);
    if r.Block? || r.Stale? {
      TalkStep(said, r.data, r.rest, if r.Block? then Succ(next) else next, m, r.Block?);
    } else {
      assert Says(said) + [] == Says(said);
      OnlySays(said);
    }
  }

  lemma OnlySays(said: seq<byte>)
    ensures Settled(Says(said)) && GivenIn(Says(said)) == [] && TakenIn(Says(said)) == []
  {
    hide GivenIn, TakenIn;
    SaysSettled(said);
    SaysGives(said);
  }

  lemma {:induction false} TalkStep(said: seq<byte>, data: seq<byte>, rest: Line, next: byte, m: Mode, txAck: bool)
    ensures var ev := Says(said) + [Took(data)] + (Gives(data) + Talk(rest, next, m, txAck));
            Settled(ev) && GivenIn(ev) == data + Stream(rest, next, m)
    decreases |rest|, 1
  {
    hide Fetch, FetchTalk, Settled, GivenIn, TakenIn, Talk, Stream;
    var first, more := Says(said) + [Took(data)] + Gives(data), Talk(rest, next, m, txAck);
    BlockSettled(said, data);
    WritesSettled(rest, next, m, txAck);
    SettledAppend(first, more);
    GivenAppend(first, more);
    assert first + more == Says(said) + [Took(data)] + (Gives(data) + more);
  }

  /** And each new block is acknowledged: the first thing that happens after its last byte is handed out is its ACK. */
  lemma AckAfterCopy(line: Line, next: byte, m: Mode, txAck: bool)
    requires Fetch(line, next, m, MAX_RETRIES).Block?
    ensures var r := Fetch(line, next, m, MAX_RETRIES);
            FetchTalk(line, next, m, txAck) + Gives(r.data) + [Wrote(ACK)] <= Talk(line, next, m, txAck)
  {
    hide Fetch, FetchTalk, Says, Gives, Stream, Ending, Closing, Talk;
    var r := Fetch(line, next, m, MAX_RETRIES);
    var more := Talk(r.rest, Succ(next), m, true);
    AheadIs(line, next, m, txAck);
    FirstAck(r.rest, Succ(next), m);
    assert [Wrote(ACK)] == more[..1];
    assert Talk(line, next, m, txAck) == FetchTalk(line, next, m, txAck) + Gives(r.data) + more;
  }

  lemma FirstAck(line: Line, next: byte, m: Mode)
    ensures Talk(line, next, m, true) != [] && Talk(line, next, m, true)[0] == Wrote(ACK)
  {
    hide Parse, Fetch, Strip;
    assert FetchActs(line, next, m, true, MAX_RETRIES)[0] == Wrote(ACK);
    assert FetchTalk(line, next, m, true)[0] == Wrote(ACK);
  }

  // ---- A whole transfer ----

  function PendingAck(txAck: bool): seq<Act> {
    if txAck then [Wrote(ACK)] else []
  }

  /** Block by block: taken, handed out to its last byte, and then acknowledged, once. */
  function CleanActs(blocks: seq<seq<byte>>): seq<Act> {
    if blocks == [] then []
    else [Took(Strip(blocks[0]))] + Gives(Strip(blocks[0])) + [Wrote(ACK)] + CleanActs(blocks[1..])
  }

  /**
   The conversation over an undamaged transfer, to the byte: nothing is written for a block before its last
   byte has been handed out, then exactly one ACK; and at the end of the file what that calls for.
   */
  lemma {:induction false} CleanTalk(blocks: seq<seq<byte>>, e: nat, m: Mode, tail: Line, txAck: bool)
    requires BlockSizes(blocks) && tail != [] && tail[0] == Byte(EOT)
    ensures Talk(SendAll(blocks, e, m, tail), e % 256, m, txAck)
         == PendingAck(txAck) + CleanActs(blocks) + Says([ACK] + EndSays(tail[1..], m))
    decreases |blocks|
  {
    hide Talk, Stream, Ending, Closing, FetchTalk, Fetch, Says, Gives, EndSays, Strip, Encode, Parse;
    var line := SendAll(blocks, e, m, tail);
    AheadIs(line, e % 256, m, txAck);
    var end := Says([ACK] + EndSays(tail[1..], m));
    if blocks == [] {
      EndTalk(tail, e % 256, m, txAck);
      assert PendingAck(txAck) + [] + end == PendingAck(txAck) + end;
    } else {
      var rest, data := SendAll(blocks[1..], e + 1, m, tail), Strip(blocks[0]);
      BlockTalk(blocks[0], e % 256, m, rest, txAck);
      SuccIs(e);
      CleanTalk(blocks[1..], e + 1, m, tail, true);
      Regroup(PendingAck(txAck), [Took(data)], Gives(data), [Wrote(ACK)], CleanActs(blocks[1..]), end);
    }
  }

  lemma Regroup(a: seq<Act>, b: seq<Act>, c: seq<Act>, d: seq<Act>, e: seq<Act>, f: seq<Act>)
    ensures a + b + (c + (d + e + f)) == a + (b + c + d + e) + f
  {
  }

  lemma BlockTalk(data: seq<byte>, next: byte, m: Mode, rest: Line, txAck: bool)
    requires |data| == 128 || |data| == 1024
    ensures var line := Tokens(Encode(next, data, m.crc, m.f)) + rest;
      && Fetch(line, next, m, MAX_RETRIES) == Block(Strip(data), rest)
      && FetchTalk(line, next, m, txAck) == PendingAck(txAck) + [Took(Strip(data))]
  {
    hide Parse, Encode, Strip, Tokens, Fetch;
    var line := Tokens(Encode(next, data, m.crc, m.f)) + rest;
    ParseEncode(next, data, m.crc, m.f, rest);
    FetchIs(line, next, m, MAX_RETRIES);
    assert TryActs(Packet(next, data), rest, next, m, txAck) == PendingAck(txAck) + [Took(Strip(data))];
  }

  lemma EndTalk(tail: Line, next: byte, m: Mode, txAck: bool)
    requires tail != [] && tail[0] == Byte(EOT)
    ensures Fetch(tail, next, m, MAX_RETRIES).End?
    ensures FetchTalk(tail, next, m, txAck) == PendingAck(txAck) + Says([ACK] + EndSays(tail[1..], m))
  {
    hide Parse, EndSays, Fetch;
    EndHeader(tail, m);
    FetchIs(tail, next, m, MAX_RETRIES);
    assert TryActs(Eof, tail[1..], next, m, txAck) == PendingAck(txAck) + Says([ACK] + EndSays(tail[1..], m));
  }

  /** The end of a Y-modem transfer: EOT, then the final header. It ends well, and this is what is written for it. */
  lemma YmodemEnd(data: seq<byte>, next: byte, m: Mode, rest: Line)
    requires m.ymodem && (|data| == 128 || |data| == 1024)
    ensures var tail := [Byte(EOT)] + (Tokens(Encode(0, data, m.crc, m.f)) + rest);
      && Ending(tail, next, m) == 0
      && Says([ACK] + EndSays(tail[1..], m))
         == [Wrote(0x06), Wrote(0x06), Wrote(if m.crc then 0x43 else 0x15), Wrote(0x06)]
  {
    hide Parse, Encode, Tokens, Fetch;
    var behind := Tokens(Encode(0, data, m.crc, m.f)) + rest;
    var tail := [Byte(EOT)] + behind;
    assert tail[1..] == behind;
    EndHeader(tail, m);
    ParseEncode(0, data, m.crc, m.f, rest);
    FetchIs(tail, next, m, MAX_RETRIES);
  }

  /** The same for any line behind the EOT, and for X-modem, which asks for no header and ends with status -4. */
  lemma EndAnswers(line: Line, m: Mode)
    ensures EndSays(line, m) ==
      if !m.ymodem then [0x06]
      else [0x06, if m.crc then 0x43 else 0x15] + (if Parse(line, m.crc, m.f).0.Eof? then [0x06] else []) + [0x06]
    ensures !m.ymodem ==> forall next: byte :: Ending([Byte(EOT)] + line, next, m) == -4
  {
    hide Parse, Fetch;
    if !m.ymodem {
      var tail := [Byte(EOT)] + line;
      EndHeader(tail, m);
      forall next: byte ensures Ending(tail, next, m) == -4 {
        FetchIs(tail, next, m, MAX_RETRIES);
      }
    }
  }

  // ---- What the other headers are answered with ----

  /**
   A header that is damaged, missing or out of sequence is answered with a request for the frame, a repeat of
   the block before with an ACK, and a cancel with nothing; the loop then goes on if it has a try left.
   */
  lemma Answers(line: Line, next: byte, m: Mode, txAck: bool, tries: nat)
    requires tries >= 1
    ensures var (h, rest) := Parse(line, m.crc, m.f);
      var all := FetchActs(line, next, m, txAck, tries);
      var more := if tries > 1 then FetchActs(rest, next, m, false, tries - 1) else [];
      && (h.Timeout? || h.BadFrame? || h.BadSum? || (h.Packet? && h.blk != next && h.blk != Prev(next)) ==>
            all == PendingAck(txAck) + [Wrote(if m.crc then 0x43 else 0x15)] + more)
      && (h.Packet? && h.blk == Prev(next) && h.blk != next ==> all == PendingAck(txAck) + [Wrote(0x06)] + more)
      && (h.Cancel? ==> all == PendingAck(txAck))
  {
    hide Parse, Strip, TryActs, FetchActs, Prev;
    var (h, rest) := Parse(line, m.crc, m.f);
    TryAnswer(h, rest, next, m, txAck);
    FetchActsIs(line, next, m, txAck, tries);
  }

  lemma TryAnswer(h: Hdr, rest: Line, next: byte, m: Mode, txAck: bool)
    ensures var acts := TryActs(h, rest, next, m, txAck);
      && (h.Timeout? || h.BadFrame? || h.BadSum? || (h.Packet? && h.blk != next && h.blk != Prev(next)) ==>
            acts == PendingAck(txAck) + [Wrote(if m.crc then 0x43 else 0x15)])
      && (h.Packet? && h.blk == Prev(next) && h.blk != next ==> acts == PendingAck(txAck) + [Wrote(0x06)])
      && (h.Cancel? ==> acts == PendingAck(txAck))
  {
    hide Strip, EndSays, Prev;
  }

  lemma FetchActsIs(line: Line, next: byte, m: Mode, txAck: bool, tries: nat)
    requires tries >= 1
    ensures var (h, rest) := Parse(line, m.crc, m.f);
      var acts := TryActs(h, rest, next, m, txAck);
      && (tries > 1 && GoesOn(h, next) ==>
            FetchActs(line, next, m, txAck, tries) == acts + FetchActs(rest, next, m, false, tries - 1))
      && (!(tries > 1 && GoesOn(h, next)) ==> FetchActs(line, next, m, txAck, tries) == acts)
  {
    hide TryActs, Parse;
  }
}
