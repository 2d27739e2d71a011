/**
 The Y-modem receiver as the code it is, over the serial ring: header search and frame reading, the
 retry loop with its deferred acknowledgement, and the buffered upload above it.
 */
module Modem {
  import opened Bytes
  import opened ModemLine
  import opened ModemFrame
  import opened ModemStream
  import opened ModemTalk

  const CRC_RETRIES := 10

  class Receiver {
    const ring: Ring
    const f: Crc
    const ymodem: bool
    /** The fields of the static `xyz` record; `pos` is `bufp` as an offset into `pkt`. */
    var pkt: seq<byte>
    var pos: nat
    var len: int
    var blk: byte
    var nextBlk: byte
    var crcMode: bool
    var atEof: bool
    var txAck: bool
    /** What has been written to the port, taken off the line and handed to the reader, in order. */
    var trace: seq<Act>
    /** Bytes of an accepted block that have not been copied out yet. */
    ghost var owed: seq<byte>

    ghost predicate Valid()
      reads this, ring
    {
      ring.Valid() && |pkt| == 1024 && -1 <= len && pos + len <= 1024
    }

    ghost function M(): Mode
      reads this
    {
      Mode(crcMode, f, ymodem)
    }

    constructor (ring: Ring, f: Crc, ymodem: bool)
      requires ring.Valid()
      ensures Valid() && this.ring == ring && this.ymodem == ymodem && this.f == f && owed == []
    {
      this.ring, this.f, this.ymodem := ring, f, ymodem;
      pkt, pos, len, blk, nextBlk := Zeros(1024), 0, 0, 0, 0;
      crcMode, atEof, txAck, trace, owed := true, false, false, [], [];
    }

    /** `putChar`. */
    method PutChar(b: byte)
      modifies this`trace
      ensures trace == old(trace) + Says([b])
    {
      trace := trace + [Wrote(b)];
    }

    /** `xyzModem_flush`. */
    method FlushLine()
      requires Valid()
      modifies ring, ring.buffer
      ensures Valid() && ring.Pending() == Flush(old(ring.Pending()))
    {
      var ok := true;
      while ok
        invariant Valid()
        invariant Flush(old(ring.Pending())) == if ok then Flush(ring.Pending()) else ring.Pending()
        decreases ok, |ring.Pending()|
      {
        var c;
        ok, c := ring.GetChar();
      }
    }

    /** The header search of `xyzModem_get_hdr`. */
    method FindHeader() returns (start: Start)
      requires Valid()
      modifies ring, ring.buffer
      ensures Valid() && FindStart(old(ring.Pending()), 0, true) == (start, ring.Pending())
    {
      var cans, chars := 0, 0;
      while true
        invariant Valid() && 0 <= cans < CAN_COUNT && 0 <= chars
        invariant FindStart(old(ring.Pending()), 0, true) == FindStart(ring.Pending(), cans, chars == 0)
        decreases |ring.Pending()|
      {
        ghost var line := ring.Pending();
        var ok, c := ring.GetChar();
        if !ok {
          FlushLine();
          return Silent;
        }
        chars := chars + 1;
        if c == SOH || c == STX {
          return Found(c == STX);
        } else if c == CAN {
          cans := cans + 1;
          if cans == CAN_COUNT {
            return Cancelled;
          }
        } else if c == EOT && chars == 1 {
          return Ended;
        }
      }
    }

    /** Read `n` characters, giving up at the first that does not come in time. */
    method ReadBytes(n: nat) returns (ok: bool, bytes: seq<byte>)
      requires Valid()
      modifies ring, ring.buffer
      ensures Valid()
      ensures match TakeBytes(old(ring.Pending()), n)
              case Got(b, rest) => ok && bytes == b && ring.Pending() == rest
              case Short(rest) => !ok && ring.Pending() == rest
    {
      hide TakeBytes, Ring.Pending;
      bytes, ok := [], true;
      ghost var line := ring.Pending();
      TakeNone(line);
      for i := 0 to n
        invariant Valid() && ok && |bytes| == i
        invariant TakeBytes(line, i) == Got(bytes, ring.Pending())
      {
        var c;
        TakeMore(line, i, n - i);
        TakeMore(line, i, 1);
        ghost var before := ring.Pending();
        TakeOneMore(before);
        TakeFails(before, n - i);
        ok, c := ring.GetChar();
        if !ok {
          return;
        }
        bytes := bytes + [c];
      }
    }

    /**
     `xyzModem_get_hdr`: the outcome and the line left are those of `ModemFrame.Parse`. It may be called,
     and so a pending ACK is sent and the packet overwritten, only when nothing accepted is uncopied.
     */
    method GetHdr() returns (stat: int)
      requires Valid() && owed == []
      modifies this`pkt, this`pos, this`len, this`blk, this`txAck, this`trace, ring, ring.buffer
      ensures Valid() && !txAck && (old(len) >= 0 ==> len >= 0)
      ensures var (h, rest) := Parse(old(ring.Pending()), crcMode, f);
        && ring.Pending() == rest && stat == Code(h)
        && (h.Packet? ==> blk == h.blk && pos == 0 && len == |h.data| && pkt[..len] == h.data)
      ensures trace == old(trace) + Says(HdrSays(Parse(old(ring.Pending()), crcMode, f).0, old(txAck)))
    {
      hide Body, FindStart, Ring.Pending;
      if txAck {
        PutChar(ACK);
        txAck := false;
      }
      var start := FindHeader();
      match start
      case Silent => return Code(Timeout);
      case Cancelled => return Code(Cancel);
      case Ended =>
        PutChar(ACK);
        return Code(Eof);
      case Found(long) =>
        stat := ReadPacket(long);
    }

    /** The rest of `xyzModem_get_hdr`, behind a start character. */
    method ReadPacket(long: bool) returns (stat: int)
      requires Valid()
      modifies this`pkt, this`pos, this`len, this`blk, ring, ring.buffer
      ensures Valid() && (old(len) >= 0 ==> len >= 0)
      ensures var (h, rest) := Body(old(ring.Pending()), long, crcMode, f);
        && ring.Pending() == rest && stat == Code(h) && !h.Eof?
        && (h.Packet? ==> blk == h.blk && pos == 0 && len == |h.data| && pkt[..len] == h.data)
    {
      hide TakeBytes, Body, Flush, CheckBytes, Ring.Pending;
      BodyIs(ring.Pending(), long, crcMode, f);
      var n, k := if long then 1024 else 128, if crcMode then 2 else 1;
      var ok, numbers := ReadBytes(2);
      if !ok {
        return Code(Timeout);
      }
      blk := numbers[0];
      len, pos := n, 0;
      var data, check;
      ok, data := ReadBytes(n);
      if !ok {
        return Code(Timeout);
      }
      pkt := data + pkt[n..];
      ok, check := ReadBytes(k);
      if !ok {
        return Code(Timeout);
      }
      if blk as int + numbers[1] as int != 255 {
        FlushLine();
        return Code(BadFrame);
      }
      assert pkt[..n] == data;
      var good := CheckGood(n, check);
      return if good then 0 else Code(BadSum);
    }

    /** The check of a packet: its CRC against two bytes, or its 16-bit sum against one. */
    method CheckGood(n: nat, check: seq<byte>) returns (good: bool)
      requires n <= |pkt| && |check| == if crcMode then 2 else 1
      ensures good <==> check == CheckBytes(pkt[..n], crcMode, f)
    {
      hide Sum, CheckBytes;
      CheckIs(pkt[..n], check, f);
      var cksum: int := 0;
      if crcMode {
        cksum := f(pkt[..n]) % 0x1_0000;
        good := cksum == check[0] as int * 256 + check[1] as int;
      } else {
        NoSum();
        assert pkt[..0] == [];
        for i := 0 to n
          invariant cksum == Sum(pkt[..i]) % 0x1_0000
        {
          SumOneMore(pkt, i);
          cksum := (cksum + pkt[i] as int) % 0x1_0000;
        }
        good := check[0] as int == cksum % 256;
      }
    }

    /** Drop the pad of an accepted block, by the three-^Z rule. */
    method StripPad()
      requires Valid() && pos == 0 && (len == 128 || len == 1024)
      modifies this`len
      ensures 0 <= len <= old(len) && pkt[..len] == Strip(pkt[..old(len)])
    {
      ghost var whole := pkt[..len];
      if pkt[len - 1] == CPMEOF && pkt[len - 2] == CPMEOF && pkt[len - 3] == CPMEOF {
        while len > 0 && pkt[len - 1] == CPMEOF
          invariant 0 <= len <= old(len) && Trim(whole) == Trim(pkt[..len])
        {
          assert pkt[..len][..len - 1] == pkt[..len - 1];
          len := len - 1;
        }
      }
    }

    /** Ask for a frame: at the start, and after a bad or out-of-sequence one. */
    method Ask()
      modifies this`trace
      ensures trace == old(trace) + Says([Request(crcMode)])
    {
      PutChar(if crcMode then CHAR_C else NAK);
    }

    /** The receiver's fields show the outcome `r` of a fetch that expected `next`. */
    ghost predicate Shows(r: Fetched, stat: int, next: byte)
      requires Valid()
      reads this, ring, ring.buffer
    {
      && ring.Pending() == r.rest
      && match r
         case Block(data, _) => stat == 0 && !atEof && nextBlk == Succ(next) && txAck && Holds(data)
         case Stale(data, _) => stat == 0 && !atEof && nextBlk == next && !txAck && Holds(data)
         case End(s, _) => stat == s && atEof
         case Failed(s, _) => stat == s && !atEof
    }

    ghost predicate Holds(data: seq<byte>)
      requires Valid()
      reads this, ring
    {
      pos == 0 && 0 <= len && pkt[..len] == data
    }

    /** The expected block is taken: to be acknowledged, counted and stripped of its pad. */
    method Accept()
      requires Valid() && pos == 0 && (len == 128 || len == 1024)
      modifies this`txAck, this`nextBlk, this`len, this`trace
      ensures Valid() && txAck && nextBlk == Succ(old(nextBlk)) && Holds(Strip(old(pkt[..len])))
      ensures trace == old(trace) + [Took(Strip(old(pkt[..len])))]
    {
      txAck := true;
      nextBlk := (nextBlk as int + 1) % 256;
      StripPad();
      trace := trace + [Took(pkt[..len])];
    }

    /**
     One pass of the retry loop with `tries` tries left: the fetch is over, or it goes on with one try
     less, or this was the last one.
     */
    method OneTry(ghost tries: nat) returns (stat: int, again: bool)
      requires Valid() && owed == [] && !atEof && len >= 0 && tries >= 1
      modifies this`pkt, this`pos, this`len, this`blk, this`txAck, this`trace, this`nextBlk, this`atEof,
               ring, ring.buffer
      ensures Valid() && len >= 0
      ensures !again || tries == 1 ==> Shows(Fetch(old(ring.Pending()), old(nextBlk), M(), tries), stat, old(nextBlk))
      ensures again ==> !atEof && nextBlk == old(nextBlk) && !txAck
      ensures again && tries > 1 ==>
        Fetch(old(ring.Pending()), nextBlk, M(), tries) == Fetch(ring.Pending(), nextBlk, M(), tries - 1)
      ensures var (h, rest) := Parse(old(ring.Pending()), crcMode, f);
        && again == GoesOn(h, old(nextBlk)) && (again ==> ring.Pending() == rest)
        && trace == old(trace) + TryActs(h, rest, old(nextBlk), M(), old(txAck))
      ensures var r := Fetch(old(ring.Pending()), old(nextBlk), M(), tries);
        (!again ==> !r.Stale?) && (again && tries == 1 ==> (r.Stale? || r.Failed?) && (r.Stale? <==> stat == 0))
    {
      hide Parse, Ring.Pending, Strip, Says, HdrSays, EndSays, Fetch, Succ, Prev, Request, TryActs;
      ghost var (h, rest) := Parse(ring.Pending(), crcMode, f);
      FetchIs(ring.Pending(), nextBlk, M(), tries);
      TryActsAfter(trace, h, rest, nextBlk, M(), txAck);
      stat := GetHdr();
      again := false;
      if stat == 0 {
        if blk == nextBlk {
          Accept();
          return;
        } else if blk == Prev(nextBlk) {
          PutChar(ACK);
          return stat, true;
        } else {
          stat := SEQUENCE;
        }
      }
      if stat == Code(Cancel) {
        return;
      }
      if stat == Code(Eof) {
        stat := AtEndOfFile();
        return;
      }
      Ask();
      return stat, true;
    }

    /** The end of the file: EOT is acknowledged and, for Y-modem, the final header is asked for and read. */
    method AtEndOfFile() returns (stat: int)
      requires Valid() && owed == [] && len >= 0 && !txAck
      modifies this`pkt, this`pos, this`len, this`blk, this`txAck, this`trace, this`atEof, ring, ring.buffer
      ensures Valid() && len >= 0 && atEof
      ensures trace == old(trace) + Says(EndSays(old(ring.Pending()), M()))
      ensures if ymodem then Parse(old(ring.Pending()), crcMode, f).1 == ring.Pending()
                             && stat == Code(Parse(old(ring.Pending()), crcMode, f).0)
              else stat == Code(Eof) && ring.Pending() == old(ring.Pending())
    {
      hide Parse, Ring.Pending, HdrSays, Says;
      stat := Code(Eof);
      ghost var ask, hdr := [Request(crcMode)], HdrSays(Parse(ring.Pending(), crcMode, f).0, false);
      SaysAppend([ACK], ask + hdr + [ACK]);
      SaysAppend(ask + hdr, [ACK]);
      SaysAppend(ask, hdr);
      PutChar(ACK);
      if ymodem {
        Ask();
        stat := GetHdr();
        PutChar(ACK);
        assert [ACK] + (ask + hdr + [ACK]) == EndSays(old(ring.Pending()), M());
      } else {
        assert EndSays(old(ring.Pending()), M()) == [ACK];
      }
      atEof := true;
    }

    /**
     The retry loop of `xyzModem_stream_read`, for one block: what it gets, what it leaves on the line
     and the status are those of `ModemStream.Fetch`, and what it does on the way that of `FetchTalk`.
     */
    method FetchBlock() returns (stat: int)
      requires Valid() && owed == [] && !atEof && len >= 0
      modifies this`pkt, this`pos, this`len, this`blk, this`txAck, this`trace, this`nextBlk, this`atEof,
               ring, ring.buffer
      ensures Valid() && len >= 0
      ensures Shows(Fetch(old(ring.Pending()), old(nextBlk), M(), MAX_RETRIES), stat, old(nextBlk))
      ensures trace == old(trace) + FetchTalk(old(ring.Pending()), old(nextBlk), M(), old(txAck))
    {
      hide Fetch, Ring.Pending, FetchActs;
      var over;
      stat, over := RetryLoop();
      if over && stat == 0 {
        trace := trace + [Took(pkt[pos..pos + len])];
      }
    }

    /** The loop itself; `over` when its tries are used up. */
    method RetryLoop() returns (stat: int, over: bool)
      requires Valid() && owed == [] && !atEof && len >= 0
      modifies this`pkt, this`pos, this`len, this`blk, this`txAck, this`trace, this`nextBlk, this`atEof,
               ring, ring.buffer
      ensures Valid() && len >= 0
      ensures var r := Fetch(old(ring.Pending()), old(nextBlk), M(), MAX_RETRIES);
        Shows(r, stat, old(nextBlk)) && if over then r.Stale? || r.Failed? else !r.Stale?
      ensures trace == old(trace) + FetchActs(old(ring.Pending()), old(nextBlk), M(), old(txAck), MAX_RETRIES)
    {
      hide Fetch, Ring.Pending, FetchActs, TryActs, Parse;
      var retries := MAX_RETRIES;
      stat, over := Code(Cancel), false;
      ghost var r := Fetch(ring.Pending(), nextBlk, M(), MAX_RETRIES);
      ghost var all := trace + FetchActs(ring.Pending(), nextBlk, M(), txAck, MAX_RETRIES);
      while retries > 0
        invariant Valid() && len >= 0 && 0 <= retries <= MAX_RETRIES
        invariant retries > 0 ==> !atEof && nextBlk == old(nextBlk) && r == Fetch(ring.Pending(), nextBlk, M(), retries)
        invariant retries == 0 ==> Shows(r, stat, old(nextBlk)) && (r.Stale? || r.Failed?) && all == trace
        invariant retries > 0 ==> all == trace + FetchActs(ring.Pending(), nextBlk, M(), txAck, retries)
      {
        var again;
        FetchActsAfter(ring.Pending(), nextBlk, M(), txAck, retries, trace);
        stat, again := OneTry(retries);
        retries := retries - 1;
        if !again {
          return;
        }
      }
      over := true;
    }

    /** Bytes of the current block that are still to be copied. */
    ghost function Held(): seq<byte>
      reads this
      requires |pkt| == 1024 && 0 <= len && pos + len <= 1024
    {
      pkt[pos..pos + len]
    }

    /** The receiver between two reads: no read has failed, or the file had already ended when it did. */
    ghost predicate Alive()
      reads this, ring
    {
      Valid() && (if atEof then owed == [] else 0 <= len && owed == Held())
    }

    /** Everything it will still deliver. */
    ghost function Total(): seq<byte>
      reads this, ring, ring.buffer
      requires Alive()
    {
      if atEof then [] else owed + Stream(ring.Pending(), nextBlk, M())
    }

    /** The status it will end with, and whether that is because the file ended. */
    ghost function Outcome(): int
      reads this, ring, ring.buffer
      requires Alive()
    {
      if atEof then 0 else Ending(ring.Pending(), nextBlk, M())
    }

    ghost predicate Closes()
      reads this, ring, ring.buffer
      requires Alive()
    {
      atEof || Closing(ring.Pending(), nextBlk, M())
    }

    /** Everything it will still write to the port, take and hand out, in order. */
    ghost function Ahead(): seq<Act>
      reads this, ring, ring.buffer
      requires Alive()
    {
      if atEof then [] else Gives(owed) + Talk(ring.Pending(), nextBlk, M(), txAck)
    }

    /** Get another block when the last one has been copied out: what is still to come is the same. */
    method NextBlock() returns (stat: int)
      requires Alive() && len == 0 && !atEof
      modifies this, ring, ring.buffer
      ensures Valid() && (atEof ==> Alive() && old(Closes()) && trace == old(trace) + old(Ahead()))
      ensures stat < 0 ==> old(Total()) == [] && old(Outcome()) == stat && (atEof <==> old(Closes()))
      ensures stat < 0 ==> trace == old(trace) + old(Ahead())
      ensures stat >= 0 ==>
        Alive() && Total() == old(Total()) && Outcome() == old(Outcome()) && Closes() == old(Closes())
      ensures stat >= 0 ==> trace + Ahead() == old(trace) + old(Ahead())
      ensures stat >= 0 && !atEof ==> |ring.Pending()| < |old(ring.Pending())|
    {
      hide Fetch, Ring.Pending, FetchTalk, Gives, Stream, Ending, Closing, Talk;
      assert owed == [];
      NothingGiven();
      ghost var line, next, ack := ring.Pending(), nextBlk, txAck;
      AheadIs(line, next, M(), ack);
      stat := FetchBlock();
      assert [] + Stream(line, next, M()) == Stream(line, next, M());
      if stat >= 0 && !atEof {
        owed := pkt[pos..pos + len];
        assert owed == pkt[..len];
      }
    }

    /** The `memcpy` of at most `want` bytes out of the current block. */
    method CopyOut(want: nat) returns (part: seq<byte>)
      requires Alive() && !atEof && want > 0
      modifies this`pos, this`len, this`owed, this`trace
      ensures Alive() && !atEof && |part| <= want && |owed| == old(|owed|) - |part|
      ensures old(Total()) == part + Total() && Outcome() == old(Outcome()) && Closes() == old(Closes())
      ensures trace == old(trace) + Gives(part) && trace + Ahead() == old(trace) + old(Ahead())
      ensures old(len) > 0 ==> |part| > 0
    {
      hide Stream, Ending, Closing, Talk, Ring.Pending, Gives, Total, Outcome, Closes, Ahead;
      var n := if want < len then want else len;
      part := pkt[pos..pos + n];
      assert owed == part + owed[n..];
      AheadOf(this);
      HandOver(part, owed[n..], Stream(ring.Pending(), nextBlk, M()), Talk(ring.Pending(), nextBlk, M(), txAck), trace);
      owed := owed[n..];
      trace := trace + Gives(part);
      pos, len := pos + n, len - n;
      AheadOf(this);
    }

    /**
     `xyzModem_stream_read`: the next bytes of the stream, as many as asked for or as there are, however
     the stream is cut into requests; and what it writes to the port and hands out, in order, is the next
     part of what lies ahead. It fails only when the stream ends before the request is filled and the
     transfer ends with an error; unless the file had ended, the receiver must not be read again.
     */
    method StreamRead(size: nat) returns (buf: seq<byte>, err: int)
      requires Alive()
      modifies this, ring, ring.buffer
      ensures Valid()
      ensures buf == old(Total())[..if size < |old(Total())| then size else |old(Total())|]
      ensures err == 0 ==> Alive() && Total() == old(Total())[|buf|..] && Outcome() == old(Outcome())
      ensures err == 0 ==> Closes() == old(Closes()) && trace + Ahead() == old(trace) + old(Ahead())
      ensures err == 0 && |buf| < size ==> atEof
      ensures err != 0 ==> |buf| < size && err == old(Outcome()) && buf == old(Total()) && !old(atEof) && len == -1
      ensures err != 0 ==> (atEof <==> old(Closes())) && trace == old(trace) + old(Ahead()) && (atEof ==> Alive())
      ensures err == 0 && atEof && !old(atEof) ==> |buf| < size && old(Closes()) && old(Outcome()) == 0
    {
      hide Total, Outcome, Ring.Pending, Closes, Ahead, Alive;
      buf, err := [], 0;
      ghost var total, outcome, closes, ahead := Total(), Outcome(), Closes(), trace + Ahead();
      assert total == buf + Total();
      AliveIsValid(this);
      while !atEof && |buf| < size
        invariant Valid() && Alive() && |buf| <= size
        invariant total == buf + Total() && Outcome() == outcome && Closes() == closes && trace + Ahead() == ahead
        invariant atEof && !old(atEof) ==> |buf| < size
        decreases !atEof, |ring.Pending()|, |owed|
      {
        ghost var before := Total();
        var stat, part := ReadPart(size - |buf|);
        if stat < 0 {
          err, len := stat, -1;
          Front(buf, [], size);
          DeadOrEnded(this);
          return;
        }
        AliveIsValid(this);
        assert buf + (part + Total()) == buf + part + Total();
        buf := buf + part;
      }
      if atEof {
        NothingMore(this);
      }
      Front(buf, Total(), size);
    }

    /** One turn of the loop of `xyzModem_stream_read`: another block if the last is used up, then a copy out of it. */
    method ReadPart(want: nat) returns (stat: int, part: seq<byte>)
      requires Alive() && !atEof && want > 0
      modifies this, ring, ring.buffer
      ensures Valid() && |part| <= want && (atEof ==> part == [] && owed == [])
      ensures stat < 0 ==> part == [] && old(Total()) == [] && old(Outcome()) == stat && (atEof <==> old(Closes()))
      ensures stat < 0 ==> trace == old(trace) + old(Ahead())
      ensures stat >= 0 ==> Alive() && old(Total()) == part + Total() && Outcome() == old(Outcome())
      ensures stat >= 0 ==> Closes() == old(Closes()) && trace + Ahead() == old(trace) + old(Ahead())
      ensures stat >= 0 && !atEof ==>
        |ring.Pending()| < |old(ring.Pending())|
        || (ring.Pending() == old(ring.Pending()) && |owed| < |old(owed)|)
    {
      hide Total, Outcome, Ring.Pending, Closes, Ahead;
      stat, part := 0, [];
      if len == 0 {
        stat := NextBlock();
        if stat < 0 {
          return;
        }
      }
      if !atEof {
        part := CopyOut(want);
      } else {
        assert [] + Total() == Total();
      }
    }

    /** One pass of the opening loop. */
    method OpenTry(ghost tries: nat, crcRetries: int) returns (stat: int, left: int)
      requires Valid() && owed == [] && len >= 0 && tries >= 1 && !txAck
      modifies this`pkt, this`pos, this`len, this`blk, this`txAck, this`trace, this`crcMode, ring, ring.buffer
      ensures Valid() && len >= 0 && !txAck
      ensures stat == 0 ==>
        OpenLine(old(ring.Pending()), old(crcMode), f, tries, crcRetries) == Ready(crcMode, blk == 0, ring.Pending())
      ensures stat == Code(Cancel) || (stat != 0 && tries == 1) ==>
        OpenLine(old(ring.Pending()), old(crcMode), f, tries, crcRetries) == NotReady(stat, ring.Pending())
      ensures stat != 0 && stat != Code(Cancel) && tries > 1 ==>
        OpenLine(old(ring.Pending()), old(crcMode), f, tries, crcRetries)
        == OpenLine(ring.Pending(), crcMode, f, tries - 1, left)
      ensures var (h, rest) := Parse(old(ring.Pending()), old(crcMode), f);
        && stat == Code(h) && ring.Pending() == rest && trace == old(trace) + Says(OpenReply(h, crcMode))
        && crcMode == CrcAfter(h, old(crcMode), crcRetries) && left == crcRetries - if h.Timeout? then 1 else 0
    {
      hide Parse, Ring.Pending, Says;
      left := crcRetries;
      ghost var hdr := HdrSays(Parse(ring.Pending(), crcMode, f).0, false);
      assert hdr + [] == hdr;
      stat := GetHdr();
      if stat == Code(Timeout) {
        left := left - 1;
        if left <= 0 {
          crcMode := false;
        }
        SaysAppend(hdr, [Request(crcMode)]);
        Ask();
      }
    }

    /**
     `xyzModem_stream_open` on an opened port: for Y-modem the first intact frame within twenty tries
     opens the stream, by CRC or, after ten silences, by checksum; a file header is to be acknowledged.
     */
    method StreamOpen() returns (r: int, err: int)
      requires Valid() && owed == []
      modifies this, ring, ring.buffer
      ensures Valid()
      ensures r == 0 ==> Alive() && nextBlk == 1 && owed == [] && !atEof
      ensures !ymodem ==> r == 0 && crcMode && !txAck && ring.Pending() == old(ring.Pending())
      ensures ymodem ==>
        match OpenLine(old(ring.Pending()), true, f, MAX_RETRIES, CRC_RETRIES)
        case Ready(crc, header, rest) => r == 0 && crcMode == crc && txAck == header && ring.Pending() == rest
        case NotReady(stat, rest) => r == -1 && err == stat && ring.Pending() == rest
      ensures var asks := if ymodem then OpenSays(old(ring.Pending()), true, f, MAX_RETRIES, CRC_RETRIES) else [];
        trace == old(trace) + Says([CHAR_C] + asks)
    {
      hide OpenLine, OpenSays, Ring.Pending, Says;
      pos, len, crcMode, atEof, txAck := 0, 0, true, false, false;
      r, err := 0, 0;
      Ask();
      if ymodem {
        SaysAppend([CHAR_C], OpenSays(ring.Pending(), true, f, MAX_RETRIES, CRC_RETRIES));
        err := OpenLoop();
        r := if err == 0 then 0 else -1;
      } else {
        assert [CHAR_C] + [] == [CHAR_C];
      }
      if r == 0 {
        if ymodem && blk == 0 {
          txAck := true;
        }
        nextBlk, len := 1, 0;
      }
    }

    /** The opening loop: the status of the last header it reads, which is zero if that is an intact frame. */
    method OpenLoop() returns (err: int)
      requires Valid() && owed == [] && len >= 0 && !txAck && crcMode
      modifies this`pkt, this`pos, this`len, this`blk, this`txAck, this`trace, this`crcMode, ring, ring.buffer
      ensures Valid() && len >= 0 && !txAck
      ensures OpenLine(old(ring.Pending()), true, f, MAX_RETRIES, CRC_RETRIES)
           == if err == 0 then Ready(crcMode, blk == 0, ring.Pending()) else NotReady(err, ring.Pending())
      ensures trace == old(trace) + Says(OpenSays(old(ring.Pending()), true, f, MAX_RETRIES, CRC_RETRIES))
    {
      hide OpenLine, OpenSays, OpenReply, CrcAfter, Parse, Ring.Pending, Says;
      var retries, left := MAX_RETRIES, CRC_RETRIES;
      ghost var o := OpenLine(ring.Pending(), true, f, MAX_RETRIES, CRC_RETRIES);
      ghost var all := OpenSays(ring.Pending(), true, f, MAX_RETRIES, CRC_RETRIES);
      ghost var said: seq<byte> := [];
      SaysNothing();
      err := Code(Timeout);
      while retries > 0
        invariant Valid() && len >= 0 && 0 <= retries <= MAX_RETRIES && owed == [] && !txAck && err != 0
        invariant retries > 0 ==> o == OpenLine(ring.Pending(), crcMode, f, retries, left)
        invariant retries == 0 ==> o == NotReady(err, ring.Pending())
        invariant trace == old(trace) + Says(said)
        invariant all == said + if retries > 0 then OpenSays(ring.Pending(), crcMode, f, retries, left) else []
      {
        ghost var h := Parse(ring.Pending(), crcMode, f).0;
        ghost var now := OpenReply(h, CrcAfter(h, crcMode, left));
        OpenSaysIs(ring.Pending(), crcMode, f, retries, left);
        SaysAppend(said, now);
        CodeIs(h);
        err, left := OpenTry(retries, left);
        retries := retries - 1;
        said := said + now;
        assert h.Packet? || h.Cancel? || retries == 0 ==> all == said;
        if err == 0 || err == Code(Cancel) {
          return;
        }
      }
      assert all == said;
    }
  }

  lemma NoSum()
    ensures Sum([]) == 0
  {
  }

  lemma CheckIs(data: seq<byte>, check: seq<byte>, f: Crc)
    ensures |check| == 2 ==>
      (check == CheckBytes(data, true, f) <==> f(data) % 0x1_0000 == check[0] as int * 256 + check[1] as int)
    ensures |check| == 1 ==> (check == CheckBytes(data, false, f) <==> check[0] as int == Sum(data) % 0x1_0000 % 256)
  {
    hide Sum;
    if |check| == 2 {
      HighLow(f(data) % 0x1_0000, check[0], check[1]);
    }
  }

  lemma SumOneMore(bs: seq<byte>, i: nat)
    requires i < |bs|
    ensures Sum(bs[..i + 1]) == Sum(bs[..i]) + bs[i] as int
  {
    assert bs[..i + 1][..i] == bs[..i];
  }

  lemma TryActsAfter(trace: seq<Act>, h: Hdr, rest: Line, next: byte, m: Mode, txAck: bool)
    ensures trace + TryActs(h, rest, next, m, txAck)
         == trace + Says(HdrSays(h, txAck)) +
            if h.Packet? && h.blk == next then [Took(Strip(h.data))] else Says(Reply(h, rest, next, m))
    ensures h.Cancel? ==> trace + TryActs(h, rest, next, m, txAck) == trace + Says(HdrSays(h, txAck))
  {
    hide HdrSays, EndSays, Strip, Says;
    SaysNothing();
  }

  lemma FetchActsAfter(line: Line, next: byte, m: Mode, txAck: bool, tries: nat, trace: seq<Act>)
    requires tries >= 1
    ensures var (h, rest) := Parse(line, m.crc, m.f);
      trace + FetchActs(line, next, m, txAck, tries) ==
      if tries > 1 && GoesOn(h, next)
      then trace + TryActs(h, rest, next, m, txAck) + FetchActs(rest, next, m, false, tries - 1)
      else trace + TryActs(h, rest, next, m, txAck)
  {
    hide TryActs, Parse, FetchActs;
    FetchActsIs(line, next, m, txAck, tries);
  }

  const WRITE_BUF_SIZE := 4096

  function SumOf(ws: seq<nat>): nat {
    if ws == [] then 0 else SumOf(ws[..|ws| - 1]) + ws[|ws| - 1]
  }

  /** Writes longer than 3840 bytes, and the same of all but the last. */
  predicate Long(ws: seq<nat>) {
    forall i :: 0 <= i < |ws| ==> WRITE_BUF_SIZE - 0x100 < ws[i] <= WRITE_BUF_SIZE
  }

  predicate LongButLast(ws: seq<nat>) {
    forall i :: 0 <= i < |ws| ==> 0 < ws[i] <= WRITE_BUF_SIZE && (i < |ws| - 1 ==> ws[i] > WRITE_BUF_SIZE - 0x100)
  }

  /**
   The transfer loop of `ymodemUpload`. The file is the stream, every write but the last longer than 3840
   bytes, unless the loop is `broken`: it then reads once more after a read that failed, with a length
   of -1, and that happens if and only if the transfer fails before the end of the file with part of a
   buffer read. The transfer counts as complete if the file ends, and ends well or in mid-buffer.
   */
  method Upload(r: Receiver) returns (file: seq<byte>, writes: seq<nat>, complete: bool, broken: bool)
    requires r.Alive()
    modifies r, r.ring, r.ring.buffer
    ensures broken <==> !old(r.Closes()) && |old(r.Total())| % WRITE_BUF_SIZE != 0
    ensures !broken ==> file == old(r.Total())
    ensures complete <==> old(r.Closes()) && (old(r.Outcome()) == 0 || |old(r.Total())| % WRITE_BUF_SIZE != 0)
    ensures r.trace == old(r.trace) + old(r.Ahead())
    ensures SumOf(writes) == |file| && file <= old(r.Total()) && LongButLast(writes)
  {
    hide SumOf, LongButLast, Long, Under,
         Receiver.Total, Receiver.Outcome, Receiver.Alive, Receiver.Closes, Receiver.Ahead;
    file, writes, complete, broken := [], [], false, false;
    var buf: seq<byte> := [];
    SumNone();
    ghost var g := Goal(r.Total(), r.Outcome(), r.Closes(), r.trace + r.Ahead());
    AtStart(r, g);
    assert file + buf == [];
    while true
      invariant |buf| <= WRITE_BUF_SIZE - 0x100 && (!r.atEof ==> buf == [])
      invariant Under(r, file + buf, g)
      invariant SumOf(writes) == |file| && Long(writes) && LongButLast(writes)
      decreases |g.total| - |file + buf|
    {
      ghost var all := file + buf;
      BelowTotal(r, all, g);
      var got, err := ReadOn(r, WRITE_BUF_SIZE - |buf|, all, g);
      assert file + (buf + got) == all + got;
      buf := buf + got;
      if (got == [] && buf != []) || |buf| > WRITE_BUF_SIZE - 0x100 {
        SumMore(writes, |buf|);
        file, writes := file + buf, writes + [|buf|];
        buf := [];
        assert file + buf == all + got;
      }
      if got == [] {
        assert file == all;
        complete := err == 0;
        break;
      }
      if r.len == -1 && !r.atEof {
        broken := true;
        break;
      }
      BelowTotal(r, all + got, g);
    }
  }

  /**
   The whole of `ymodemUpload` on an opened port, for a sender that is honest from the file header on. If
   the stream opens and each of the blocks 1 to n arrives within its retry budget, then the file is those
   blocks in order, each once, pad stripped. And whatever the line does, nothing is written to the port
   while a byte of a block taken off the line is still to be handed out.
   */
  method ReceiveFile(r: Receiver, ghost b: nat -> seq<byte>, ghost ks: seq<nat>, ghost n: nat)
    returns (ready: bool, file: seq<byte>, writes: seq<nat>, complete: bool, broken: bool)
    requires r.Valid() && r.owed == [] && r.ymodem && r.trace == []
    modifies r, r.ring, r.ring.buffer
    ensures var o := OpenLine(old(r.ring.Pending()), true, r.f, MAX_RETRIES, CRC_RETRIES);
      && ready == o.Ready? && (!ready ==> file == [] && !complete)
      && (ready ==>
            var m := Mode(o.crc, r.f, true);
            && (broken <==> !Closing(o.rest, 1, m) && |Stream(o.rest, 1, m)| % WRITE_BUF_SIZE != 0)
            && (!broken ==> file == Stream(o.rest, 1, m))
            && (Honest(o.rest, 1, ks, m, b) && WithinBudget(o.rest, 1, n, m) ==>
                  && !broken && file == Blocks(b, 1, n)
                  && (complete <==> Ending(o.rest, 1, m) == 0 || |file| % WRITE_BUF_SIZE != 0)))
    ensures LongButLast(writes) && SumOf(writes) == |file| && Settled(r.trace)
  {
    hide Stream, Ending, Closing, Talk, Honest, WithinBudget, Settled, GivenIn, TakenIn, OpenLine, OpenSays,
         LongButLast, Long, SumOf, Says, Ring.Pending;
    SumNone();
    file, writes, complete, broken := [], [], false, false;
    ghost var o := OpenLine(r.ring.Pending(), true, r.f, MAX_RETRIES, CRC_RETRIES);
    ghost var asks := [CHAR_C] + OpenSays(r.ring.Pending(), true, r.f, MAX_RETRIES, CRC_RETRIES);
    OnlySays(asks);
    var ret, err := r.StreamOpen();
    assert r.trace == Says(asks);
    ready := ret == 0;
    if ready {
      ghost var m, ack := Mode(o.crc, r.f, true), r.txAck;
      FreshAhead(r);
      if Honest(o.rest, 1, ks, m, b) && WithinBudget(o.rest, 1, n, m) {
        InOrder(o.rest, 1, n, ks, m, b);
      }
      WritesSettled(o.rest, 1, m, ack);
      SettledAppend(Says(asks), Talk(o.rest, 1, m, ack));
      file, writes, complete, broken := Upload(r);
    }
  }

  lemma AheadOf(r: Receiver)
    requires r.Alive() && !r.atEof
    ensures r.Total() == r.owed + Stream(r.ring.Pending(), r.nextBlk, r.M())
    ensures r.Outcome() == Ending(r.ring.Pending(), r.nextBlk, r.M())
    ensures r.Closes() == Closing(r.ring.Pending(), r.nextBlk, r.M())
    ensures r.Ahead() == Gives(r.owed) + Talk(r.ring.Pending(), r.nextBlk, r.M(), r.txAck)
  {
    hide Stream, Ending, Closing, Talk, Ring.Pending, Gives;
  }

  lemma FreshAhead(r: Receiver)
    requires r.Alive() && r.owed == [] && !r.atEof
    ensures r.Total() == Stream(r.ring.Pending(), r.nextBlk, r.M())
    ensures r.Outcome() == Ending(r.ring.Pending(), r.nextBlk, r.M())
    ensures r.Closes() == Closing(r.ring.Pending(), r.nextBlk, r.M())
    ensures r.Ahead() == Talk(r.ring.Pending(), r.nextBlk, r.M(), r.txAck)
  {
    hide Stream, Ending, Closing, Talk, Ring.Pending;
    AheadOf(r);
  }

  /** The failure is real: one block without pad, and then silence, leaves the loop reading with a length of -1. */
  lemma OneBlockThenSilence(data: seq<byte>, m: Mode)
    requires (|data| == 128 || |data| == 1024) && Strip(data) == data
    ensures var line := Tokens(Encode(1, data, m.crc, m.f)) + [];
      Stream(line, 1, m) == data && !Closing(line, 1, m) && |Stream(line, 1, m)| % WRITE_BUF_SIZE != 0
  {
    hide Parse, Encode, Strip, Tokens;
    var line := Tokens(Encode(1, data, m.crc, m.f)) + [];
    ParseEncode(1, data, m.crc, m.f, []);
    FetchIs(line, 1, m, MAX_RETRIES);
    assert Fetch(line, 1, m, MAX_RETRIES) == Block(data, []);
    SilenceFails(2, m, MAX_RETRIES);
    assert Succ(1) == 2;
    assert data + [] == data;
  }

  /** What a transfer will come to: the bytes, the final status, whether the file ends, and the whole trace. */
  datatype Goal = Goal(total: seq<byte>, outcome: int, closes: bool, trace: seq<Act>)

  /** The transfer has come as far as `all`; whole buffers only, as long as the file has not ended. */
  ghost predicate Under(r: Receiver, all: seq<byte>, g: Goal)
    reads r, r.ring, r.ring.buffer
  {
    && r.Alive() && g.total == all + r.Total() && g.trace == r.trace + r.Ahead()
    && if r.atEof then g.closes && (g.outcome == 0 || |g.total| % WRITE_BUF_SIZE != 0)
       else |all| % WRITE_BUF_SIZE == 0 && r.Closes() == g.closes && r.Outcome() == g.outcome
  }

  lemma AtStart(r: Receiver, g: Goal)
    requires r.Alive() && g == Goal(r.Total(), r.Outcome(), r.Closes(), r.trace + r.Ahead())
    ensures Under(r, [], g)
  {
    hide Receiver.Total, Receiver.Outcome, Receiver.Closes, Receiver.Ahead;
    assert [] + r.Total() == r.Total();
    if r.atEof {
      NothingMore(r);
    }
  }

  lemma BelowTotal(r: Receiver, all: seq<byte>, g: Goal)
    requires Under(r, all, g)
    ensures all <= g.total && r.Alive()
  {
  }

  /** One read of the transfer loop: the end, a failure in mid-buffer, or further on. */
  method ReadOn(r: Receiver, want: nat, ghost all: seq<byte>, ghost g: Goal) returns (got: seq<byte>, err: int)
    requires Under(r, all, g) && r.Alive() && 0 < want <= WRITE_BUF_SIZE && (!r.atEof ==> want == WRITE_BUF_SIZE)
    modifies r, r.ring, r.ring.buffer
    ensures |got| <= want && all + got <= g.total
    ensures got == [] ==>
      && g.total == all && g.trace == r.trace && (!g.closes ==> |g.total| % WRITE_BUF_SIZE == 0)
      && (err == 0 <==> g.closes && (g.outcome == 0 || |g.total| % WRITE_BUF_SIZE != 0))
    ensures got != [] && r.len == -1 && !r.atEof ==> !g.closes && |g.total| % WRITE_BUF_SIZE != 0 && g.trace == r.trace
    ensures got != [] && !(r.len == -1 && !r.atEof) ==> Under(r, all + got, g) && (!r.atEof ==> |got| == want)
  {
    hide Receiver.Total, Receiver.Outcome, Receiver.Alive, Receiver.Closes, Receiver.Ahead;
    ghost var before, was := r.Total(), r.atEof;
    if was {
      NothingMore(r);
    }
    got, err := r.StreamRead(want);
    assert before == got + before[|got|..];
    assert all + (got + before[|got|..]) == all + got + before[|got|..];
    if r.atEof {
      NothingMore(r);
      assert r.trace + [] == r.trace;
    } else if r.len == -1 {
      StillAlive(r, err);
    }
    if got != [] && !was && |got| < want {
      PartOfBuffer(|all|, |got|);
    }
  }

  lemma StillAlive(r: Receiver, err: int)
    requires (err == 0 ==> r.Alive()) && r.len == -1 && !r.atEof
    ensures err != 0
  {
  }

  lemma PartOfBuffer(a: nat, b: nat)
    requires a % WRITE_BUF_SIZE == 0 && 0 < b < WRITE_BUF_SIZE
    ensures (a + b) % WRITE_BUF_SIZE != 0
  {
  }

  lemma AliveIsValid(r: Receiver)
    requires r.Alive()
    ensures r.Valid()
  {
  }

  lemma DeadOrEnded(r: Receiver)
    requires r.Valid() && r.atEof ==> r.owed == []
    ensures r.Valid() && r.atEof ==> r.Alive()
  {
  }

  lemma NothingMore(r: Receiver)
    requires r.Alive() && r.atEof
    ensures r.Total() == [] && r.Ahead() == [] && r.Closes() && r.Outcome() == 0
  {
  }

  /** Handing out the first part of what is owed leaves the rest of it in front. */
  lemma HandOver(part: seq<byte>, left: seq<byte>, stream: seq<byte>, talk: seq<Act>, trace: seq<Act>)
    ensures part + left + stream == part + (left + stream)
    ensures trace + (Gives(part + left) + talk) == trace + Gives(part) + (Gives(left) + talk)
  {
    SaysAppend(part, left);
  }

  lemma NothingGiven()
    ensures Gives([]) == []
  {
  }

  lemma SumNone()
    ensures SumOf([]) == 0 && Long([]) && LongButLast([])
  {
  }

  lemma SumMore(ws: seq<nat>, w: nat)
    requires Long(ws) && 0 < w <= WRITE_BUF_SIZE
    ensures SumOf(ws + [w]) == SumOf(ws) + w && LongButLast(ws + [w])
    ensures w > WRITE_BUF_SIZE - 0x100 ==> Long(ws + [w])
  {
    assert (ws + [w])[..|ws|] == ws;
  }

  datatype Opened = Ready(crc: bool, header: bool, rest: Line) | NotReady(stat: int, rest: Line)

  /** The opening loop of `xyzModem_stream_open`, as a function of the line. */
  function OpenLine(line: Line, crc: bool, f: Crc, tries: nat, crcRetries: int): Opened
    requires tries >= 1
    decreases tries
  {
    var (h, rest) := Parse(line, crc, f);
    if h.Packet? then Ready(crc, h.blk == 0, rest)
    else if h.Cancel? || tries == 1 then NotReady(Code(h), rest)
    else if h.Timeout? then OpenLine(rest, crc && crcRetries - 1 > 0, f, tries - 1, crcRetries - 1)
    else OpenLine(rest, crc, f, tries - 1, crcRetries)
  }

  // ---- When opening succeeds ----

  /** The line after `j` headers of the opening loop, and how many of them were silences. */
  function OpenState(line: Line, f: Crc, j: nat): (Line, nat)
    decreases j
  {
    if j == 0 then (line, 0)
    else
      var (l, silences) := OpenState(line, f, j - 1);
      var (h, rest) := Parse(l, silences < CRC_RETRIES, f);
      (rest, silences + if h.Timeout? then 1 else 0)
  }

  /** Header `j`, read by CRC until ten silences have passed and by the sum after that. */
  function OpenHeader(line: Line, f: Crc, j: nat): Hdr {
    var (l, silences) := OpenState(line, f, j);
    Parse(l, silences < CRC_RETRIES, f).0
  }

  predicate KeepsTrying(h: Hdr) {
    !h.Packet? && !h.Cancel?
  }

  ghost predicate OpensAt(line: Line, f: Crc, j: nat) {
    && (forall i :: 0 <= i < j ==> KeepsTrying(OpenHeader(line, f, i)))
    && OpenHeader(line, f, j).Packet?
  }

  /** Headers that do not end the loop cost one try each, and a silence one of the ten. */
  lemma {:induction false} OpenSkips(line: Line, f: Crc, j: nat)
    requires j < MAX_RETRIES && forall i :: 0 <= i < j ==> KeepsTrying(OpenHeader(line, f, i))
    ensures var (l, silences) := OpenState(line, f, j);
      OpenLine(line, true, f, MAX_RETRIES, CRC_RETRIES)
      == OpenLine(l, silences < CRC_RETRIES, f, MAX_RETRIES - j, CRC_RETRIES - silences)
    decreases j
  {
    hide Parse, OpenLine, OpenHeader, OpenState;
    OpenStart(line, f);
    if j > 0 {
      OpenSkips(line, f, j - 1);
      assert KeepsTrying(OpenHeader(line, f, j - 1));
      OpenGoesOn(line, f, j - 1);
    }
  }

  lemma OpenGoesOn(line: Line, f: Crc, j: nat)
    requires j + 1 < MAX_RETRIES && KeepsTrying(OpenHeader(line, f, j))
    ensures var (l, s), (l', s') := OpenState(line, f, j), OpenState(line, f, j + 1);
      OpenLine(l, s < CRC_RETRIES, f, MAX_RETRIES - j, CRC_RETRIES - s)
      == OpenLine(l', s' < CRC_RETRIES, f, MAX_RETRIES - (j + 1), CRC_RETRIES - s')
  {
    hide Parse, OpenState, OpenLine;
    var (l, s) := OpenState(line, f, j);
    OpenStateIs(line, f, j);
    OpenLineIs(l, s < CRC_RETRIES, f, MAX_RETRIES - j, CRC_RETRIES - s);
  }

  lemma OpenStart(line: Line, f: Crc)
    ensures OpenState(line, f, 0) == (line, 0)
  {
  }

  lemma OpenStateIs(line: Line, f: Crc, j: nat)
    ensures var (l, s) := OpenState(line, f, j);
      var (h, rest) := Parse(l, s < CRC_RETRIES, f);
      OpenState(line, f, j + 1) == (rest, s + if h.Timeout? then 1 else 0)
  {
    hide Parse;
  }

  lemma OpenLineIs(line: Line, crc: bool, f: Crc, tries: nat, crcRetries: int)
    requires tries >= 1
    ensures var (h, rest) := Parse(line, crc, f);
      var o := OpenLine(line, crc, f, tries, crcRetries);
      && (h.Packet? ==> o == Ready(crc, h.blk == 0, rest))
      && (h.Cancel? || (tries == 1 && !h.Packet?) ==> o.NotReady?)
      && (tries > 1 && KeepsTrying(h) ==>
            o == OpenLine(rest, crc && !(h.Timeout? && crcRetries - 1 <= 0), f, tries - 1,
                          crcRetries - if h.Timeout? then 1 else 0))
  {
    hide Parse;
  }

  /**
   The exact condition: the stream opens if and only if an intact frame is among the first twenty headers,
   no cancel before it; the first such frame opens it, by CRC if and only if fewer than ten of the headers
   before it were silences, and is to be acknowledged if it is the file header, block 0.
   */
  lemma OpensExactly(line: Line, f: Crc)
    ensures OpenLine(line, true, f, MAX_RETRIES, CRC_RETRIES).Ready?
       <==> exists j :: 0 <= j < MAX_RETRIES && OpensAt(line, f, j)
    ensures forall j :: 0 <= j < MAX_RETRIES && OpensAt(line, f, j) ==>
      OpenLine(line, true, f, MAX_RETRIES, CRC_RETRIES)
      == Ready(OpenState(line, f, j).1 < CRC_RETRIES, OpenHeader(line, f, j).blk == 0, OpenState(line, f, j + 1).0)
  {
    hide Parse, OpenLine, OpenState, OpenHeader;
    forall j | 0 <= j < MAX_RETRIES && OpensAt(line, f, j)
      ensures OpenLine(line, true, f, MAX_RETRIES, CRC_RETRIES)
           == Ready(OpenState(line, f, j).1 < CRC_RETRIES, OpenHeader(line, f, j).blk == 0, OpenState(line, f, j + 1).0)
    {
      OpenSkips(line, f, j);
      OpenStep(line, f, j);
    }
    var j := 0;
    while j < MAX_RETRIES && KeepsTrying(OpenHeader(line, f, j))
      invariant j <= MAX_RETRIES && forall i :: 0 <= i < j ==> KeepsTrying(OpenHeader(line, f, i))
    {
      j := j + 1;
    }
    var last := if j < MAX_RETRIES then j else j - 1;
    OpenSkips(line, f, last);
    OpenStep(line, f, last);
    assert j < MAX_RETRIES && OpenHeader(line, f, j).Packet? ==> OpensAt(line, f, j);
  }

  lemma OpenStep(line: Line, f: Crc, j: nat)
    requires j < MAX_RETRIES
    ensures var (l, s) := OpenState(line, f, j);
      var o, h := OpenLine(l, s < CRC_RETRIES, f, MAX_RETRIES - j, CRC_RETRIES - s), OpenHeader(line, f, j);
      && (h.Packet? ==> o == Ready(s < CRC_RETRIES, h.blk == 0, OpenState(line, f, j + 1).0))
      && (h.Cancel? || (j == MAX_RETRIES - 1 && !h.Packet?) ==> o.NotReady?)
  {
    hide Parse, OpenState, OpenLine;
    var (l, s) := OpenState(line, f, j);
    OpenStateIs(line, f, j);
    OpenLineIs(l, s < CRC_RETRIES, f, MAX_RETRIES - j, CRC_RETRIES - s);
  }

  /** What opening writes for a header that does not open the stream: a request only for a silence, an ACK for EOT. */
  lemma OpenAnswers(line: Line, crc: bool, f: Crc, tries: nat, crcRetries: int)
    requires tries >= 1
    ensures var (h, rest) := Parse(line, crc, f);
      var all := OpenSays(line, crc, f, tries, crcRetries);
      var mode := crc && (!h.Timeout? || crcRetries > 1);
      var left := crcRetries - if h.Timeout? then 1 else 0;
      var more := if tries > 1 then OpenSays(rest, mode, f, tries - 1, left) else [];
      && (h.Packet? || h.Cancel? ==> all == [])
      && (h.Timeout? ==> all == [if mode then 0x43 else 0x15] + more)
      && (h.Eof? ==> all == [0x06] + more)
      && (h.BadFrame? || h.BadSum? ==> all == more)
  {
    hide Parse, OpenSays, OpenReply, CrcAfter;
    var h := Parse(line, crc, f).0;
    OpenSaysIs(line, crc, f, tries, crcRetries);
    OpenReplyIs(h, crc, crcRetries);
  }

  lemma OpenReplyIs(h: Hdr, crc: bool, crcRetries: int)
    ensures var mode := CrcAfter(h, crc, crcRetries);
      && mode == (crc && (!h.Timeout? || crcRetries > 1))
      && OpenReply(h, mode) == if h.Timeout? then [if mode then 0x43 else 0x15] else if h.Eof? then [0x06] else []
  {
  }

  /** A sender that never answers is asked nine times for CRC and then for the sum. */
  lemma {:induction false} SilentOpening(f: Crc, tries: nat, left: int)
    requires tries >= 1
    ensures var asks := OpenSays([], left > 0, f, tries, left);
      |asks| == tries && forall i :: 0 <= i < tries ==> asks[i] == if i + 1 < left then 0x43 else 0x15
    decreases tries
  {
    hide Parse, OpenSays;
    OpenAnswers([], left > 0, f, tries, left);
    SilentHeader(left > 0, f);
    if tries > 1 {
      SilentOpening(f, tries - 1, left - 1);
    }
  }

  lemma SilentHeader(crc: bool, f: Crc)
    ensures Parse([], crc, f) == (Timeout, [])
  {
  }

  /** The check mode after a try of opening: after enough silences, the sum. */
  function CrcAfter(h: Hdr, crc: bool, crcRetries: int): bool {
    crc && !(h.Timeout? && crcRetries - 1 <= 0)
  }

  /** What a try of opening writes, when it leaves mode `crc`. */
  function OpenReply(h: Hdr, crc: bool): seq<byte> {
    HdrSays(h, false) + if h.Timeout? then [Request(crc)] else []
  }

  /** What the opening loop writes. */
  function OpenSays(line: Line, crc: bool, f: Crc, tries: nat, crcRetries: int): seq<byte>
    requires tries >= 1
    decreases tries
  {
    var (h, rest) := Parse(line, crc, f);
    var crc' := CrcAfter(h, crc, crcRetries);
    OpenReply(h, crc') +
    if h.Packet? || h.Cancel? || tries == 1 then []
    else OpenSays(rest, crc', f, tries - 1, crcRetries - if h.Timeout? then 1 else 0)
  }

  lemma OpenSaysIs(line: Line, crc: bool, f: Crc, tries: nat, crcRetries: int)
    requires tries >= 1
    ensures var (h, rest) := Parse(line, crc, f);
      OpenSays(line, crc, f, tries, crcRetries) == OpenReply(h, CrcAfter(h, crc, crcRetries)) +
        if h.Packet? || h.Cancel? || tries == 1 then []
        else OpenSays(rest, CrcAfter(h, crc, crcRetries), f, tries - 1, crcRetries - if h.Timeout? then 1 else 0)
  {
  }

  lemma CodeIs(h: Hdr)
    ensures Code(h) == 0 <==> h.Packet?
    ensures Code(h) == Code(Cancel) <==> h.Cancel?
  {
  }

  lemma {:induction false} TakeMore(line: Line, a: nat, b: nat)
    ensures TakeBytes(line, a + b) ==
      match TakeBytes(line, a)
      case Short(rest) => Short(rest)
      case Got(x, rest) =>
        match TakeBytes(rest, b)
        case Short(rest') => Short(rest')
        case Got(y, rest') => Got(x + y, rest')
    decreases a
  {
    if a == 0 {
      match TakeBytes(line, b)
      case Short(_) =>
      case Got(y, _) => assert [] + y == y;
    } else if line != [] && line[0] != Quiet {
      TakeMore(line[1..], a - 1, b);
      match TakeBytes(line[1..], a - 1)
      case Short(_) =>
      case Got(x, rest) =>
        match TakeBytes(rest, b)
        case Short(_) =>
        case Got(y, _) => assert [line[0].b] + (x + y) == [line[0].b] + x + y;
    }
  }

  /** Bytes taken off the front of a stream, and what is left of it. */
  lemma Front(a: seq<byte>, b: seq<byte>, size: nat)
    requires |a| <= size
    ensures (a + b)[|a|..] == b
    ensures b == [] || |a| == size ==> a == (a + b)[..if size < |a + b| then size else |a + b|]
  {
  }

  lemma TakeNone(line: Line)
    ensures TakeBytes(line, 0) == Got([], line)
  {
  }

  lemma TakeFails(line: Line, n: nat)
    requires n > 0
    ensures line == [] || line[0] == Quiet ==> TakeBytes(line, n) == Short(Rest(line))
  {
  }

  /** `Body`, read in the three pieces the code reads it in. */
  function InPieces(line: Line, long: bool, crc: bool, f: Crc): (Hdr, Line) {
    match TakeBytes(line, 2)
    case Short(rest) => (Timeout, rest)
    case Got(numbers, line1) =>
      match TakeBytes(line1, Length(long))
      case Short(rest) => (Timeout, rest)
      case Got(data, line2) =>
        match TakeBytes(line2, if crc then 2 else 1)
        case Short(rest) => (Timeout, rest)
        case Got(check, line3) =>
          if numbers[0] as int + numbers[1] as int != 255 then (BadFrame, Flush(line3))
          else if check != CheckBytes(data, crc, f) then (BadSum, line3)
          else (Packet(numbers[0], data), line3)
  }

  lemma BodyIs(line: Line, long: bool, crc: bool, f: Crc)
    ensures Body(line, long, crc, f) == InPieces(line, long, crc, f)
  {
    hide TakeBytes, Flush, CheckBytes;
    var n, k := Length(long), if crc then 2 else 1;
    TakeMore(line, 2, n);
    TakeMore(line, 2 + n, k);
    match TakeBytes(line, 2)
    case Short(_) =>
    case Got(numbers, line1) =>
      match TakeBytes(line1, n)
      case Short(_) =>
      case Got(data, line2) =>
        match TakeBytes(line2, k)
        case Short(_) =>
        case Got(check, _) =>
          var all := numbers + data + check;
          assert all[2..2 + n] == data && all[2 + n..] == check && all[0] == numbers[0] && all[1] == numbers[1];
  }

  lemma TakeOneMore(line: Line)
    ensures TakeBytes(line, 1) ==
      if line == [] then Short([]) else if line[0] == Quiet then Short(line[1..]) else Got([line[0].b], line[1..])
  {
    if line != [] && line[0] != Quiet {
      assert TakeBytes(line[1..], 0) == Got([], line[1..]);
    }
  }
}
