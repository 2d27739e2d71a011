/**
 One protocol frame: what `xyzModem_get_hdr` makes of the line, and the sender's encoding it inverts.
 The CRC routine is not part of this repository, so it is a parameter.
 */
module ModemFrame {
  import opened Bytes
  import opened ModemLine

  const SOH: byte := 0x01
  const STX: byte := 0x02
  const EOT: byte := 0x04
  const ACK: byte := 0x06
  const NAK: byte := 0x15
  const CAN: byte := 0x18
  const CPMEOF: byte := 0x1A
  const CAN_COUNT := 3

  /** The CRC of a packet, as a 16-bit number. */
  type Crc = seq<byte> -> nat

  /** The outcome of one call. */
  datatype Hdr = Packet(blk: byte, data: seq<byte>) | Timeout | BadFrame | BadSum | Eof | Cancel

  /** The status codes of xyzModem.h. */
  function Code(h: Hdr): int {
    match h
    case Packet(_, _) => 0
    case Timeout => -3
    case Eof => -4
    case Cancel => -5
    case BadFrame => -6
    case BadSum => -7
  }

  function Rest(line: Line): Line {
    if line == [] then [] else line[1..]
  }

  /** `xyzModem_flush`: everything up to and including the next silence is lost. */
  function Flush(line: Line): (r: Line)
    ensures |r| <= |line|
  {
    if line == [] then [] else if line[0] == Quiet then line[1..] else Flush(line[1..])
  }

  datatype Start = Found(long: bool) | Ended | Cancelled | Silent

  /** The search for a header: `cans` CAN characters and possibly other noise have been seen. */
  function FindStart(line: Line, cans: nat, first: bool): (r: (Start, Line))
    ensures |r.1| <= |line| && (line != [] ==> |r.1| < |line|) && (r.0.Found? ==> line != [])
  {
    if line == [] || line[0] == Quiet then (Silent, Flush(Rest(line)))
    else if line[0].b == SOH then (Found(false), line[1..])
    else if line[0].b == STX then (Found(true), line[1..])
    else if line[0].b == CAN then
      if cans + 1 == CAN_COUNT then (Cancelled, line[1..]) else FindStart(line[1..], cans + 1, false)
    else if line[0].b == EOT && first then (Ended, line[1..])
    else FindStart(line[1..], cans, false)
  }

  /** Read `n` bytes; a silence in between is consumed and ends the attempt. */
  datatype Taken = Got(bytes: seq<byte>, rest: Line) | Short(rest: Line)

  function TakeBytes(line: Line, n: nat): (r: Taken)
    ensures |r.rest| <= |line| && (r.Got? ==> |r.bytes| == n)
    decreases n
  {
    if n == 0 then Got([], line)
    else if line == [] || line[0] == Quiet then Short(Rest(line))
    else
      match TakeBytes(line[1..], n - 1)
      case Got(bytes, rest) => Got([line[0].b] + bytes, rest)
      case Short(rest) => Short(rest)
  }

  function Length(long: bool): nat {
    if long then 1024 else 128
  }

  /** The check bytes behind a packet: two of the CRC, or one of the 16-bit sum. */
  function CheckBytes(data: seq<byte>, crc: bool, f: Crc): (r: seq<byte>)
    ensures |r| == if crc then 2 else 1
  {
    var v := (if crc then f(data) else Sum(data)) % 0x1_0000;
    if crc then [v / 256, v % 256] else [v % 256]
  }

  /** What follows a start character: numbers, data and check bytes, and the tests on them. */
  function Body(line: Line, long: bool, crc: bool, f: Crc): (r: (Hdr, Line))
    ensures |r.1| <= |line|
    ensures r.0.Packet? ==> |r.0.data| == Length(long)
  {
    var n := Length(long);
    match TakeBytes(line, 2 + n + if crc then 2 else 1)
    case Short(rest) => (Timeout, rest)
    case Got(bytes, rest) =>
      var data := bytes[2..2 + n];
      if bytes[0] as int + bytes[1] as int != 255 then (BadFrame, Flush(rest))
      else if bytes[2 + n..] != CheckBytes(data, crc, f) then (BadSum, rest)
      else (Packet(bytes[0], data), rest)
  }

  /** `xyzModem_get_hdr` as a function of the line: the outcome, and the line that is left. */
  function Parse(line: Line, crc: bool, f: Crc): (r: (Hdr, Line))
    ensures |r.1| <= |line| && (line != [] ==> |r.1| < |line|)
    ensures r.0.Packet? ==> line != [] && (|r.0.data| == 128 || |r.0.data| == 1024)
  {
    match FindStart(line, 0, true)
    case (Silent, rest) => (Timeout, rest)
    case (Ended, rest) => (Eof, rest)
    case (Cancelled, rest) => (Cancel, rest)
    case (Found(long), rest) => Body(rest, long, crc, f)
  }

  /** What a sender transmits for a block. */
  function Encode(blk: byte, data: seq<byte>, crc: bool, f: Crc): seq<byte> {
    [if |data| == 1024 then STX else SOH, blk, 255 - blk] + data + CheckBytes(data, crc, f)
  }

  lemma {:induction false} TakeTokens(bytes: seq<byte>, rest: Line)
    ensures TakeBytes(Tokens(bytes) + rest, |bytes|) == Got(bytes, rest)
  {
    if bytes == [] {
      assert Tokens(bytes) + rest == rest;
    } else {
      TokensHead(bytes, rest);
      TakeTokens(bytes[1..], rest);
      assert [bytes[0]] + bytes[1..] == bytes;
    }
  }

  /** Round trip: a frame a sender encodes parses back to its number and data, whatever follows it. */
  lemma ParseEncode(blk: byte, data: seq<byte>, crc: bool, f: Crc, rest: Line)
    requires |data| == 128 || |data| == 1024
    ensures Parse(Tokens(Encode(blk, data, crc, f)) + rest, crc, f) == (Packet(blk, data), rest)
  {
    hide CheckBytes, Tokens;
    var e := Encode(blk, data, crc, f);
    TokensHead(e, rest);
    var line := Tokens(e) + rest;
    var body := e[1..];
    assert line[0] == Byte(e[0]) && line[1..] == Tokens(body) + rest;
    assert FindStart(line, 0, true) == (Found(|data| == 1024), line[1..]);
    TakeTokens(body, rest);
    assert body == [blk, 255 - blk] + data + CheckBytes(data, crc, f);
    assert body[2..2 + |data|] == data && body[2 + |data|..] == CheckBytes(data, crc, f);
  }

  // ---- Only intact frames are accepted ----

  lemma {:induction false} TakeIsFront(line: Line, n: nat)
    ensures var r := TakeBytes(line, n); r.Got? ==> line == Tokens(r.bytes) + r.rest
    decreases n
  {
    if n > 0 && line != [] && line[0] != Quiet {
      TakeIsFront(line[1..], n - 1);
      var r := TakeBytes(line, n);
      if r.Got? {
        TokensHead(r.bytes, r.rest);
        assert r.bytes[1..] == TakeBytes(line[1..], n - 1).bytes;
        assert line == [line[0]] + line[1..];
      }
    } else if n == 0 {
      assert Tokens([]) + line == line;
    }
  }

  /**
   The bytes of an intact frame behind its start character: the number and its complement, the data, and
   behind it the CRC, high byte first, or the low byte of the sum.
   */
  predicate Intact(bytes: seq<byte>, blk: byte, data: seq<byte>, crc: bool, f: Crc) {
    var n := |data|;
    && |bytes| == 2 + n + (if crc then 2 else 1)
    && bytes[0] == blk && bytes[1] as int == 255 - blk as int && bytes[2..2 + n] == data
    && if crc then bytes[2 + n] as int * 256 + bytes[3 + n] as int == f(data) % 0x1_0000
       else bytes[2 + n] as int == Sum(data) % 256
  }

  lemma LowByte(x: nat)
    ensures x % 0x1_0000 % 256 == x % 256
  {
    var q, v := x / 0x1_0000, x % 0x1_0000;
    assert x == v + 256 * (256 * q);
    ModPlus(v, 256 * q);
  }

  lemma ModPlus(v: nat, k: nat)
    ensures (v + 256 * k) % 256 == v % 256
  {
  }

  /** A body is accepted exactly when it is there in full and intact. */
  lemma BodyIntact(line: Line, long: bool, crc: bool, f: Crc)
    ensures var n := Length(long);
      var r := TakeBytes(line, 2 + n + if crc then 2 else 1);
      var (h, rest) := Body(line, long, crc, f);
      && (h.Packet? ==> r.Got? && rest == r.rest && |h.data| == n && Intact(r.bytes, h.blk, h.data, crc, f))
      && (r.Got? && (exists blk, data :: |data| == n && Intact(r.bytes, blk, data, crc, f)) ==> h.Packet?)
  {
    hide TakeBytes, Flush, Sum;
    var n := Length(long);
    var r := TakeBytes(line, 2 + n + if crc then 2 else 1);
    if r.Got? {
      LowByte(Sum(r.bytes[2..2 + n]));
      CheckSplit(r.bytes[2 + n..], r.bytes[2..2 + n], crc, f);
    }
  }

  /**
   What becomes of any other body: cut short by a silence, it times out behind that; with numbers that do not
   match, all is lost up to the next silence; with the wrong check bytes, nothing more is lost.
   */
  lemma BodyFails(line: Line, long: bool, crc: bool, f: Crc)
    ensures var n := Length(long);
      var r := TakeBytes(line, 2 + n + if crc then 2 else 1);
      && (r.Short? ==> Body(line, long, crc, f) == (Timeout, r.rest))
      && (r.Got? && r.bytes[0] as int + r.bytes[1] as int != 255 ==>
            Body(line, long, crc, f) == (BadFrame, Flush(r.rest)))
      && (r.Got? && r.bytes[0] as int + r.bytes[1] as int == 255
          && !Intact(r.bytes, r.bytes[0], r.bytes[2..2 + n], crc, f) ==>
            Body(line, long, crc, f) == (BadSum, r.rest))
  {
    hide TakeBytes, Flush, Sum;
    var n := Length(long);
    var r := TakeBytes(line, 2 + n + if crc then 2 else 1);
    if r.Got? {
      LowByte(Sum(r.bytes[2..2 + n]));
      CheckSplit(r.bytes[2 + n..], r.bytes[2..2 + n], crc, f);
    }
  }

  /** The line is `bytes`, then a silence and `rest`, or nothing more. */
  ghost predicate CutOff(line: Line, bytes: seq<byte>, rest: Line) {
    (line == Tokens(bytes) && rest == []) || line == Tokens(bytes) + ([Quiet] + rest)
  }

  lemma CutOffMore(line: Line, more: seq<byte>, rest: Line)
    requires line != [] && line[0].Byte? && CutOff(line[1..], more, rest)
    ensures CutOff(line, [line[0].b] + more, rest)
  {
    assert Tokens([line[0].b] + more) == [line[0]] + Tokens(more);
    assert line == [line[0]] + line[1..];
  }

  lemma CutOffHere(line: Line)
    requires line == [] || line[0] == Quiet
    ensures CutOff(line, [], Rest(line))
  {
    if line != [] {
      assert line == Tokens([]) + ([Quiet] + line[1..]);
    }
  }

  /** A read that falls short takes what came before the silence, and the silence. */
  lemma {:induction false} TakeFallsShort(line: Line, n: nat) returns (bytes: seq<byte>)
    requires TakeBytes(line, n).Short?
    ensures |bytes| < n && CutOff(line, bytes, TakeBytes(line, n).rest)
    decreases n
  {
    hide CutOff;
    if line == [] || line[0] == Quiet {
      bytes := [];
      CutOffHere(line);
    } else {
      var more := TakeFallsShort(line[1..], n - 1);
      bytes := [line[0].b] + more;
      CutOffMore(line, more, TakeBytes(line, n).rest);
    }
  }

  lemma CheckSplit(check: seq<byte>, data: seq<byte>, crc: bool, f: Crc)
    requires |check| == if crc then 2 else 1
    ensures check == CheckBytes(data, crc, f) <==>
      if crc then check[0] as int * 256 + check[1] as int == f(data) % 0x1_0000
      else check[0] as int == Sum(data) % 0x1_0000 % 256
  {
    hide Sum;
    if crc {
      HighLow(f(data) % 0x1_0000, check[0], check[1]);
    }
  }

  lemma HighLow(v: nat, a: byte, b: byte)
    requires v < 0x1_0000
    ensures v / 256 == a as int && v % 256 == b as int <==> v == a as int * 256 + b as int
  {
  }

  // ---- What stands before a frame ----

  /** How many of the characters are CAN. */
  function Cans(bytes: seq<byte>): nat {
    if bytes == [] then 0 else (if bytes[0] == 0x18 then 1 else 0) + Cans(bytes[1..])
  }

  /** Characters the search passes over when it has seen `cans` CAN and, unless `first`, something before. */
  predicate Skipped(bytes: seq<byte>, cans: nat, first: bool) {
    && (forall i :: 0 <= i < |bytes| ==> bytes[i] != 0x01 && bytes[i] != 0x02)
    && cans + Cans(bytes) < 3 && (first && bytes != [] ==> bytes[0] != 0x04)
  }

  /** The line is the characters passed over, then what ended the search, then the rest. */
  ghost predicate StopsAt(line: Line, noise: seq<byte>, s: Start, rest: Line) {
    match s
    case Found(long) => line == Tokens(noise) + ([Byte(if long then 0x02 else 0x01)] + rest)
    case Cancelled => line == Tokens(noise) + ([Byte(0x18)] + rest)
    case Ended => line == Tokens(noise) + ([Byte(0x04)] + rest)
    case Silent =>
      || (line == Tokens(noise) && rest == [])
      || exists l :: line == Tokens(noise) + ([Quiet] + l) && rest == Flush(l)
  }

  lemma StopsMore(line: Line, noise: seq<byte>, s: Start, rest: Line)
    requires line != [] && line[0].Byte? && StopsAt(line[1..], noise, s, rest)
    ensures StopsAt(line, [line[0].b] + noise, s, rest)
  {
    hide Flush;
    var c := line[0].b;
    assert line == [Byte(c)] + line[1..];
    assert Tokens([c] + noise) == [Byte(c)] + Tokens(noise);
    if s.Silent? && !(line[1..] == Tokens(noise) && rest == []) {
      var l :| line[1..] == Tokens(noise) + ([Quiet] + l) && rest == Flush(l);
      assert line == Tokens([c] + noise) + ([Quiet] + l);
    }
  }

  lemma StopsHere(line: Line, s: Start, rest: Line)
    requires line != [] && rest == line[1..]
    requires line[0] == match s case Found(long) => Byte(if long then 0x02 else 0x01) case Cancelled => Byte(0x18)
                                case Ended => Byte(0x04) case Silent => Quiet
    ensures !s.Silent? ==> StopsAt(line, [], s, rest)
    ensures s.Silent? ==> StopsAt(line, [], s, Flush(rest))
  {
    hide Flush;
    assert line == Tokens([]) + ([line[0]] + rest);
  }

  lemma SkippedMore(c: byte, more: seq<byte>, cans: nat, first: bool)
    requires Skipped(more, if c == CAN then cans + 1 else cans, false)
    requires c != SOH && c != STX && !(c == EOT && first)
    ensures Skipped([c] + more, cans, first) && Cans([c] + more) == Cans(more) + if c == CAN then 1 else 0
  {
    assert ([c] + more)[1..] == more;
  }

  /**
   The search for a header: it ends at the first of a start character, a third CAN, an EOT that comes before
   anything else, and a silence; and it passes over anything else.
   */
  lemma {:induction false} StartMeans(line: Line, cans: nat, first: bool) returns (noise: seq<byte>)
    requires cans < 3
    ensures var (s, rest) := FindStart(line, cans, first);
      && StopsAt(line, noise, s, rest) && Skipped(noise, cans, first)
      && (s.Cancelled? ==> cans + Cans(noise) == 2) && (s.Ended? ==> first && noise == [])
    decreases |line|
  {
    hide Flush, StopsAt, Skipped;
    noise := [];
    SkippedNothing(cans, first);
    if line == [] {
      FlushNothing();
      SilentEnd();
    } else {
      var (s, rest) := FindStart(line, cans, first);
      var c := if line[0].Byte? then line[0].b else 0;
      if line[0] == Quiet || c == SOH || c == STX || (c == CAN && cans + 1 == CAN_COUNT) || (c == EOT && first) {
        StopsHere(line, s, line[1..]);
      } else {
        var more := StartMeans(line[1..], if c == CAN then cans + 1 else cans, false);
        noise := [c] + more;
        StopsMore(line, more, s, rest);
        SkippedMore(c, more, cans, first);
      }
    }
  }

  lemma SkippedNothing(cans: nat, first: bool)
    requires cans < 3
    ensures Skipped([], cans, first) && Cans([]) == 0
  {
  }

  lemma SilentEnd()
    ensures StopsAt([], [], Silent, [])
  {
  }

  lemma FlushNothing()
    ensures Flush([]) == [] && Rest([]) == []
  {
  }

  /** Everything up to and including the next silence is lost. */
  lemma {:induction false} FlushMeans(line: Line, bytes: seq<byte>, rest: Line)
    ensures Flush(Tokens(bytes)) == [] && Flush(Tokens(bytes) + ([Quiet] + rest)) == rest
  {
    if bytes == [] {
      assert Tokens(bytes) + ([Quiet] + rest) == [Quiet] + rest;
    } else {
      TokensHead(bytes, [Quiet] + rest);
      TokensHead(bytes, []);
      assert Tokens(bytes) + [] == Tokens(bytes) && Tokens(bytes[1..]) + [] == Tokens(bytes[1..]);
      FlushMeans(line, bytes[1..], rest);
    }
  }

  /**
   The converse of `ParseEncode`: a frame is accepted only if, behind characters the search passes over, the
   line holds its start character and its bytes in full and intact, and then the rest.
   */
  lemma ParseIntact(line: Line, crc: bool, f: Crc) returns (noise: seq<byte>, bytes: seq<byte>)
    requires Parse(line, crc, f).0.Packet?
    ensures var (h, rest) := Parse(line, crc, f);
      && Skipped(noise, 0, true) && Intact(bytes, h.blk, h.data, crc, f)
      && line == Tokens(noise) + ([Byte(if |h.data| == 1024 then 0x02 else 0x01)] + (Tokens(bytes) + rest))
      && (|h.data| == 128 || |h.data| == 1024)
  {
    hide FindStart, Body, TakeBytes, Skipped, Intact, Flush;
    noise := StartMeans(line, 0, true);
    var (s, behind) := FindStart(line, 0, true);
    var n := Length(s.long);
    BodyIntact(behind, s.long, crc, f);
    TakeIsFront(behind, 2 + n + if crc then 2 else 1);
    bytes := TakeBytes(behind, 2 + n + if crc then 2 else 1).bytes;
  }

  /** The three-^Z rule: a block that ends in three pad characters loses all its trailing ones. */
  function Strip(data: seq<byte>): seq<byte> {
    var n := |data|;
    if n >= 3 && data[n - 1] == data[n - 2] == data[n - 3] == CPMEOF then Trim(data) else data
  }

  function Trim(data: seq<byte>): (r: seq<byte>)
    ensures r <= data
  {
    if data != [] && data[|data| - 1] == CPMEOF then Trim(data[..|data| - 1]) else data
  }

  /**
   What stripping means: anything is removed if and only if the last three characters are pad; only pad is
   removed, and then no pad is left at the end.
   */
  lemma {:induction false} StripMeans(data: seq<byte>)
    ensures Strip(data) <= data
    ensures |Strip(data)| < |data| <==>
      |data| >= 3 && data[|data| - 1] == 0x1A && data[|data| - 2] == 0x1A && data[|data| - 3] == 0x1A
    ensures forall i :: |Strip(data)| <= i < |data| ==> data[i] == 0x1A
    ensures |Strip(data)| < |data| && Strip(data) != [] ==> Strip(data)[|Strip(data)| - 1] != 0x1A
  {
    TrimMeans(data);
  }

  lemma {:induction false} TrimMeans(data: seq<byte>)
    ensures forall i :: |Trim(data)| <= i < |data| ==> data[i] == CPMEOF
    ensures Trim(data) != [] ==> Trim(data)[|Trim(data)| - 1] != CPMEOF
    decreases |data|
  {
    if data != [] && data[|data| - 1] == CPMEOF {
      var shorter := data[..|data| - 1];
      TrimMeans(shorter);
      assert forall i :: 0 <= i < |shorter| ==> data[i] == shorter[i];
    }
  }
}
