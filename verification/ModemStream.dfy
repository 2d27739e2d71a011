/**
 The receiver as a function of the line: which block `xyzModem_stream_read` fetches next, and the whole
 byte stream it delivers. Only an 8-bit block number travels; the theorems say when that is enough.
 */
module ModemStream {
  import opened Bytes
  import opened ModemLine
  import opened ModemFrame

  const MAX_RETRIES: nat := 20
  const SEQUENCE := -8

  datatype Mode = Mode(crc: bool, f: Crc, ymodem: bool)

  function Succ(blk: byte): byte {
    (blk as int + 1) % 256
  }

  function Prev(blk: byte): byte {
    (blk as int + 255) % 256
  }

  /**
   The outcome of the retry loop for one block: the next block, with its pad stripped; a duplicate of
   the one before it, if that is what the last try got; the end of the file, with the status of what
   followed; or a failure.
   */
  datatype Fetched =
    | Block(data: seq<byte>, rest: Line)
    | Stale(data: seq<byte>, rest: Line)
    | End(stat: int, rest: Line)
    | Failed(stat: int, rest: Line)

  function Fetch(line: Line, next: byte, m: Mode, tries: nat): (r: Fetched)
    requires tries >= 1
    ensures |r.rest| <= |line| && (r.Block? || r.Stale? ==> |r.rest| < |line|)
    ensures (r.Failed? ==> r.stat < 0) && (r.End? ==> r.stat <= 0)
    decreases tries
  {
    var (h, rest) := Parse(line, m.crc, m.f);
    match h
    case Packet(blk, data) =>
      if blk == next then Block(Strip(data), rest)
      else if tries > 1 then Fetch(rest, next, m, tries - 1)
      else if blk == Prev(next) then Stale(data, rest)
      else Failed(SEQUENCE, rest)
    case Cancel => Failed(Code(h), rest)
    case Eof =>
      if m.ymodem then var (last, rest') := Parse(rest, m.crc, m.f); End(Code(last), rest') else End(Code(h), rest)
    case _ => if tries > 1 then Fetch(rest, next, m, tries - 1) else Failed(Code(h), rest)
  }

  /** Every byte the receiver will deliver from here on. */
  function Stream(line: Line, next: byte, m: Mode): seq<byte>
    decreases |line|
  {
    match Fetch(line, next, m, MAX_RETRIES)
    case Block(data, rest) => data + Stream(rest, Succ(next), m)
    case Stale(data, rest) => data + Stream(rest, next, m)
    case _ => []
  }

  /** The status the stream ends with: 0 for a clean end of file. */
  function Ending(line: Line, next: byte, m: Mode): int
    decreases |line|
  {
    match Fetch(line, next, m, MAX_RETRIES)
    case Block(_, rest) => Ending(rest, Succ(next), m)
    case Stale(_, rest) => Ending(rest, next, m)
    case End(stat, _) => stat
    case Failed(stat, _) => stat
  }

  /** Does the stream end with the sender's end of file, rather than because a fetch failed? */
  function Closing(line: Line, next: byte, m: Mode): bool
    decreases |line|
  {
    match Fetch(line, next, m, MAX_RETRIES)
    case Block(_, rest) => Closing(rest, Succ(next), m)
    case Stale(_, rest) => Closing(rest, next, m)
    case End(_, _) => true
    case Failed(_, _) => false
  }

  // ---- Order and exactly-once ----

  /**
   The line comes from a sender whose i-th intact packet is the true block ks[i]: its number is that
   index modulo 256, its data that block's, and the index is less than 255 away from the block the
   receiver expects then. Anything may come in between: noise, silences, damaged frames.
   */
  ghost predicate Honest(line: Line, e: nat, ks: seq<nat>, m: Mode, b: nat -> seq<byte>)
    decreases |line|
  {
    if line == [] then true
    else
      var (h, rest) := Parse(line, m.crc, m.f);
      match h
      case Packet(blk, data) =>
        && ks != [] && -255 < ks[0] - e < 255 && blk as int == ks[0] % 256 && data == b(ks[0])
        && Honest(rest, if ks[0] == e then e + 1 else e, ks[1..], m, b)
      case Eof => true
      case Cancel => true
      case _ => Honest(rest, e, ks, m, b)
  }

  /** An 8-bit number is enough: within that distance it tells the expected block and the one before it. */
  lemma NumberIsEnough(k: nat, e: nat)
    requires -255 < k - e < 255
    ensures k % 256 == e % 256 <==> k == e
    ensures k % 256 == Prev(e % 256) as int <==> k == e - 1
  {
  }

  /** What one fetch does for an honest line that expects block `e`. */
  lemma {:induction false} FetchHonest(line: Line, e: nat, ks: seq<nat>, m: Mode, b: nat -> seq<byte>, tries: nat)
    returns (ks': seq<nat>)
    requires tries >= 1 && Honest(line, e, ks, m, b)
    ensures var r := Fetch(line, e % 256, m, tries);
      && (r.Block? ==> r.data == Strip(b(e)) && Honest(r.rest, e + 1, ks', m, b))
      && (r.Stale? ==> e >= 1 && r.data == b(e - 1) && Honest(r.rest, e, ks', m, b))
    decreases tries
  {
    var (h, rest) := Parse(line, m.crc, m.f);
    ks' := ks;
    match h
    case Packet(blk, data) =>
      NumberIsEnough(ks[0], e);
      ks' := ks[1..];
      if blk as int != e % 256 && tries > 1 {
        ks' := FetchHonest(rest, e, ks[1..], m, b, tries - 1);
      }
    case Cancel =>
    case Eof =>
    case _ =>
      if tries > 1 {
        ks' := FetchHonest(rest, e, ks, m, b, tries - 1);
      }
  }

  /** No fetch ends on a duplicate. */
  ghost predicate NoStale(line: Line, next: byte, m: Mode)
    decreases |line|
  {
    match Fetch(line, next, m, MAX_RETRIES)
    case Block(_, rest) => NoStale(rest, Succ(next), m)
    case Stale(_, _) => false
    case _ => true
  }

  /** The true indices of the blocks delivered, in order of delivery, when block `e` is expected. */
  ghost function Log(line: Line, e: nat, m: Mode): seq<int>
    decreases |line|
  {
    match Fetch(line, e % 256, m, MAX_RETRIES)
    case Block(_, rest) => [e] + Log(rest, e + 1, m)
    case Stale(_, rest) => [e - 1] + Log(rest, e, m)
    case _ => []
  }

  /** Blocks e, e + 1, ..., e + n - 1 with their pad stripped. */
  ghost function Blocks(b: nat -> seq<byte>, e: nat, n: nat): seq<byte>
    decreases n
  {
    if n == 0 then [] else Strip(b(e)) + Blocks(b, e + 1, n - 1)
  }

  lemma SuccIs(e: nat)
    ensures Succ(e % 256) as int == (e + 1) % 256
  {
  }

  /**
   Safety, whatever happens to the line: from an honest line the receiver that expects block `e` delivers
   blocks e, e + 1, e + 2 and so on, as far as it gets, each once and in order, with the pad of each
   stripped, provided no fetch ends on a duplicate. `InOrder` says how far it gets.
   */
  lemma {:induction false} InOrderSoFar(line: Line, e: nat, ks: seq<nat>, m: Mode, b: nat -> seq<byte>)
    requires Honest(line, e, ks, m, b) && NoStale(line, e % 256, m)
    ensures Stream(line, e % 256, m) == Blocks(b, e, |Log(line, e, m)|)
    decreases |line|
  {
    hide Honest, Fetch;
    var ks' := FetchHonest(line, e, ks, m, b, MAX_RETRIES);
    match Fetch(line, e % 256, m, MAX_RETRIES)
    case Block(data, rest) =>
      SuccIs(e);
      InOrderSoFar(rest, e + 1, ks', m, b);
    case _ =>
  }

  /** The numbers e, e + 1, e + 2 and so on. */
  ghost predicate Runs(log: seq<int>, e: int) {
    forall i :: 0 <= i < |log| ==> log[i] == e + i
  }

  lemma Consecutive(log: seq<int>, tail: seq<int>, e: nat)
    requires log == [e] + tail
    ensures Runs(log, e) <==> Runs(tail, e + 1)
  {
    if Runs(log, e) {
      forall i | 0 <= i < |tail|
        ensures tail[i] == e + 1 + i
      {
        assert log[i + 1] == tail[i];
      }
    }
  }

  /** The bytes of the blocks in `log`, of which `e` is the first expected: a repeat comes whole, pad and all. */
  ghost function Logged(b: nat -> seq<byte>, log: seq<int>, e: nat): seq<byte>
    requires forall i :: 0 <= i < |log| ==> log[i] >= 0
    decreases |log|
  {
    if log == [] then []
    else if log[0] == e then Strip(b(e)) + Logged(b, log[1..], e + 1)
    else b(log[0]) + Logged(b, log[1..], e)
  }

  /**
   And the proviso is exact: from an honest line the bytes delivered are those of the blocks in the log,
   and the log runs e, e + 1, e + 2 and so on if and only if no fetch ends on a duplicate.
   */
  lemma {:induction false} OnceExactly(line: Line, e: nat, ks: seq<nat>, m: Mode, b: nat -> seq<byte>)
    requires Honest(line, e, ks, m, b)
    ensures forall i :: 0 <= i < |Log(line, e, m)| ==> Log(line, e, m)[i] >= 0
    ensures Stream(line, e % 256, m) == Logged(b, Log(line, e, m), e)
    ensures NoStale(line, e % 256, m) <==> Runs(Log(line, e, m), e)
    decreases |line|
  {
    hide Honest, Fetch;
    var ks' := FetchHonest(line, e, ks, m, b, MAX_RETRIES);
    match Fetch(line, e % 256, m, MAX_RETRIES)
    case Block(data, rest) =>
      SuccIs(e);
      OnceExactly(rest, e + 1, ks', m, b);
      Consecutive(Log(line, e, m), Log(rest, e + 1, m), e);
      assert Log(line, e, m)[1..] == Log(rest, e + 1, m);
    case Stale(data, rest) =>
      OnceExactly(rest, e, ks', m, b);
      assert Log(line, e, m)[0] == e - 1 && Log(line, e, m)[1..] == Log(rest, e, m);
    case _ =>
  }

  // ---- When a fetch ends on a duplicate ----

  /** The line after `j` headers, and the header found there. */
  function After(line: Line, j: nat, m: Mode): Line
    decreases j
  {
    if j == 0 then line else After(Parse(line, m.crc, m.f).1, j - 1, m)
  }

  function HeaderAt(line: Line, j: nat, m: Mode): Hdr {
    Parse(After(line, j, m), m.crc, m.f).0
  }

  /** A header after which the retry loop goes on, if it has a try left. */
  predicate GoesOn(h: Hdr, next: byte) {
    !h.Eof? && !h.Cancel? && !(h.Packet? && h.blk == next)
  }

  /**
   The exact condition: a fetch ends on a duplicate if and only if none of its headers ends it early
   and the last one it may try carries the number of the block before.
   */
  lemma StaleExactly(line: Line, next: byte, m: Mode, tries: nat)
    requires tries >= 1
    ensures Fetch(line, next, m, tries).Stale? <==>
      && (forall j :: 0 <= j < tries ==> GoesOn(HeaderAt(line, j, m), next))
      && HeaderAt(line, tries - 1, m).Packet? && HeaderAt(line, tries - 1, m).blk == Prev(next)
  {
    hide Parse, Strip, Fetch, After;
    var j := SettlesOrNot(line, next, m, tries);
    if j < tries {
      FetchSettles(line, next, m, tries, j);
      assert !GoesOn(HeaderAt(line, j, m), next);
    } else {
      FetchSkips(line, next, m, tries, tries - 1);
      FetchIs(After(line, tries - 1, m), next, m, 1);
      assert GoesOn(HeaderAt(line, tries - 1, m), next);
    }
  }

  // ---- The retry budget ----

  /** One try of a fetch. */
  lemma FetchIs(line: Line, next: byte, m: Mode, tries: nat)
    requires tries >= 1
    ensures var (h, rest) := Parse(line, m.crc, m.f);
      Fetch(line, next, m, tries) ==
      if GoesOn(h, next) && tries > 1 then Fetch(rest, next, m, tries - 1)
      else
        match h
        case Packet(blk, data) =>
          if blk == next then Block(Strip(data), rest)
          else if blk == Prev(next) then Stale(data, rest) else Failed(SEQUENCE, rest)
        case Eof =>
          if m.ymodem then End(Code(Parse(rest, m.crc, m.f).0), Parse(rest, m.crc, m.f).1) else End(Code(h), rest)
        case _ => Failed(Code(h), rest)
  {
  }

  /** Header `j` is the first that ends the fetch. */
  ghost predicate Settles(line: Line, next: byte, m: Mode, j: nat) {
    && (forall i :: 0 <= i < j ==> GoesOn(HeaderAt(line, i, m), next))
    && !GoesOn(HeaderAt(line, j, m), next)
  }

  /** The expected block arrives at header `j`, behind frames that are damaged, repeated, skipped or missing. */
  ghost predicate Arrives(line: Line, next: byte, m: Mode, j: nat) {
    Settles(line, next, m, j) && HeaderAt(line, j, m).Packet?
  }

  ghost predicate Closes(line: Line, next: byte, m: Mode, j: nat) {
    Settles(line, next, m, j) && HeaderAt(line, j, m).Eof?
  }

  lemma HeaderShift(line: Line, j: nat, m: Mode)
    ensures var rest := Parse(line, m.crc, m.f).1;
            HeaderAt(line, j + 1, m) == HeaderAt(rest, j, m) && After(line, j + 1, m) == After(rest, j, m)
  {
  }

  lemma {:induction false} AfterNext(line: Line, j: nat, m: Mode)
    ensures After(line, j + 1, m) == Parse(After(line, j, m), m.crc, m.f).1
    decreases j
  {
    hide Parse;
    if j > 0 {
      AfterNext(Parse(line, m.crc, m.f).1, j - 1, m);
    } else {
      assert After(line, 1, m) == After(Parse(line, m.crc, m.f).1, 0, m);
    }
  }

  /** Headers that do not settle a fetch cost one try each, and nothing else. */
  lemma {:induction false} FetchSkips(line: Line, next: byte, m: Mode, tries: nat, j: nat)
    requires j < tries && forall i :: 0 <= i < j ==> GoesOn(HeaderAt(line, i, m), next)
    ensures Fetch(line, next, m, tries) == Fetch(After(line, j, m), next, m, tries - j)
    decreases j
  {
    hide Parse;
    if j > 0 {
      var rest := Parse(line, m.crc, m.f).1;
      assert GoesOn(HeaderAt(line, 0, m), next);
      forall i | 0 <= i < j - 1 ensures GoesOn(HeaderAt(rest, i, m), next) {
        HeaderShift(line, i, m);
        assert GoesOn(HeaderAt(line, i + 1, m), next);
      }
      FetchSkips(rest, next, m, tries - 1, j - 1);
    }
  }

  /** What a fetch yields when header `j` settles it within the budget. */
  lemma FetchSettles(line: Line, next: byte, m: Mode, tries: nat, j: nat)
    requires j < tries && Settles(line, next, m, j)
    ensures var h, r := HeaderAt(line, j, m), Fetch(line, next, m, tries);
      && (h.Packet? ==> h.blk == next && r == Block(Strip(h.data), After(line, j + 1, m)))
      && (h.Eof? ==> r.End?) && (h.Cancel? ==> r.Failed?)
  {
    hide Parse, Strip;
    FetchSkips(line, next, m, tries, j);
    AfterNext(line, j, m);
  }

  /** Some header within the budget settles the fetch, or all of them go on. */
  lemma {:induction false} SettlesOrNot(line: Line, next: byte, m: Mode, tries: nat) returns (j: nat)
    ensures j <= tries && forall i :: 0 <= i < j ==> GoesOn(HeaderAt(line, i, m), next)
    ensures j < tries ==> Settles(line, next, m, j)
  {
    j := 0;
    while j < tries && GoesOn(HeaderAt(line, j, m), next)
      invariant j <= tries && forall i :: 0 <= i < j ==> GoesOn(HeaderAt(line, i, m), next)
    {
      j := j + 1;
    }
  }

  /**
   The exact conditions, beside `StaleExactly`: a fetch yields a block if and only if the expected one
   arrives at some header within the budget, and it is then that block, with the line behind it; it
   ends the file if and only if the sender's end of file comes first within the budget.
   */
  lemma BlockExactly(line: Line, next: byte, m: Mode, tries: nat)
    requires tries >= 1
    ensures Fetch(line, next, m, tries).Block? <==> exists j :: 0 <= j < tries && Arrives(line, next, m, j)
    ensures forall j :: 0 <= j < tries && Arrives(line, next, m, j) ==>
      Fetch(line, next, m, tries) == Block(Strip(HeaderAt(line, j, m).data), After(line, j + 1, m))
    ensures Fetch(line, next, m, tries).End? <==> exists j :: 0 <= j < tries && Closes(line, next, m, j)
  {
    hide Parse, Strip, HeaderAt, After;
    forall j | 0 <= j < tries && Settles(line, next, m, j)
      ensures var h, r := HeaderAt(line, j, m), Fetch(line, next, m, tries);
        && (h.Packet? ==> r == Block(Strip(h.data), After(line, j + 1, m)))
        && (h.Eof? ==> r.End?) && (h.Cancel? ==> r.Failed?)
    {
      FetchSettles(line, next, m, tries, j);
    }
    var j := SettlesOrNot(line, next, m, tries);
    if j == tries {
      Exhausted(line, next, m, tries);
    } else {
      FetchSettles(line, next, m, tries, j);
      assert Arrives(line, next, m, j) || Closes(line, next, m, j) || HeaderAt(line, j, m).Cancel?;
    }
  }

  /**
   The statuses: a cancel ends the fetch with -5; an end of file with that of the header behind it for
   Y-modem, else -4; and when the tries are used up on anything but a duplicate, with that of the last
   header, or -8 for a frame out of sequence.
   */
  lemma StatusExactly(line: Line, next: byte, m: Mode, tries: nat, j: nat)
    requires tries >= 1 && j < tries && forall i :: 0 <= i < j ==> GoesOn(HeaderAt(line, i, m), next)
    ensures var h, r := HeaderAt(line, j, m), Fetch(line, next, m, tries);
      && (h.Cancel? ==> r == Failed(-5, After(line, j + 1, m)))
      && (h.Eof? && !m.ymodem ==> r == End(-4, After(line, j + 1, m)))
      && (h.Eof? && m.ymodem ==> r == End(Code(HeaderAt(line, j + 1, m)), After(line, j + 2, m)))
      && (GoesOn(h, next) && j == tries - 1 && !(h.Packet? && h.blk == Prev(next)) ==>
            r == Failed(if h.Packet? then -8 else Code(h), After(line, j + 1, m)))
  {
    hide Parse, Strip, Fetch, After;
    FetchSkips(line, next, m, tries, j);
    FetchIs(After(line, j, m), next, m, tries - j);
    AfterNext(line, j, m);
    AfterNext(line, j + 1, m);
  }

  lemma Exhausted(line: Line, next: byte, m: Mode, tries: nat)
    requires tries >= 1 && forall i :: 0 <= i < tries ==> GoesOn(HeaderAt(line, i, m), next)
    ensures var r := Fetch(line, next, m, tries); r.Stale? || r.Failed?
  {
    hide Parse, Strip;
    FetchSkips(line, next, m, tries, tries - 1);
    assert GoesOn(HeaderAt(line, tries - 1, m), next);
  }

  /** Each of the blocks e to e + n - 1 arrives within its budget, and then the end of the file within its own. */
  ghost predicate WithinBudget(line: Line, e: nat, n: nat, m: Mode)
    decreases n
  {
    if n == 0 then exists j :: 0 <= j < MAX_RETRIES && Closes(line, e % 256, m, j)
    else exists j :: 0 <= j < MAX_RETRIES && Arrives(line, e % 256, m, j)
                     && WithinBudget(After(line, j + 1, m), e + 1, n - 1, m)
  }

  /**
   Order and exactly-once, and everything: from an honest line on which every block arrives within the
   retry budget, whatever damaged, repeated or skipped frames come in between, the receiver that expects
   block `e` delivers blocks e to e + n - 1, each once and in order, the pad of each stripped, and closes.
   */
  lemma {:induction false} InOrder(line: Line, e: nat, n: nat, ks: seq<nat>, m: Mode, b: nat -> seq<byte>)
    requires Honest(line, e, ks, m, b) && WithinBudget(line, e, n, m)
    ensures Stream(line, e % 256, m) == Blocks(b, e, n) && Closing(line, e % 256, m)
    decreases n
  {
    hide Honest, Fetch, HeaderAt, After, Arrives, Closes;
    BlockExactly(line, e % 256, m, MAX_RETRIES);
    if n > 0 {
      var j :| 0 <= j < MAX_RETRIES && Arrives(line, e % 256, m, j)
               && WithinBudget(After(line, j + 1, m), e + 1, n - 1, m);
      var ks' := FetchHonest(line, e, ks, m, b, MAX_RETRIES);
      SuccIs(e);
      InOrder(After(line, j + 1, m), e + 1, n - 1, ks', m, b);
    }
  }

  /** The budget is exact as well: a receiver that gets n blocks and then closes, and no duplicate, had it. */
  lemma {:induction false} BudgetExactly(line: Line, e: nat, n: nat, m: Mode)
    ensures WithinBudget(line, e, n, m)
       <==> NoStale(line, e % 256, m) && Closing(line, e % 256, m) && |Log(line, e, m)| == n
    decreases n, |line|
  {
    hide Fetch, HeaderAt, After, Arrives, Closes;
    BlockExactly(line, e % 256, m, MAX_RETRIES);
    SuccIs(e);
    var r := Fetch(line, e % 256, m, MAX_RETRIES);
    if r.Block? {
      var j :| 0 <= j < MAX_RETRIES && Arrives(line, e % 256, m, j);
      if n > 0 {
        BudgetExactly(r.rest, e + 1, n - 1, m);
      }
    }
  }

  /** `n` copies of a frame. */
  function Copies(frame: seq<byte>, n: nat, rest: Line): Line {
    if n == 0 then rest else Tokens(frame) + Copies(frame, n - 1, rest)
  }

  /**
   The case is real: a sender that repeats the last block twenty times makes the receiver deliver that
   block again, pad and all.
   */
  lemma {:induction false} RepeatedTooOften(next: byte, data: seq<byte>, m: Mode, n: nat, rest: Line)
    requires n >= 1 && (|data| == 128 || |data| == 1024)
    ensures Fetch(Copies(Encode(Prev(next), data, m.crc, m.f), n, rest), next, m, n) == Stale(data, rest)
  {
    hide Parse, Encode;
    var frame := Encode(Prev(next), data, m.crc, m.f);
    ParseEncode(Prev(next), data, m.crc, m.f, Copies(frame, n - 1, rest));
    if n > 1 {
      RepeatedTooOften(next, data, m, n - 1, rest);
    }
  }

  // ---- Sender and receiver ----

  /** What a sender transmits for the blocks numbered from `e` on, followed by `tail`. */
  function SendAll(blocks: seq<seq<byte>>, e: nat, m: Mode, tail: Line): Line {
    if blocks == [] then tail else Tokens(Encode(e % 256, blocks[0], m.crc, m.f)) + SendAll(blocks[1..], e + 1, m, tail)
  }

  function StripAll(blocks: seq<seq<byte>>): seq<byte> {
    if blocks == [] then [] else Strip(blocks[0]) + StripAll(blocks[1..])
  }

  /** The numbers e to e + n - 1. */
  function Numbers(e: nat, n: nat): seq<nat>
    decreases n
  {
    if n == 0 then [] else [e] + Numbers(e + 1, n - 1)
  }

  predicate BlockSizes(blocks: seq<seq<byte>>) {
    forall i :: 0 <= i < |blocks| ==> |blocks[i]| == 128 || |blocks[i]| == 1024
  }

  /** A sender that sends its blocks one after the other is honest, and within the budget. */
  lemma {:induction false} SenderIsHonest(blocks: seq<seq<byte>>, e: nat, m: Mode, tail: Line, b: nat -> seq<byte>)
    requires BlockSizes(blocks) && tail != [] && tail[0] == Byte(EOT)
    requires forall i :: 0 <= i < |blocks| ==> b(e + i) == blocks[i]
    ensures Honest(SendAll(blocks, e, m, tail), e, Numbers(e, |blocks|), m, b)
    ensures WithinBudget(SendAll(blocks, e, m, tail), e, |blocks|, m)
    decreases |blocks|
  {
    hide Parse, Encode;
    var line := SendAll(blocks, e, m, tail);
    assert After(line, 0, m) == line;
    if blocks == [] {
      EndHeader(tail, m);
      assert Closes(line, e % 256, m, 0);
    } else {
      var rest := SendAll(blocks[1..], e + 1, m, tail);
      assert b(e + 0) == blocks[0];
      forall i | 0 <= i < |blocks[1..]| ensures b(e + 1 + i) == blocks[1..][i] {
        assert b(e + (i + 1)) == blocks[i + 1];
      }
      SenderIsHonest(blocks[1..], e + 1, m, tail, b);
      ParseEncode(e % 256, blocks[0], m.crc, m.f, rest);
      AfterNext(line, 0, m);
      assert Arrives(line, e % 256, m, 0) && After(line, 1, m) == rest;
      assert Numbers(e, |blocks|)[1..] == Numbers(e + 1, |blocks| - 1);
      assert line != [] by { NotSilent(blocks[0], e, m, rest); }
    }
  }

  lemma EndHeader(tail: Line, m: Mode)
    requires tail != [] && tail[0] == Byte(EOT)
    ensures Parse(tail, m.crc, m.f) == (Eof, tail[1..])
  {
    assert FindStart(tail, 0, true) == (Ended, tail[1..]);
  }

  lemma NotSilent(data: seq<byte>, e: nat, m: Mode, rest: Line)
    ensures Tokens(Encode(e % 256, data, m.crc, m.f)) + rest != []
  {
  }

  lemma {:induction false} BlocksAre(blocks: seq<seq<byte>>, e: nat, b: nat -> seq<byte>)
    requires forall i :: 0 <= i < |blocks| ==> b(e + i) == blocks[i]
    ensures Blocks(b, e, |blocks|) == StripAll(blocks)
    decreases |blocks|
  {
    hide Strip;
    if blocks != [] {
      assert b(e + 0) == blocks[0];
      forall i | 0 <= i < |blocks[1..]| ensures b(e + 1 + i) == blocks[1..][i] {
        assert b(e + (i + 1)) == blocks[i + 1];
      }
      BlocksAre(blocks[1..], e + 1, b);
    }
  }

  /** Round trip: blocks sent one after the other and closed with EOT arrive whole, in order, pad stripped. */
  lemma CleanTransfer(blocks: seq<seq<byte>>, e: nat, m: Mode, tail: Line)
    requires BlockSizes(blocks) && tail != [] && tail[0] == Byte(EOT)
    ensures Stream(SendAll(blocks, e, m, tail), e % 256, m) == StripAll(blocks)
    ensures Closing(SendAll(blocks, e, m, tail), e % 256, m)
  {
    hide Honest, WithinBudget, Stream, Closing, Blocks, StripAll, SendAll;
    var b: nat -> seq<byte> := k => if e <= k < e + |blocks| then blocks[k - e] else [];
    SenderIsHonest(blocks, e, m, tail, b);
    InOrder(SendAll(blocks, e, m, tail), e, |blocks|, Numbers(e, |blocks|), m, b);
    BlocksAre(blocks, e, b);
  }

  /** How a clean transfer ends is how its tail ends. */
  lemma {:induction false} CleanEnding(blocks: seq<seq<byte>>, e: nat, m: Mode, tail: Line)
    requires BlockSizes(blocks)
    ensures Ending(SendAll(blocks, e, m, tail), e % 256, m) == Ending(tail, (e + |blocks|) % 256, m)
    decreases |blocks|
  {
    hide Parse, Encode, Strip, Fetch;
    if blocks != [] {
      var rest := SendAll(blocks[1..], e + 1, m, tail);
      ParseEncode(e % 256, blocks[0], m.crc, m.f, rest);
      FetchIs(SendAll(blocks, e, m, tail), e % 256, m, MAX_RETRIES);
      SuccIs(e);
      CleanEnding(blocks[1..], e + 1, m, tail);
    }
  }

  /** A line on which nothing more comes. */
  lemma {:induction false} SilenceFails(next: byte, m: Mode, tries: nat)
    requires tries >= 1
    ensures Fetch([], next, m, tries) == Failed(Code(Timeout), [])
    decreases tries
  {
    assert Parse([], m.crc, m.f) == (Timeout, []);
    if tries > 1 {
      SilenceFails(next, m, tries - 1);
    }
  }
}
