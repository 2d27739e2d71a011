/**
 The serial line as the Y-modem receiver sees it: a sequence of bytes and of two-second silences. The
 circular buffer in front of it is invisible: taking a character takes the first token of the line.
 */
module ModemLine {
  import opened Bytes

  datatype Token = Byte(b: byte) | Quiet

  type Line = seq<Token>

  /** What one call of select() and read() meets: bytes (a failed read when there are none), or silence. */
  datatype Event = Arrive(bytes: seq<byte>) | Silence

  function Tokens(bytes: seq<byte>): (r: Line)
    ensures |r| == |bytes|
  {
    seq(|bytes|, i requires 0 <= i < |bytes| => Byte(bytes[i]))
  }

  function LineOf(events: seq<Event>): Line {
    if events == [] then []
    else (match events[0]
          case Arrive(bytes) => if bytes == [] then [Quiet] else Tokens(bytes)
          case Silence => [Quiet]) + LineOf(events[1..])
  }

  const BUFSIZE: nat := 4096

  /** The cells of a circular buffer from `r` up to `w`; none when they are equal. */
  function Span(b: seq<byte>, r: nat, w: nat): seq<byte>
    requires r < |b| && w < |b|
  {
    if r <= w then b[r..w] else b[r..] + b[..w]
  }

  function Next(r: nat): nat {
    (r + 1) % BUFSIZE
  }

  lemma NextIs(r: nat)
    requires r < BUFSIZE
    ensures Next(r) == if r + 1 < BUFSIZE then r + 1 else 0
  {
  }

  lemma SpanUp(b: seq<byte>, r: nat, w: nat)
    requires r < w < |b|
    ensures b[r..w] == [b[r]] + b[r + 1..w]
  {
  }

  lemma SpanDown(b: seq<byte>, r: nat, w: nat)
    requires w < r && r + 1 < |b|
    ensures b[r..] + b[..w] == [b[r]] + (b[r + 1..] + b[..w])
  {
  }

  lemma SpanLast(b: seq<byte>, r: nat, w: nat)
    requires w < r && r + 1 == |b|
    ensures b[r..] + b[..w] == [b[r]] + b[0..w]
  {
  }

  lemma SpanHead(b: seq<byte>, r: nat, w: nat)
    requires |b| == BUFSIZE && r < BUFSIZE && w < BUFSIZE && r != w
    ensures Next(r) < BUFSIZE && Span(b, r, w) == [b[r]] + Span(b, Next(r), w)
  {
    NextIs(r);
    hide Next;
    if r < w {
      SpanUp(b, r, w);
    } else if r + 1 < BUFSIZE {
      SpanDown(b, r, w);
    } else {
      SpanLast(b, r, w);
    }
  }

  /** After a read into cells `r` to `r + n`, the span behind the first of them is the rest of what came. */
  lemma SpanFresh(b: seq<byte>, r: nat, n: nat)
    requires |b| == BUFSIZE && r < BUFSIZE && 0 < n <= BUFSIZE - r
    ensures Span(b, Next(r), (r + n) % BUFSIZE) == b[r..r + n][1..]
  {
    if r + n == BUFSIZE {
      assert b[..0] == [];
      if r + 1 < BUFSIZE {
        assert b[r..r + n][1..] == b[r + 1..];
      }
    }
  }

  lemma SpanCount(b: seq<byte>, r: nat, w: nat)
    requires |b| == BUFSIZE && r < BUFSIZE && w < BUFSIZE
    ensures |Span(b, r, w)| == (w - r) % BUFSIZE
  {
  }

  class Ring {
    var readpos: nat
    var writepos: nat
    const buffer: array<byte>
    var events: seq<Event>

    ghost predicate Valid()
      reads this
    {
      buffer.Length == BUFSIZE && readpos < BUFSIZE && writepos < BUFSIZE
    }

    /** The bytes read from the port and not yet handed on. */
    function Unread(): seq<byte>
      requires Valid()
      reads this, buffer
    {
      Span(buffer[..], readpos, writepos)
    }

    /** Everything still to come. */
    function Pending(): Line
      requires Valid()
      reads this, buffer
    {
      Tokens(Unread()) + LineOf(events)
    }

    constructor (events: seq<Event>)
      ensures Valid() && fresh(buffer) && Pending() == LineOf(events) && Unread() == []
    {
      readpos, writepos := 0, 0;
      buffer := new byte[BUFSIZE];
      this.events := events;
      new;
      assert Tokens([]) == [];
    }

    /**
     select() and read(): nothing, with a silence or a failed read consumed; or some bytes, as many as
     read() chose to return, up to the end of the buffer.
     */
    method Refill() returns (ok: bool, ghost got: seq<byte>)
      requires Valid() && readpos == writepos
      modifies this`writepos, this`events, buffer
      ensures Valid()
      ensures !ok ==> writepos == readpos
      ensures !ok && old(events) == [] ==> events == []
      ensures !ok && old(events) != [] ==>
        LineOf(old(events)) != [] && LineOf(old(events))[0] == Quiet && LineOf(events) == LineOf(old(events))[1..]
      ensures ok ==>
        && 0 < |got| <= BUFSIZE - readpos && buffer[readpos..readpos + |got|] == got
        && writepos == (readpos + |got|) % BUFSIZE
        && LineOf(old(events)) == Tokens(got) + LineOf(events)
    {
      hide Tokens;
      got := [];
      if events == [] {
        return false, [];
      }
      var e := events[0];
      if e.Silence? {
        events := events[1..];
        return false, [];
      }
      var remainder := if writepos < readpos then readpos - writepos else BUFSIZE - writepos;
      var actual := if |e.bytes| < remainder then |e.bytes| else remainder;
      events := events[1..];
      if actual <= 0 {
        return false, [];
      }
      got := e.bytes[..actual];
      forall i | 0 <= i < actual {
        buffer[writepos + i] := e.bytes[i];
      }
      assert buffer[writepos..writepos + actual] == got;
      if actual < |e.bytes| {
        events := [Arrive(e.bytes[actual..])] + events;
      }
      LineArrive(old(events), actual);
      writepos := (writepos + actual) % BUFSIZE;
      ok := true;
    }

    /**
     `getCharTimeout`: the first token of the line, whatever sizes read() returned; and at rest the
     unread count is (writepos - readpos) mod 4096, so a read that fills every cell is not taken for
     an empty ring.
     */
    method GetChar() returns (ok: bool, t: byte)
      requires Valid()
      modifies this, buffer
      ensures Valid() && |Unread()| == (writepos - readpos) % BUFSIZE
      ensures if old(Pending()) == [] then !ok && Pending() == []
              else && Pending() == old(Pending())[1..] && (ok <==> old(Pending())[0].Byte?)
                   && (ok ==> t == old(Pending())[0].b)
    {
      hide LineOf, Tokens;
      ghost var rest := LineOf(events);
      if readpos != writepos {
        ghost var u := Unread();
        t := TakeOne();
        TokensHead(u, rest);
        return true, t;
      }
      if events == [] {
        LineNone();
      }
      NoTokens(rest);
      ghost var got;
      ok, got := Refill();
      if !ok {
        NoTokens(LineOf(events));
        return false, 0;
      }
      rest := LineOf(events);
      t := TakeFirst(got);
      TokensHead(got, rest);
      return true, t;
    }

    /** `*t = buffer[readpos]` and the step of `readpos`, when bytes were waiting. */
    method TakeOne() returns (t: byte)
      requires Valid() && readpos != writepos
      modifies this`readpos
      ensures Valid() && old(Unread()) == [t] + Unread() && |Unread()| == (writepos - readpos) % BUFSIZE
    {
      hide Span;
      SpanHead(buffer[..], readpos, writepos);
      t := buffer[readpos];
      readpos := (readpos + 1) % BUFSIZE;
      SpanCount(buffer[..], readpos, writepos);
    }

    /** The same right after a read, which may have brought `writepos` round to `readpos`. */
    method TakeFirst(ghost got: seq<byte>) returns (t: byte)
      requires Valid() && 0 < |got| <= BUFSIZE - readpos && buffer[readpos..readpos + |got|] == got
      requires writepos == (readpos + |got|) % BUFSIZE
      modifies this`readpos
      ensures Valid() && t == got[0] && Unread() == got[1..] && |Unread()| == (writepos - readpos) % BUFSIZE
    {
      hide Span;
      SpanFresh(buffer[..], readpos, |got|);
      assert buffer[..][readpos..readpos + |got|] == got;
      t := buffer[readpos];
      readpos := (readpos + 1) % BUFSIZE;
      SpanCount(buffer[..], readpos, writepos);
    }
  }

  lemma NoTokens(rest: Line)
    ensures Tokens([]) + rest == rest
  {
  }

  lemma TokensSplit(bytes: seq<byte>, k: nat)
    requires k <= |bytes|
    ensures Tokens(bytes) == Tokens(bytes[..k]) + Tokens(bytes[k..])
  {
  }

  /** A read of the first `k` bytes of what has arrived leaves the rest of it in front of the line. */
  lemma LineArrive(events: seq<Event>, k: nat)
    requires events != [] && events[0].Arrive? && 0 < k <= |events[0].bytes|
    ensures var bytes := events[0].bytes;
      LineOf(events) == Tokens(bytes[..k]) +
        if k < |bytes| then LineOf([Arrive(bytes[k..])] + events[1..]) else LineOf(events[1..])
  {
    hide Tokens;
    var bytes := events[0].bytes;
    TokensSplit(bytes, k);
    if k < |bytes| {
      var rest := [Arrive(bytes[k..])] + events[1..];
      assert rest[0].bytes == bytes[k..] && rest[1..] == events[1..];
      assert LineOf(rest) == Tokens(bytes[k..]) + LineOf(events[1..]);
      assert Tokens(bytes) + LineOf(events[1..]) == Tokens(bytes[..k]) + (Tokens(bytes[k..]) + LineOf(events[1..]));
    } else {
      assert bytes[..k] == bytes;
    }
  }

  lemma LineNone()
    ensures LineOf([]) == []
  {
  }

  lemma TokensHead(u: seq<byte>, rest: Line)
    requires u != []
    ensures Tokens(u) + rest == [Byte(u[0])] + (Tokens(u[1..]) + rest)
  {
  }
}
