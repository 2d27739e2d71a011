/**
 An EPCS serial flash as its data sheet commands see it: memory, the write-enable latch, chip select,
 the bytes clocked in since chip select fell, and a write in progress that ends after some number of
 status reads. A command takes effect when chip select is released.
 */
module EpcsChip {
  import opened Bytes

  const READ: byte := 0x03
  const PP: byte := 0x02
  const WREN: byte := 0x06
  const RDSR: byte := 0x05
  const SE: byte := 0xD8

  /** `times` holds the number of status reads each coming write will take; a write beyond it takes none. */
  datatype Chip = Chip(
    mem: seq<byte>, sector: nat,
    wel: bool, sel: bool, cmd: seq<byte>, busy: nat, times: seq<nat>)

  /** Memory within reach of a 24-bit address. */
  predicate Shape(c: Chip) {
    0 < c.sector && 0 < |c.mem| <= 0x100_0000
  }

  /** The first address of the sector that holds `addr`. */
  function SectorBase(addr: nat, sector: nat): (r: nat)
    requires sector > 0
    ensures r <= addr < r + sector
  {
    addr - addr % sector
  }

  function Address(b: seq<byte>): nat
    requires |b| >= 4
  {
    (b[1] as int) * 65536 + (b[2] as int) * 256 + b[3] as int
  }

  /** The three address bytes the driver sends. */
  function AddressBytes(offset: nat): seq<byte> {
    [(offset / 65536) % 256, (offset / 256) % 256, offset % 256]
  }

  /** The three bytes spell the offset, high byte first, and the chip reads it back. */
  lemma AddressRoundTrip(op: byte, offset: nat, rest: seq<byte>)
    requires offset < 0x100_0000
    ensures var b := AddressBytes(offset);
      |b| == 3 && b[0] as int * 0x1_0000 + b[1] as int * 0x100 + b[2] as int == offset
    ensures Address([op] + AddressBytes(offset) + rest) == offset
  {
    var b := [op] + AddressBytes(offset) + rest;
    assert b[1] == (offset / 65536) % 256 && b[2] == (offset / 256) % 256 && b[3] == offset % 256;
  }

  /** The last byte of `data` that lands on cell `p` of the page, going round the page from `off`. */
  function Landing(data: seq<byte>, off: nat, p: nat): (k: int)
    ensures -1 <= k < |data|
  {
    if data == [] then -1
    else if (off + |data| - 1) % 256 == p then |data| - 1
    else Landing(data[..|data| - 1], off, p)
  }

  /** Page program: AND into the cells of the page that holds `addr`, wrapping inside the page. */
  function Program(mem: seq<byte>, addr: nat, data: seq<byte>): (r: seq<byte>)
    ensures |r| == |mem|
  {
    seq(|mem|, i requires 0 <= i < |mem| =>
      var k := Landing(data, addr % 256, i % 256);
      if i / 256 == addr / 256 && k >= 0 then And(mem[i], data[k]) else mem[i])
  }

  /** What programming means when it stays inside one page, and in general what a range program means. */
  function ProgramRange(mem: seq<byte>, addr: nat, data: seq<byte>): (r: seq<byte>)
    ensures |r| == |mem|
  {
    seq(|mem|, i requires 0 <= i < |mem| =>
      if addr <= i < addr + |data| then And(mem[i], data[i - addr]) else mem[i])
  }

  function Erased(mem: seq<byte>, lo: nat, n: nat): (r: seq<byte>)
    ensures |r| == |mem|
  {
    seq(|mem|, i requires 0 <= i < |mem| => if lo <= i < lo + n then 255 else mem[i])
  }

  function WrapRead(mem: seq<byte>, addr: nat, n: nat): (r: seq<byte>)
    requires mem != []
    ensures |r| == n
  {
    seq(n, k requires 0 <= k < n => mem[(addr + k) % |mem|])
  }

  function NextTime(c: Chip): nat {
    if c.times == [] then 0 else c.times[0]
  }

  function TimesLeft(c: Chip): seq<nat> {
    if c.times == [] then [] else c.times[1..]
  }

  function Select(c: Chip): Chip {
    if c.sel then c else c.(sel := true, cmd := [])
  }

  /** One byte time: the chip takes `b` in and puts its reply out. */
  function Clock(c: Chip, b: byte): (r: (Chip, byte))
    requires Shape(c)
    ensures Shape(r.0)
  {
    var c' := c.(cmd := c.cmd + [b]);
    if !c.sel || c.cmd == [] then (c', 255)
    else if c.cmd[0] == RDSR then
      (c'.(busy := if c.busy > 0 then c.busy - 1 else 0), (if c.busy > 0 then 1 else 0) + if c.wel then 2 else 0)
    else if c.cmd[0] == READ && |c.cmd| >= 4 && c.busy == 0 then
      (c', c.mem[(Address(c.cmd) + |c.cmd| - 4) % |c.mem|])
    else (c', 255)
  }

  /** Chip select is released: a complete command takes effect unless a write is in progress. */
  function Deselect(c: Chip): (r: Chip)
    requires Shape(c)
    ensures Shape(r)
  {
    var idle := c.(sel := false, cmd := []);
    if !c.sel || c.cmd == [] || c.busy > 0 then idle
    else if c.cmd == [WREN] then idle.(wel := true)
    else if c.cmd[0] == PP && |c.cmd| >= 5 && c.wel then
      idle.(mem := Program(c.mem, Address(c.cmd), c.cmd[4..]), wel := false, busy := NextTime(c), times := TimesLeft(c))
    else if c.cmd[0] == SE && |c.cmd| == 4 && c.wel then
      idle.(mem := Erased(c.mem, SectorBase(Address(c.cmd), c.sector), c.sector),
            wel := false, busy := NextTime(c), times := TimesLeft(c))
    else idle
  }

  /** Clocking a whole sequence of bytes: the chip after it, and its replies. */
  function Shift(c: Chip, out: seq<byte>): (r: (Chip, seq<byte>))
    requires Shape(c)
    ensures Shape(r.0) && |r.1| == |out|
  {
    if out == [] then (c, [])
    else
      var k := |out| - 1;
      var (c1, replies) := Shift(c, out[..k]);
      var (c2, reply) := Clock(c1, out[k]);
      (c2, replies + [reply])
  }

  // ---- Laws of the chip ----

  lemma {:induction false} LandingInPage(data: seq<byte>, off: nat, p: nat)
    requires off + |data| <= 256 && p < 256
    ensures Landing(data, off, p) == if off <= p < off + |data| then p - off else -1
  {
    if data != [] {
      LandingInPage(data[..|data| - 1], off, p);
    }
  }

  lemma ProgramCell(mem: seq<byte>, addr: nat, data: seq<byte>, i: nat)
    requires addr % 256 + |data| <= 256 && i < |mem|
    ensures Program(mem, addr, data)[i] == ProgramRange(mem, addr, data)[i]
  {
    hide Landing, And;
    LandingInPage(data, addr % 256, i % 256);
    assert i == i / 256 * 256 + i % 256 && addr == addr / 256 * 256 + addr % 256;
  }

  /** Programming that stays inside one page is a plain AND over the range. */
  lemma ProgramInPage(mem: seq<byte>, addr: nat, data: seq<byte>)
    requires addr % 256 + |data| <= 256
    ensures Program(mem, addr, data) == ProgramRange(mem, addr, data)
  {
    hide Program, ProgramRange;
    forall i | 0 <= i < |mem|
      ensures Program(mem, addr, data)[i] == ProgramRange(mem, addr, data)[i]
    {
      ProgramCell(mem, addr, data, i);
    }
  }

  /** Bit by bit: a programmed cell keeps a bit that is set in the old byte and in the new; no other cell changes. */
  lemma ProgramRangeBits(mem: seq<byte>, addr: nat, data: seq<byte>, i: nat, k: nat)
    requires i < |mem| && k < 8
    ensures var r := ProgramRange(mem, addr, data);
      && (addr <= i < addr + |data| ==> (Bit(r[i], k) <==> Bit(mem[i], k) && Bit(data[i - addr], k)))
      && (!(addr <= i < addr + |data|) ==> r[i] == mem[i])
  {
    hide And, Bit;
    if addr <= i < addr + |data| {
      AndBit(mem[i], data[i - addr], k);
    }
  }

  lemma ProgramRangeSplit(mem: seq<byte>, addr: nat, a: seq<byte>, b: seq<byte>)
    ensures ProgramRange(ProgramRange(mem, addr, a), addr + |a|, b) == ProgramRange(mem, addr, a + b)
  {
  }

  /** A command other than a status read leaves the chip alone until chip select is released. */
  lemma {:induction false} ShiftQuiet(c: Chip, out: seq<byte>)
    requires Shape(c) && c.sel && (c.cmd != [] ==> c.cmd[0] != RDSR) && (c.cmd == [] && out != [] ==> out[0] != RDSR)
    ensures Shift(c, out).0 == c.(cmd := c.cmd + out)
  {
    if out != [] {
      var k := |out| - 1;
      ShiftQuiet(c, out[..k]);
      assert out == out[..k] + [out[k]];
      assert c.cmd + out == c.cmd + out[..k] + [out[k]];
    } else {
      assert c.cmd + out == c.cmd;
    }
  }

  lemma WrapReadNext(mem: seq<byte>, addr: nat, n: nat)
    requires mem != [] && n > 0
    ensures WrapRead(mem, addr, n) == WrapRead(mem, addr, n - 1) + [mem[(addr + n - 1) % |mem|]]
  {
  }

  lemma ReadReply(c: Chip, head: seq<byte>, n: nat)
    requires Shape(c) && c.sel && c.busy == 0 && |head| == 4 && head[0] == READ && c.cmd == head + Zeros(n)
    ensures Clock(c, 0).1 == c.mem[(Address(head) + n) % |c.mem|]
  {
    assert Address(c.cmd) == Address(head);
  }

  /** One more byte clocked. */
  lemma ShiftNext(c: Chip, out: seq<byte>, b: byte)
    requires Shape(c)
    ensures Shift(c, out + [b]).0 == Clock(Shift(c, out).0, b).0
    ensures Shift(c, out + [b]).1 == Shift(c, out).1 + [Clock(Shift(c, out).0, b).1]
  {
    assert (out + [b])[..|out|] == out;
  }

  /** The replies to a read command after its four command bytes are the memory from that address on. */
  lemma {:induction false} ShiftRead(c: Chip, head: seq<byte>, n: nat)
    requires Shape(c) && c.mem != [] && c.sel && c.cmd == [] && c.busy == 0 && |head| == 4 && head[0] == READ
    ensures Shift(c, head + Zeros(n)).1[4..] == WrapRead(c.mem, Address(head), n)
  {
    hide Clock, Shape, Address, WrapRead, Shift;
    if n == 0 {
      WrapReadNone(c.mem, Address(head));
    } else {
      var h := head + Zeros(n - 1);
      assert head + Zeros(n) == h + [0] && [] + h == h;
      ShiftRead(c, head, n - 1);
      ShiftQuiet(c, h);
      ShiftNext(c, h, 0);
      ReadReply(c.(cmd := h), head, n - 1);
      WrapReadNext(c.mem, Address(head), n);
    }
  }

  lemma WrapReadNone(mem: seq<byte>, addr: nat)
    requires mem != []
    ensures WrapRead(mem, addr, 0) == []
  {
  }
}
