/** The flash commands as byte transactions on the SPI master, each proved against what it does to the chip. */
module EpcsCommands {
  import opened Bytes
  import opened EpcsChip
  import opened Spi

  /** Between transactions: not selected. */
  predicate Rest(c: Chip) {
    Shape(c) && !c.sel && c.cmd == []
  }

  function Status(c: Chip): byte {
    (if c.busy > 0 then 1 else 0) + if c.wel then 2 else 0
  }

  function Later(c: Chip): Chip {
    c.(busy := if c.busy > 0 then c.busy - 1 else 0)
  }

  lemma StatusTransaction(c: Chip)
    requires Rest(c)
    ensures var (c', replies) := Shift(Select(c), [0x05] + Zeros(1));
      Deselect(c') == Later(c) && replies[1..] == [Status(c)]
  {
    var out := [RDSR] + Zeros(1);
    assert out[..1] == [RDSR] && out[..1][..0] == [];
    assert Shift(Select(c), out[..1]).0 == c.(sel := true, cmd := [RDSR]);
    assert [RDSR] + [0] != [WREN];
  }

  lemma EnableTransaction(c: Chip)
    requires Rest(c)
    ensures Deselect(Shift(Select(c), [0x06] + Zeros(0)).0) == if c.busy > 0 then c else c.(wel := true)
  {
    assert [WREN] + Zeros(0) == [WREN];
    ShiftQuiet(Select(c), [WREN]);
  }

  lemma EraseTransaction(c: Chip, offset: nat)
    requires Rest(c) && c.busy == 0 && c.wel && offset < 0x100_0000
    ensures var se := [0xD8] + AddressBytes(offset);
      Deselect(Shift(Select(c), se + Zeros(0)).0)
      == c.(mem := Erased(c.mem, SectorBase(offset, c.sector), c.sector),
            wel := false, busy := NextTime(c), times := TimesLeft(c))
  {
    hide Erased, SectorBase;
    var se := [SE] + AddressBytes(offset);
    assert se + Zeros(0) == se && [] + se == se && se + [] == se;
    ShiftQuiet(Select(c), se);
    AddressRoundTrip(SE, offset, []);
  }

  lemma ProgramTransaction(c: Chip, offset: nat, data: seq<byte>)
    requires Rest(c) && c.busy == 0 && c.wel && offset < 0x100_0000 && data != []
    ensures var pp := [0x02] + AddressBytes(offset);
      var mid := Shift(Select(c), pp + Zeros(0)).0;
      Shape(mid) && Deselect(Shift(Select(mid), data + Zeros(0)).0)
      == c.(mem := Program(c.mem, offset, data), wel := false, busy := NextTime(c), times := TimesLeft(c))
  {
    hide Program, Address;
    var pp := [PP] + AddressBytes(offset);
    assert pp + Zeros(0) == pp && data + Zeros(0) == data && [] + pp == pp;
    ShiftQuiet(Select(c), pp);
    var mid := Shift(Select(c), pp).0;
    ShiftQuiet(mid, data);
    AddressRoundTrip(PP, offset, data);
    assert (pp + data)[4..] == data && pp + data != [WREN];
  }

  lemma ReadTransaction(c: Chip, offset: nat, n: nat)
    requires Rest(c) && c.mem != [] && c.busy == 0 && offset < 0x100_0000
    ensures var head := [0x03] + AddressBytes(offset);
      var (c', replies) := Shift(Select(c), head + Zeros(n));
      Deselect(c') == c && replies[4..] == WrapRead(c.mem, offset, n)
  {
    hide WrapRead, Address;
    var head := [READ] + AddressBytes(offset);
    ShiftQuiet(Select(c), head + Zeros(n));
    ShiftRead(Select(c), head, n);
    AddressRoundTrip(READ, offset, []);
    assert head + [] == head;
    assert ([] + (head + Zeros(n)))[0] == READ;
  }

  /** `epcs_read_status_register`. */
  method ReadStatus(m: Master) returns (status: byte)
    requires m.Quiet() && Rest(m.chip)
    modifies m
    ensures m.Quiet() && m.chip == Later(old(m.chip)) && status == Status(old(m.chip))
  {
    hide Shift, Deselect;
    StatusTransaction(m.chip);
    var read := m.Command([RDSR], 1, false);
    status := read[0];
  }

  /** `epcs_await_wip_released`: status is read until no write is in progress. */
  method AwaitWipReleased(m: Master)
    requires m.Quiet() && Rest(m.chip)
    modifies m
    ensures m.Quiet() && m.chip == old(m.chip).(busy := 0)
  {
    var status := ReadStatus(m);
    while status % 2 == 1
      invariant m.Quiet() && m.chip == old(m.chip).(busy := m.chip.busy)
      invariant status % 2 == 0 ==> m.chip.busy == 0
      decreases m.chip.busy, status % 2
    {
      status := ReadStatus(m);
    }
  }

  /** `epcs_write_enable`: ignored by the chip while a write is in progress. */
  method WriteEnable(m: Master)
    requires m.Quiet() && Rest(m.chip)
    modifies m
    ensures m.Quiet() && m.chip == if old(m.chip).busy > 0 then old(m.chip) else old(m.chip).(wel := true)
  {
    hide Shift, Deselect;
    EnableTransaction(m.chip);
    var _ := m.Command([WREN], 0, false);
  }

  /** `epcs_sector_erase`: with writes enabled, exactly the sector that holds `offset` reads 0xFF. */
  method SectorErase(m: Master, offset: nat)
    requires m.Quiet() && Rest(m.chip) && m.chip.busy == 0 && m.chip.wel && offset < 0x100_0000
    modifies m
    ensures m.Quiet() && Rest(m.chip) && m.chip.busy == 0 && !m.chip.wel && m.chip.sector == old(m.chip).sector
    ensures m.chip.mem == Erased(old(m.chip).mem, SectorBase(offset, m.chip.sector), m.chip.sector)
  {
    hide Shift, Deselect, Erased, SectorBase;
    EraseTransaction(m.chip, offset);
    var _ := m.Command([SE] + AddressBytes(offset), 0, false);
    AwaitWipReleased(m);
  }

  /** `epcs_read_buffer`: the memory from `offset` on, going round at its end. */
  method ReadBuffer(m: Master, offset: nat, length: nat) returns (dest: seq<byte>)
    requires m.Quiet() && Rest(m.chip) && offset < 0x100_0000
    modifies m
    ensures m.Quiet() && m.chip == old(m.chip).(busy := 0)
    ensures m.chip.mem != [] && dest == WrapRead(m.chip.mem, offset, length)
  {
    hide Shift, Deselect, WrapRead;
    AwaitWipReleased(m);
    ReadTransaction(m.chip, offset, length);
    dest := m.Command([READ] + AddressBytes(offset), length, false);
  }

  /** `epcs_write_buffer`: the page program of `data`, complete when the call returns. */
  method WriteBuffer(m: Master, offset: nat, data: seq<byte>)
    requires m.Quiet() && Rest(m.chip) && m.chip.busy == 0 && offset < 0x100_0000 && data != []
    modifies m
    ensures m.Quiet() && Rest(m.chip) && m.chip.busy == 0 && m.chip.sector == old(m.chip).sector
    ensures m.chip.mem == Program(old(m.chip).mem, offset, data)
  {
    hide Shift, Deselect, Program;
    WriteEnable(m);
    ProgramTransaction(m.chip, offset, data);
    var _ := m.Command([PP] + AddressBytes(offset), 0, true);
    var _ := m.Command(data, 0, false);
    AwaitWipReleased(m);
  }
}
