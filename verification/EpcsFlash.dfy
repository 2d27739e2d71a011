/**
 The flash controller's routines and the block device above them, through every layer down to the SPI
 bytes: each is proved against a function of the memory before the call.
 */
module EpcsFlash {
  import opened Arith
  import opened Bytes
  import opened EpcsChip
  import opened Spi
  import opened EpcsCommands
  import opened EpcsSpec

  const EIO := 5
  const PAGE_SIZE := 256
  const CHUNK_SIZE := 32

  /** The bus is quiet, no write is in progress, and the region table describes the chip. */
  ghost predicate Ready(m: Master, g: Geometry)
    reads m
  {
    && m.Quiet() && Rest(m.chip) && m.chip.busy == 0
    && Sound(g) && g.blockSize > 0 && 0 < g.size <= 0x100_0000
    && |m.chip.mem| == g.size && m.chip.sector == g.blockSize
  }

  /** `alt_epcs_test_address`: an unsigned comparison with the last address. */
  function TestAddress(g: Geometry, offset: int): int {
    if 0 <= offset < g.size then 0 else -EIO
  }

  lemma WrapReadInside(mem: seq<byte>, addr: nat, n: nat)
    requires mem != [] && addr + n <= |mem|
    ensures WrapRead(mem, addr, n) == mem[addr..addr + n]
  {
    var w := WrapRead(mem, addr, n);
    forall k | 0 <= k < n
      ensures w[k] == mem[addr + k]
    {
      SmallRemainder(addr + k, |mem|);
    }
  }

  lemma SmallRemainder(x: nat, n: nat)
    requires x < n
    ensures x % n == x
  {
  }

  /** `alt_epcs_flash_read`: an error when it starts outside the device, else the bytes from there on. */
  method FlashRead(m: Master, g: Geometry, offset: int, length: nat) returns (ret: int, dest: seq<byte>)
    requires Ready(m, g)
    modifies m
    ensures Ready(m, g) && m.chip.mem == old(m.chip).mem
    ensures ret == TestAddress(g, offset) && (ret == 0 <==> 0 <= offset < g.size)
    ensures ret == 0 ==> m.chip.mem != [] && dest == WrapRead(m.chip.mem, offset, length)
    ensures 0 <= offset && offset + length <= g.size && length > 0 ==> dest == m.chip.mem[offset..offset + length]
  {
    hide WrapRead;
    ret, dest := TestAddress(g, offset), [];
    if ret >= 0 {
      dest := ReadBuffer(m, offset, length);
      if offset + length <= g.size {
        WrapReadInside(m.chip.mem, offset, length);
      }
    }
  }

  /** `memcmp`: zero exactly on equality, else the sign of the first difference. */
  method Compare(a: seq<byte>, b: seq<byte>) returns (r: int)
    requires |a| == |b|
    ensures r == 0 <==> a == b
    ensures r != 0 ==> exists i :: 0 <= i < |a| && a[..i] == b[..i] && (if r < 0 then a[i] < b[i] else a[i] > b[i])
  {
    for i := 0 to |a|
      invariant a[..i] == b[..i]
    {
      if a[i] != b[i] {
        return a[i] as int - b[i] as int;
      }
    }
    assert a[..|a|] == a && b[..|b|] == b;
    return 0;
  }

  /** Where the last chunk of a compare starts. */
  function LastChunk(offset: nat, n: nat): nat
    requires n > 0
  {
    offset + (n - 1) / CHUNK_SIZE * CHUNK_SIZE
  }

  /** What the compare asks for: every chunk starts inside the device, and what is read, going round, is the source. */
  predicate Matches(mem: seq<byte>, src: seq<byte>, offset: int) {
    src == [] || (0 <= offset && LastChunk(offset, |src|) < |mem| && WrapRead(mem, offset, |src|) == src)
  }

  /**
   `alt_epcs_flash_memcmp`: zero exactly when the flash matches; for a range inside the device that is the
   compare of the whole range, and a range that starts outside never matches. The flash is not changed.
   */
  method FlashMemcmp(m: Master, g: Geometry, src: seq<byte>, offset: int) returns (r: int)
    requires Ready(m, g)
    modifies m
    ensures Ready(m, g) && m.chip.mem == old(m.chip).mem
    ensures r == 0 <==> Matches(m.chip.mem, src, offset)
    ensures 0 <= offset && offset + |src| <= g.size ==> (r == 0 <==> m.chip.mem[offset..offset + |src|] == src)
    ensures !(0 <= offset < g.size) && src != [] ==> r != 0
  {
    hide WrapRead, Ready, LastChunk;
    ReadyIs(m, g);
    ghost var mem := m.chip.mem;
    if 0 <= offset {
      MatchesInside(mem, src, offset);
    }
    var n, current := |src|, 0;
    while n > 0
      invariant Ready(m, g) && m.chip.mem == mem
      invariant 0 <= current && 0 <= n && current + n == |src| && (n > 0 ==> current % CHUNK_SIZE == 0)
      invariant current > 0 ==> 0 <= offset && WrapRead(mem, offset, current) == src[..current]
      invariant current > 0 && n == 0 ==> LastChunk(offset, |src|) < |mem|
      decreases n
    {
      var chunk := if n > CHUNK_SIZE then CHUNK_SIZE else n;
      if 0 <= offset {
        ChunkStart(offset, |src|, current);
        ChunkStep(mem, offset, src, current, chunk);
      }
      var ret, data := FlashRead(m, g, offset + current, chunk);
      if ret < 0 {
        return -1;
      }
      r := Compare(src[current..current + chunk], data);
      if r != 0 {
        return;
      }
      n, current := n - chunk, current + chunk;
    }
    assert src[..|src|] == src;
    return 0;
  }

  lemma ReadyIs(m: Master, g: Geometry)
    requires Ready(m, g)
    ensures |m.chip.mem| == g.size > 0
  {
  }

  lemma ChunkStart(offset: nat, n: nat, current: nat)
    requires current < n && current % CHUNK_SIZE == 0
    ensures offset + current <= LastChunk(offset, n)
    ensures current + CHUNK_SIZE >= n ==> LastChunk(offset, n) == offset + current
  {
  }

  lemma MatchesInside(mem: seq<byte>, src: seq<byte>, offset: nat)
    requires mem != []
    ensures offset + |src| <= |mem| ==> (Matches(mem, src, offset) <==> mem[offset..offset + |src|] == src)
    ensures src != [] ==> offset <= LastChunk(offset, |src|) < offset + |src|
  {
    hide WrapRead;
    if offset + |src| <= |mem| {
      WrapReadInside(mem, offset, |src|);
    }
  }

  lemma ChunkStep(mem: seq<byte>, offset: nat, src: seq<byte>, current: nat, chunk: nat)
    requires mem != [] && current + chunk <= |src|
    requires current > 0 ==> WrapRead(mem, offset, current) == src[..current]
    ensures WrapRead(mem, offset + current, chunk) == src[current..current + chunk]
        <==> WrapRead(mem, offset, current + chunk) == src[..current + chunk]
    ensures WrapRead(mem, offset + current, chunk) != src[current..current + chunk] ==>
      WrapRead(mem, offset, |src|) != src
  {
    hide WrapRead;
    WrapReadSplit(mem, offset, current, chunk);
    WrapReadSplit(mem, offset, current + chunk, |src| - (current + chunk));
    var a, b := WrapRead(mem, offset, current + chunk), src[..current + chunk];
    assert a[..current] == WrapRead(mem, offset, current) && a[current..] == WrapRead(mem, offset + current, chunk);
    assert b[..current] == src[..current] && b[current..] == src[current..current + chunk];
    assert a == a[..current] + a[current..] && b == b[..current] + b[current..];
    assert WrapRead(mem, offset, |src|)[..current + chunk] == a;
  }

  lemma WrapReadSplit(mem: seq<byte>, addr: nat, a: nat, b: nat)
    requires mem != []
    ensures WrapRead(mem, addr, a + b) == WrapRead(mem, addr, a) + WrapRead(mem, addr + a, b)
  {
    var whole, parts := WrapRead(mem, addr, a + b), WrapRead(mem, addr, a) + WrapRead(mem, addr + a, b);
    forall k | 0 <= k < a + b
      ensures whole[k] == parts[k]
    {
      assert k >= a ==> addr + a + (k - a) == addr + k;
    }
  }

  /** `alt_epcs_flash_erase_block`: exactly the block reads 0xFF. */
  method EraseBlock(m: Master, g: Geometry, blockOffset: int) returns (ret: int)
    requires Ready(m, g)
    modifies m
    ensures Ready(m, g) && ret == TestAddress(g, blockOffset) && (ret == 0 <==> 0 <= blockOffset < g.size)
    ensures m.chip.mem == if ret == 0 then Erased(old(m.chip).mem, SectorBase(blockOffset, g.blockSize), g.blockSize)
                          else old(m.chip).mem
  {
    hide Erased, SectorBase;
    ret := TestAddress(g, blockOffset);
    if ret >= 0 {
      WriteEnable(m);
      SectorErase(m, blockOffset);
    }
  }

  /**
   `alt_epcs_flash_write_block`: the data is ANDed into its range and nothing else changes, because
   every page program the loop issues stays inside one page.
   */
  method WriteBlock(m: Master, g: Geometry, dataOffset: int, data: seq<byte>) returns (ret: int)
    requires Ready(m, g) && (0 <= dataOffset < g.size ==> dataOffset + |data| <= g.size)
    modifies m
    ensures Ready(m, g) && ret == TestAddress(g, dataOffset) && (ret == 0 <==> 0 <= dataOffset < g.size)
    ensures m.chip.mem == if ret == 0 then ProgramRange(old(m.chip).mem, dataOffset, data) else old(m.chip).mem
  {
    hide ProgramRange, Program;
    ret := TestAddress(g, dataOffset);
    if ret >= 0 {
      var offset, done := dataOffset, 0;
      ProgramNothing(m.chip.mem, dataOffset);
      while done < |data|
        invariant Ready(m, g) && 0 <= done <= |data|
        invariant offset == dataOffset + done || done == |data|
        invariant m.chip.mem == ProgramRange(old(m.chip).mem, dataOffset, data[..done])
      {
        var nextPage := (offset + PAGE_SIZE) / PAGE_SIZE * PAGE_SIZE;
        var n := Min(|data| - done, nextPage - offset);
        PageRoom(offset, n);
        ProgramInPage(m.chip.mem, offset, data[done..done + n]);
        ProgramRangeSplit(old(m.chip).mem, dataOffset, data[..done], data[done..done + n]);
        assert data[..done] + data[done..done + n] == data[..done + n];
        WriteBuffer(m, offset, data[done..done + n]);
        done := done + n;
        offset := nextPage;
      }
      assert data[..|data|] == data;
    }
  }

  lemma PageRoom(offset: nat, n: int)
    requires n <= (offset + 256) / 256 * 256 - offset
    ensures offset % 256 + n <= 256
    ensures offset < (offset + 256) / 256 * 256
  {
  }

  lemma ProgramNothing(mem: seq<byte>, offset: nat)
    ensures ProgramRange(mem, offset, []) == mem
  {
  }

  /** The work of `alt_epcs_flash_write` on one block: compare, and if different erase and program. */
  method UpdateBlock(m: Master, g: Geometry, block: nat, offset: nat, data: seq<byte>) returns (ret: int)
    requires Ready(m, g) && Start(block, g.blockSize)
    requires block <= offset < block + g.blockSize <= g.size && offset + |data| <= block + g.blockSize
    modifies m
    ensures Ready(m, g) && ret == 0
    ensures m.chip.mem == BlockWritten(old(m.chip).mem, block, g.blockSize, offset, data)
  {
    hide Matches, Erased, ProgramRange, SectorBase;
    ret := 0;
    var differs := FlashMemcmp(m, g, data, offset);
    if differs != 0 {
      BaseOf(block, block, g.blockSize);
      ret := EraseBlock(m, g, block);
      if ret == 0 {
        ret := WriteBlock(m, g, offset, data);
      }
    }
  }

  /** `current` is where block number `j` starts. */
  predicate AtBlock(g: Geometry, j: nat, current: nat) {
    current == j * g.blockSize && Start(current, g.blockSize)
  }

  lemma AtFirst(g: Geometry)
    requires g.blockSize > 0
    ensures AtBlock(g, 0, 0)
  {
    SmallRemainder(0, g.blockSize);
  }

  /** Room for one more block. */
  lemma AtNext(g: Geometry, j: nat, current: nat)
    requires Sound(g) && j < g.blocks && AtBlock(g, j, current)
    ensures Start(current, g.blockSize) && current + g.blockSize <= g.size
    ensures AtBlock(g, j + 1, current + g.blockSize) && Start(current + g.blockSize, g.blockSize)
  {
    MulMono(j + 1, g.blocks, g.blockSize);
    Aligned(current, g.blockSize);
  }

  lemma AtEnd(g: Geometry, current: nat)
    requires Sound(g) && AtBlock(g, g.blocks, current)
    ensures current == g.size && Start(current, g.blockSize)
  {
  }

  /** One block of the write, in terms of what is left of the source when it is reached. */
  lemma OneBlock(mem: seq<byte>, offset: nat, src: seq<byte>, bs: nat, current: nat, off: nat, n: nat)
    requires bs > 0 && Start(current, bs) && current <= off < current + bs <= |mem|
    requires offset <= off && (off == offset || off == current) && off - offset + n <= |src|
    requires n == Min(current + bs - off, |src| - (off - offset)) && (off > offset ==> n > 0)
    ensures Upto(mem, offset, src, bs, current + bs)
         == BlockWritten(Upto(mem, offset, src, bs, current), current, bs, off, src[off - offset..off - offset + n])
  {
    hide Upto, Start;
    if n > 0 {
      UptoNext(mem, offset, src, bs, current, off, off + n);
      assert off + n - offset == off - offset + n;
    } else {
      UptoSkip(mem, offset, src, bs, current);
      assert src[off - offset..off - offset + n] == [];
    }
  }

  /**
   `alt_epcs_flash_write`. For a start inside the device the memory afterwards is `EpcsSpec.Written`,
   whatever the length (a source that runs past the end is cut off there); for a start outside it
   nothing is written. Either way the call reports success.
   */
  method FlashWrite(m: Master, g: Geometry, offset: int, src: seq<byte>) returns (ret: int)
    requires Ready(m, g)
    modifies m
    ensures Ready(m, g) && ret == 0
    ensures m.chip.mem == if 0 <= offset < g.size then Written(old(m.chip).mem, offset, src, g.blockSize)
                          else old(m.chip).mem
  {
    hide Written, Upto, BlockWritten, Start, Sound, AtBlock;
    ret := 0;
    if 0 <= offset < g.size {
      var bs := g.blockSize;
      ghost var mem0 := m.chip.mem;
      var off, rest, current, j := offset, src, 0, 0;
      UptoZero(mem0, offset, src, bs);
      AtFirst(g);
      while j < g.blocks
        invariant Ready(m, g) && 0 <= j <= g.blocks && 0 <= current && AtBlock(g, j, current)
        invariant offset <= off && current <= off && (off == offset || off == current)
        invariant off - offset <= |src| && rest == src[off - offset..]
        invariant off > offset ==> rest != []
        invariant m.chip.mem == Upto(mem0, offset, src, bs, current)
        decreases g.blocks - j
      {
        AtNext(g, j, current);
        if current <= off < current + bs {
          var n := Min(current + bs - off, |rest|);
          OneBlock(mem0, offset, src, bs, current, off, n);
          assert rest[..n] == src[off - offset..off - offset + n];
          ret := UpdateBlock(m, g, current, off, rest[..n]);
          if |rest| == n || ret != 0 {
            UptoDone(mem0, offset, src, bs, current + bs);
            return;
          }
          rest, off := rest[n..], current + bs;
        } else {
          UptoSkip(mem0, offset, src, bs, current);
        }
        current, j := current + bs, j + 1;
      }
      AtEnd(g, current);
      UptoDone(mem0, offset, src, bs, current);
    }
  }

  /** A program that runs past the end of memory is cut off there. */
  lemma ProgramClip(mem: seq<byte>, offset: nat, src: seq<byte>, n: nat)
    requires n <= |src| && (n == |src| || offset + n >= |mem|)
    ensures ProgramRange(mem, offset, src[..n]) == ProgramRange(mem, offset, src)
  {
    if n == |src| {
      assert src[..n] == src;
    }
  }

  /** The work of `epcs_flash_write` on one block: program it unless it already matches. */
  method ProgramBlock(m: Master, g: Geometry, offset: nat, data: seq<byte>) returns (ret: int)
    requires Ready(m, g) && offset < g.size && offset + |data| <= g.size
    modifies m
    ensures Ready(m, g) && ret == 0
    ensures m.chip.mem == ProgramRange(old(m.chip).mem, offset, data)
  {
    hide Matches, ProgramRange;
    ret := 0;
    var differs := FlashMemcmp(m, g, data, offset);
    if differs != 0 {
      ret := WriteBlock(m, g, offset, data);
    } else {
      ProgramSame(m.chip.mem, offset, data);
    }
  }

  /**
   `epcs_flash_write`: no erase, so every byte of the range ends as the old byte AND the source byte,
   whether or not the compare let a block be skipped, and every other byte is unchanged.
   */
  method FlashProgram(m: Master, g: Geometry, offset: int, src: seq<byte>) returns (ret: int)
    requires Ready(m, g)
    modifies m
    ensures Ready(m, g) && ret == 0
    ensures m.chip.mem == if 0 <= offset < g.size then ProgramRange(old(m.chip).mem, offset, src) else old(m.chip).mem
  {
    hide ProgramRange, Start, Sound, AtBlock;
    ret := 0;
    if 0 <= offset < g.size {
      var bs := g.blockSize;
      ghost var mem0 := m.chip.mem;
      var off, rest, current, j := offset, src, 0, 0;
      ProgramNothing(mem0, offset);
      AtFirst(g);
      while j < g.blocks
        invariant Ready(m, g) && 0 <= j <= g.blocks && 0 <= current && AtBlock(g, j, current)
        invariant offset <= off && current <= off && (off == offset || off == current)
        invariant off - offset <= |src| && rest == src[off - offset..]
        invariant m.chip.mem == ProgramRange(mem0, offset, src[..off - offset])
        decreases g.blocks - j
      {
        AtNext(g, j, current);
        if current <= off < current + bs {
          var n := Min(current + bs - off, |rest|);
          ProgramRangeSplit(mem0, offset, src[..off - offset], rest[..n]);
          assert src[..off - offset] + rest[..n] == src[..off - offset + n];
          ret := ProgramBlock(m, g, off, rest[..n]);
          if |rest| == n || ret != 0 {
            ProgramClip(mem0, offset, src, off - offset + n);
            return;
          }
          rest, off := rest[n..], current + bs;
        }
        current, j := current + bs, j + 1;
      }
      AtEnd(g, current);
      ProgramClip(mem0, offset, src, off - offset);
    }
  }

  /**
   `epcs_bwrite`: for a request inside the device, success means the flash now holds the buffer, which
   is so exactly when no bit had to go from 0 to 1.
   */
  method BlockWrite(m: Master, g: Geometry, pos: nat, buf: seq<byte>) returns (ret: int)
    requires Ready(m, g)
    modifies m
    ensures Ready(m, g)
    ensures m.chip.mem == if pos < g.size then ProgramRange(old(m.chip).mem, pos, buf) else old(m.chip).mem
    ensures pos + |buf| <= g.size ==> (ret == 0 <==> m.chip.mem[pos..pos + |buf|] == buf)
    ensures pos + |buf| <= g.size ==>
      (ret == 0 <==> forall i :: 0 <= i < |buf| ==> And(old(m.chip).mem[pos + i], buf[i]) == buf[i])
    ensures pos >= g.size && buf != [] ==> ret != 0
  {
    hide Matches, ProgramRange, And;
    ghost var mem0 := m.chip.mem;
    ret := FlashProgram(m, g, pos, buf);
    if ret == 0 {
      ret := FlashMemcmp(m, g, buf, pos);
    }
    if pos + |buf| <= g.size {
      if pos < g.size {
        ProgramHolds(mem0, pos, buf);
      }
    }
  }

  lemma ProgramHolds(mem: seq<byte>, pos: nat, buf: seq<byte>)
    requires pos + |buf| <= |mem|
    ensures ProgramRange(mem, pos, buf)[pos..pos + |buf|] == buf
       <==> forall i :: 0 <= i < |buf| ==> And(mem[pos + i], buf[i]) == buf[i]
  {
    hide And;
    var r := ProgramRange(mem, pos, buf);
    assert forall i :: 0 <= i < |buf| ==> r[pos..pos + |buf|][i] == And(mem[pos + i], buf[i]);
  }

  /** Eight bytes of an erased block. */
  function Blank(n: nat): (r: seq<byte>)
    ensures |r| == n
  {
    seq(n, _ => 255)
  }

  /** The scan of `cyg_epcs_erase_blocks`: is the whole block blank? */
  method BlockErased(m: Master, g: Geometry, current: nat) returns (erased: bool)
    requires Ready(m, g) && g.blockSize % 8 == 0 && (current + g.blockSize <= g.size || current >= g.size)
    modifies m
    ensures Ready(m, g) && m.chip.mem == old(m.chip).mem
    ensures current + g.blockSize <= g.size ==>
      (erased <==> forall i :: current <= i < current + g.blockSize ==> m.chip.mem[i] == 255)
    ensures current >= g.size ==> !erased
  {
    hide Matches, Sound;
    erased := true;
    var sample := Blank(8);
    var j := 0;
    while j < g.blockSize
      invariant Ready(m, g) && m.chip.mem == old(m.chip).mem && 0 <= j <= g.blockSize && j % 8 == 0
      invariant current >= g.size ==> j == 0
      invariant current + g.blockSize <= g.size ==> forall i :: current <= i < current + j ==> m.chip.mem[i] == 255
    {
      var differs := FlashMemcmp(m, g, sample, current + j);
      if current + g.blockSize <= g.size {
        BlankAt(m.chip.mem, current + j);
      }
      if differs != 0 {
        erased := false;
        break;
      }
      j := j + 8;
    }
  }

  lemma BlankAt(mem: seq<byte>, at: nat)
    requires at + 8 <= |mem|
    ensures mem[at..at + 8] == Blank(8) <==> forall i :: at <= i < at + 8 ==> mem[i] == 255
  {
    assert forall i :: at <= i < at + 8 ==> mem[i] == mem[at..at + 8][i - at];
  }

  /** Whole blocks: a positive aligned length holds at least one, and one less is aligned too. */
  lemma AlignedLess(x: nat, n: nat)
    requires Start(x, n) && x > 0
    ensures x >= n && Start(x - n, n)
  {
    assert x == n * (x / n);
    MulAtLeast(x / n, n);
    assert x - n == n * (x / n - 1);
    MulMod(x / n - 1, n);
  }

  /** Of two aligned addresses the smaller leaves room for a block before the larger. */
  lemma AlignedRoom(a: nat, b: nat, n: nat)
    requires Start(a, n) && Start(b, n) && a < b
    ensures a + n <= b
  {
    if b < a + n {
      BaseOf(b, a, n);
      BaseOf(b, b, n);
    }
  }

  lemma SizeAligned(g: Geometry)
    requires Sound(g)
    ensures Start(g.size, g.blockSize) && g.blockSize % 8 == 0
  {
    MulMod(g.blocks, g.blockSize);
  }

  lemma ErasedMore(mem: seq<byte>, lo: nat, n: nat, bs: nat)
    ensures Erased(Erased(mem, lo, n), lo + n, bs) == Erased(mem, lo, n + bs)
  {
  }

  lemma ErasedBlank(mem: seq<byte>, lo: nat, n: nat)
    requires forall i :: lo <= i < lo + n && i < |mem| ==> mem[i] == 255
    ensures Erased(mem, lo, n) == mem
  {
  }

  /**
   `cyg_epcs_erase_blocks` for whole blocks: exactly the range reads 0xFF afterwards (as far as it lies
   in the device), although blocks that were blank already are not erased again.
   */
  method EraseBlocks(m: Master, g: Geometry, offset: nat, len: nat) returns (ret: int)
    requires Ready(m, g) && Start(offset, g.blockSize) && Start(len, g.blockSize)
    modifies m
    ensures Ready(m, g) && ret == 0
    ensures m.chip.mem == if offset < g.size then Erased(old(m.chip).mem, offset, len) else old(m.chip).mem
  {
    hide Erased, Start, Sound;
    ret := 0;
    SizeAligned(g);
    if offset < g.size {
      var bs := g.blockSize;
      ghost var mem0 := m.chip.mem;
      var off, left, current := offset, len, 0;
      StartZero(bs);
      ErasedBlank(mem0, offset, 0);
      while left > 0
        invariant Ready(m, g) && 0 <= left <= len && 0 <= current <= off
        invariant Start(current, bs) && Start(off, bs) && Start(left, bs)
        invariant off - offset == len - left
        invariant m.chip.mem == Erased(mem0, offset, off - offset)
        decreases left, off - current
      {
        AlignedLess(left, bs);
        StartNext(current, bs);
        if current <= off < current + bs {
          BaseOf(off, current, bs);
          BaseOf(off, off, bs);
          if current < g.size {
            AlignedRoom(current, g.size, bs);
          }
          ErasedMore(mem0, offset, off - offset, bs);
          EraseOne(m, g, current);
          left, off := left - bs, current + bs;
        } else {
          AlignedRoom(current, off, bs);
        }
        current := current + bs;
      }
    }
  }

  /** The loop's work on one block. */
  method EraseOne(m: Master, g: Geometry, current: nat)
    requires Ready(m, g) && Start(current, g.blockSize) && g.blockSize % 8 == 0
    requires current + g.blockSize <= g.size || current >= g.size
    modifies m
    ensures Ready(m, g) && m.chip.mem == Erased(old(m.chip).mem, current, g.blockSize)
  {
    hide Erased, Sound;
    var erased := BlockErased(m, g, current);
    if !erased {
      BaseOf(current, current, g.blockSize);
      var _ := EraseBlock(m, g, current);
      if current >= g.size {
        ErasedBlank(m.chip.mem, current, g.blockSize);
      }
    } else {
      ErasedBlank(m.chip.mem, current, g.blockSize);
    }
  }

  lemma StartZero(bs: nat)
    requires bs > 0
    ensures Start(0, bs)
  {
    SmallRemainder(0, bs);
  }

  lemma StartNext(x: nat, bs: nat)
    requires Start(x, bs)
    ensures Start(x + bs, bs)
  {
    Aligned(x, bs);
  }
}
