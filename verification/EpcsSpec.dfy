/** What the flash routines promise about memory, as functions of the memory before the call. */
module EpcsSpec {
  import opened Arith
  import opened Options
  import opened Bytes
  import opened EpcsChip

  /** The one erase region the controller's query fills in. */
  datatype Geometry = Geometry(size: nat, blocks: nat, blockSize: nat)

  predicate Sound(g: Geometry) {
    && g.blockSize > 0 && g.blockSize % 256 == 0
    && 0 < g.size <= 0x100_0000
    && g.size == g.blocks * g.blockSize
  }

  /** `alt_epcs_flash_query`: the table, by electronic signature and then by device id. */
  function Query(signature: byte, deviceId: byte): Option<Geometry> {
    if signature == 0x16 then Some(Geometry(64 * 1024 * 1024 / 8, 128, 65536))
    else if signature == 0x14 then Some(Geometry(16 * 1024 * 1024 / 8, 32, 65536))
    else if signature == 0x13 then Some(Geometry(8 * 1024 * 1024 / 8, 16, 65536))
    else if signature == 0x12 then Some(Geometry(4 * 1024 * 1024 / 8, 8, 65536))
    else if signature == 0x10 then Some(Geometry(1 * 1024 * 1024 / 8, 4, 32768))
    else if deviceId == 0x18 then Some(Geometry(128 * 1024 * 1024 / 8, 64, 262144))
    else None
  }

  /** The capacity an EPCS device is named after, by its electronic signature. */
  function Megabits(signature: byte): nat {
    match signature
    case 0x16 => 64
    case 0x14 => 16
    case 0x13 => 8
    case 0x12 => 4
    case 0x10 => 1
    case _ => 128
  }

  /** Every device the query recognises has its capacity, its sectors, and the shape the other results ask for. */
  lemma QuerySound(signature: byte, deviceId: byte)
    ensures Query(signature, deviceId).Some? ==> Sound(Query(signature, deviceId).value)
    ensures Query(signature, deviceId).Some? <==> signature in {0x16, 0x14, 0x13, 0x12, 0x10} || deviceId == 0x18
    ensures Query(signature, deviceId).Some? ==>
      var g := Query(signature, deviceId).value;
      && g.size * 8 == Megabits(signature) * 0x10_0000
      && g.blockSize == if Megabits(signature) == 1 then 0x8000
                        else if Megabits(signature) == 128 then 0x4_0000 else 0x1_0000
  {
  }

  function Max(a: int, b: int): int {
    if a < b then b else a
  }

  function Min(a: int, b: int): int {
    if a < b then a else b
  }

  /** The part of the target range [off, off + n) that lies in the block starting at `b`. */
  function Lo(off: nat, b: nat): nat {
    Max(off, b)
  }

  function Hi(off: nat, n: nat, b: nat, bs: nat): nat {
    Min(off + n, b + bs)
  }

  /** The memory already holds what the caller wants in the block starting at `b`. */
  predicate Equal(mem: seq<byte>, off: nat, src: seq<byte>, b: nat, bs: nat) {
    var lo, hi := Lo(off, b), Hi(off, |src|, b, bs);
    lo < hi <= |mem| && mem[lo..hi] == src[lo - off..hi - off]
  }

  /** What `alt_epcs_flash_write` leaves at address `i`. */
  function NewByte(mem: seq<byte>, off: nat, src: seq<byte>, bs: nat, i: nat): byte
    requires i < |mem| && bs > 0
  {
    var b := SectorBase(i, bs);
    if Lo(off, b) >= Hi(off, |src|, b, bs) || Equal(mem, off, src, b, bs) then mem[i]
    else if off <= i < off + |src| then src[i - off]
    else 255
  }

  function Written(mem: seq<byte>, off: nat, src: seq<byte>, bs: nat): (r: seq<byte>)
    requires bs > 0
    ensures |r| == |mem|
  {
    seq(|mem|, i requires 0 <= i < |mem| => NewByte(mem, off, src, bs, i))
  }

  /**
   What a completed write means: the target range holds the source; a block the range does not touch,
   and a block that already held what was wanted of it, are unchanged; in any other block every byte
   outside the range reads 0xFF.
   */
  lemma WrittenMeans(mem: seq<byte>, off: nat, src: seq<byte>, bs: nat, i: nat)
    requires bs > 0 && i < |mem|
    ensures var b := SectorBase(i, bs); var w := Written(mem, off, src, bs);
      && (off <= i < off + |src| ==> w[i] == src[i - off])
      && (Lo(off, b) >= Hi(off, |src|, b, bs) || Equal(mem, off, src, b, bs) ==> w[i] == mem[i])
      && (Lo(off, b) < Hi(off, |src|, b, bs) && !Equal(mem, off, src, b, bs) && !(off <= i < off + |src|) ==>
            w[i] == 255)
  {
    hide SectorBase, Equal, NewByte, Lo, Hi;
    var b := SectorBase(i, bs);
    assert Written(mem, off, src, bs)[i] == NewByte(mem, off, src, bs, i);
    NewByteIs(mem, off, src, bs, i);
    if off <= i < off + |src| {
      EqualAt(mem, off, src, b, bs, i);
    }
  }

  lemma NewByteIs(mem: seq<byte>, off: nat, src: seq<byte>, bs: nat, i: nat)
    requires bs > 0 && i < |mem|
    ensures var b := SectorBase(i, bs);
      NewByte(mem, off, src, bs, i) ==
        if Lo(off, b) >= Hi(off, |src|, b, bs) || Equal(mem, off, src, b, bs) then mem[i]
        else if off <= i < off + |src| then src[i - off] else 255
  {
    hide SectorBase, Equal, Lo, Hi;
  }

  lemma EqualAt(mem: seq<byte>, off: nat, src: seq<byte>, b: nat, bs: nat, i: nat)
    requires b <= i < b + bs && off <= i < off + |src| && i < |mem|
    ensures Lo(off, b) < Hi(off, |src|, b, bs)
    ensures Equal(mem, off, src, b, bs) ==> mem[i] == src[i - off]
  {
    var lo, hi := Lo(off, b), Hi(off, |src|, b, bs);
    if Equal(mem, off, src, b, bs) {
      SliceAt(mem, src, lo, hi, off, i);
    }
  }

  lemma SliceAt(a: seq<byte>, b: seq<byte>, lo: nat, hi: nat, off: nat, i: nat)
    requires off <= lo <= i < hi <= |a| && hi - off <= |b| && a[lo..hi] == b[lo - off..hi - off]
    ensures a[i] == b[i - off]
  {
    assert a[lo..hi][i - lo] == b[lo - off..hi - off][i - lo];
  }

  /** One block of the write: nothing if it already matches, else erase the block and program the data. */
  function BlockWritten(mem: seq<byte>, b: nat, bs: nat, off: nat, data: seq<byte>): (r: seq<byte>)
    requires off + |data| <= |mem|
    ensures |r| == |mem|
  {
    if mem[off..off + |data|] == data then mem else ProgramRange(Erased(mem, b, bs), off, data)
  }

  /** The write done for the blocks below `limit`. */
  function Upto(mem: seq<byte>, off: nat, src: seq<byte>, bs: nat, limit: nat): (r: seq<byte>)
    requires bs > 0
    ensures |r| == |mem|
  {
    seq(|mem|, i requires 0 <= i < |mem| => if i < limit then NewByte(mem, off, src, bs, i) else mem[i])
  }

  /** `x` is where a block starts. */
  predicate Start(x: nat, n: nat) {
    n > 0 && x % n == 0
  }

  lemma Aligned(x: nat, n: nat)
    requires Start(x, n)
    ensures Start(x + n, n)
  {
    assert x == n * (x / n);
    assert x + n == n * (x / n + 1);
    MulMod(x / n + 1, n);
  }

  lemma MulMod(q: nat, n: nat)
    requires n > 0
    ensures (n * q) % n == 0
  {
    var d, r := (n * q) / n, (n * q) % n;
    assert n * q == n * d + r;
    assert n * (q - d) == r;
    if q - d >= 1 {
      MulAtLeast(q - d, n);
    }
    if d - q >= 1 {
      MulAtLeast(d - q, n);
    }
  }

  lemma BaseOf(i: nat, b: nat, bs: nat)
    requires Start(b, bs) && b <= i < b + bs
    ensures SectorBase(i, bs) == b
  {
    var q, q' := b / bs, i / bs;
    assert b == bs * q && i == bs * q' + i % bs;
    if q' > q {
      MulAtLeast(q' - q, bs);
    }
    if q > q' {
      MulAtLeast(q - q', bs);
    }
  }

  lemma NewByteInBlock(mem: seq<byte>, off: nat, src: seq<byte>, bs: nat, b: nat, i: nat)
    requires Start(b, bs) && bs > 0 && b <= i < b + bs <= |mem|
    ensures var lo, hi := Lo(off, b), Hi(off, |src|, b, bs);
      NewByte(mem, off, src, bs, i) ==
        (if lo >= hi || mem[lo..hi] == src[lo - off..hi - off] then mem[i]
         else if lo <= i < hi then src[i - off] else 255)
  {
    hide SectorBase, Start;
    BaseOf(i, b, bs);
    NewByteIs(mem, off, src, bs, i);
  }

  lemma BlockWrittenAt(mem: seq<byte>, b: nat, bs: nat, off: nat, data: seq<byte>, i: nat)
    requires b <= off && off + |data| <= b + bs <= |mem| && i < |mem|
    ensures BlockWritten(mem, b, bs, off, data)[i] ==
      if mem[off..off + |data|] == data || !(b <= i < b + bs) then mem[i]
      else if off <= i < off + |data| then data[i - off]
      else 255
  {
    hide And;
    var f := Erased(mem, b, bs);
    assert f[i] == if b <= i < b + bs then 255 else mem[i];
    if off <= i < off + |data| {
      AndErased(data[i - off]);
      assert ProgramRange(f, off, data)[i] == data[i - off];
    } else {
      assert ProgramRange(f, off, data)[i] == f[i];
    }
  }

  lemma UptoSlice(mem: seq<byte>, off: nat, src: seq<byte>, bs: nat, b: nat, lo: nat, hi: nat)
    requires bs > 0 && b <= lo <= hi <= |mem|
    ensures Upto(mem, off, src, bs, b)[lo..hi] == mem[lo..hi]
  {
    hide NewByte;
  }

  /** A block the range does not touch: moving the limit past it changes nothing. */
  lemma UptoSkip(mem: seq<byte>, off: nat, src: seq<byte>, bs: nat, b: nat)
    requires Start(b, bs) && bs > 0 && b + bs <= |mem| && Lo(off, b) >= Hi(off, |src|, b, bs)
    ensures Upto(mem, off, src, bs, b + bs) == Upto(mem, off, src, bs, b)
  {
    hide NewByte, Start;
    forall i | b <= i < b + bs
      ensures NewByte(mem, off, src, bs, i) == mem[i]
    {
      NewByteInBlock(mem, off, src, bs, b, i);
    }
  }

  lemma UptoNextAt(mem: seq<byte>, off: nat, src: seq<byte>, bs: nat, b: nat, lo: nat, hi: nat, i: nat)
    requires Start(b, bs) && bs > 0 && b + bs <= |mem| && lo == Lo(off, b) < Hi(off, |src|, b, bs) == hi && i < |mem|
    ensures Upto(mem, off, src, bs, b + bs)[i]
         == BlockWritten(Upto(mem, off, src, bs, b), b, bs, lo, src[lo - off..hi - off])[i]
  {
    hide NewByte, Start, BlockWritten;
    var u := Upto(mem, off, src, bs, b);
    UptoSlice(mem, off, src, bs, b, lo, hi);
    BlockWrittenAt(u, b, bs, lo, src[lo - off..hi - off], i);
    if b <= i < b + bs {
      NewByteInBlock(mem, off, src, bs, b, i);
    }
  }

  /** A block it does touch: moving the limit past it is one block write. */
  lemma UptoNext(mem: seq<byte>, off: nat, src: seq<byte>, bs: nat, b: nat, lo: nat, hi: nat)
    requires Start(b, bs) && bs > 0 && b + bs <= |mem| && lo == Lo(off, b) < Hi(off, |src|, b, bs) == hi
    ensures Upto(mem, off, src, bs, b + bs)
         == BlockWritten(Upto(mem, off, src, bs, b), b, bs, lo, src[lo - off..hi - off])
  {
    hide Upto, Start, BlockWritten;
    var v := Upto(mem, off, src, bs, b + bs);
    var w := BlockWritten(Upto(mem, off, src, bs, b), b, bs, lo, src[lo - off..hi - off]);
    forall i | 0 <= i < |mem|
      ensures v[i] == w[i]
    {
      UptoNextAt(mem, off, src, bs, b, lo, hi, i);
    }
  }

  /** Done up to the end of the target range or of the memory, the write is done. */
  lemma UptoDone(mem: seq<byte>, off: nat, src: seq<byte>, bs: nat, limit: nat)
    requires Start(limit, bs) && bs > 0 && (limit >= |mem| || limit >= off + |src|)
    ensures Upto(mem, off, src, bs, limit) == Written(mem, off, src, bs)
  {
    forall i | limit <= i < |mem|
      ensures NewByte(mem, off, src, bs, i) == mem[i]
    {
      BaseAtLeast(i, limit, bs);
    }
  }

  lemma BaseAtLeast(i: nat, limit: nat, bs: nat)
    requires Start(limit, bs) && limit <= i
    ensures SectorBase(i, bs) >= limit
  {
    var q, q' := limit / bs, i / bs;
    assert limit == bs * q && i == bs * q' + i % bs && SectorBase(i, bs) == bs * q';
    if q > q' {
      MulAtLeast(q - q', bs);
    } else {
      MulMono(q, q', bs);
    }
  }

  /** Nothing done yet. */
  lemma UptoZero(mem: seq<byte>, off: nat, src: seq<byte>, bs: nat)
    requires bs > 0
    ensures Upto(mem, off, src, bs, 0) == mem
  {
  }

  /** Programming data the memory already holds changes nothing. */
  lemma ProgramSame(mem: seq<byte>, off: nat, data: seq<byte>)
    requires off + |data| <= |mem| && mem[off..off + |data|] == data
    ensures ProgramRange(mem, off, data) == mem
  {
    hide And;
    forall i | off <= i < off + |data|
      ensures And(mem[i], data[i - off]) == mem[i]
    {
      assert mem[i] == mem[off..off + |data|][i - off];
      AndAgain(0, mem[i]);
    }
  }
}
