/** The S-record writer, and the reader as its inverse. */
module SrecWrite {
  import opened Arith
  import opened Bytes
  import opened SrecText
  import opened SrecRead

  const HEADER: string := "S00600004844521B"

  /** The address width after widening for the highest address. */
  function Width(ab: nat, maxAddr: nat): (r: nat)
    requires 2 <= ab <= 4 && maxAddr < WORD
    ensures ab <= r <= 4 && maxAddr < Pow16(2 * r)
    ensures r == ab || maxAddr >= Pow16(2 * (r - 1))
  {
    assert Pow16(2) == 0x100 && Pow16(4) == 0x1_0000;
    assert Pow16(6) == 0x100_0000 && Pow16(8) == 0x1_0000_0000;
    var wide := if maxAddr > 0xffff && ab < 3 then 3 else ab;
    if maxAddr > 0xff_ffff && wide < 4 then 4 else wide
  }

  // ---- Records that tile a range ----

  /** The records hold `data` from address `at` on, in order, without gap or overlap, none of them empty. */
  predicate Tiles(recs: seq<Rec>, at: nat, data: seq<byte>) {
    if recs == [] then data == []
    else
      var r := recs[|recs| - 1];
      var m := |data| - |r.data|;
      && 0 < |r.data| <= |data| && r.address == at + m && r.data == data[m..]
      && Tiles(recs[..|recs| - 1], at, data[..m])
  }

  /** Every record but the last is full. */
  predicate Cuts(recs: seq<Rec>, width: nat) {
    forall i :: 0 <= i < |recs| ==> |recs[i].data| <= width && (i < |recs| - 1 ==> |recs[i].data| == width)
  }

  /** Neighbours touch, the first record starts the range and the last one ends it. */
  lemma {:induction false} TilesTouch(recs: seq<Rec>, at: nat, data: seq<byte>)
    requires Tiles(recs, at, data) && recs != []
    ensures recs[0].address == at && EndOf(recs[|recs| - 1]) == at + |data|
    ensures forall i :: 0 < i < |recs| ==> recs[i].address == EndOf(recs[i - 1])
  {
    var front := recs[..|recs| - 1];
    if front != [] {
      TilesTouch(front, at, data[..|data| - |recs[|recs| - 1].data|]);
    }
  }

  /** The scanned extent of a tiling is the range. */
  lemma TilesExtent(recs: seq<Rec>, at: nat, data: seq<byte>)
    requires Tiles(recs, at, data) && data != [] && at + |data| < WORD
    ensures Lowest(recs, WORD - 1) == at && Highest(recs, 0) == at + |data|
    ensures Words(recs) && HasData(recs)
  {
    hide Tiles, Lowest, Highest;
    if recs == [] {
      EmptyTiles(at, data);
    } else {
      TilesTouch(recs, at, data);
      forall i | 0 <= i < |recs| ensures at <= recs[i].address < EndOf(recs[i]) <= at + |data| {
        TilesInside(recs, at, data, i);
      }
      assert EndOf(recs[0]) > recs[0].address;
    }
  }

  lemma {:induction false} TilesCell(recs: seq<Rec>, at: nat, data: seq<byte>, a: int, filler: byte)
    requires Tiles(recs, at, data)
    ensures Cell(recs, a, filler) == if at <= a < at + |data| then data[a - at] else filler
  {
    if recs != [] {
      TilesCell(recs[..|recs| - 1], at, data[..|data| - |recs[|recs| - 1].data|], a, filler);
    }
  }

  /** The reader's image of a tiling: filler up to the range, then the range. */
  lemma TilesImage(recs: seq<Rec>, at: nat, data: seq<byte>, optMin: nat, filler: byte)
    requires Tiles(recs, at, data) && data != [] && at + |data| < WORD && optMin < WORD
    ensures var lo := if optMin < at then optMin else at;
            Image(recs, optMin, 0, filler) == Fill(filler, at - lo) + data
  {
    hide Cell, Image, FillSize, Tiles, HasData, Words, Lowest, Highest;
    TilesExtent(recs, at, data);
    ImageMeans(recs, optMin, 0, filler);
    var lo := if optMin < at then optMin else at;
    var out := Image(recs, optMin, 0, filler);
    assert Base(recs, optMin) == lo && Limit(recs, optMin, 0) == at + |data|;
    forall i | 0 <= i < |out| ensures out[i] == (Fill(filler, at - lo) + data)[i] {
      TilesCell(recs, at, data, lo + i, filler);
    }
  }

  lemma EmptyTiles(at: nat, data: seq<byte>)
    requires Tiles([], at, data)
    ensures data == []
  {
  }

  // ---- Lines ----

  function Flatten(lines: seq<string>): string {
    if lines == [] then "" else lines[0] + Flatten(lines[1..])
  }

  predicate GoodLine(l: string) {
    && 1 <= |l| < LINE_LEN && l[|l| - 1] == '\n'
    && forall i :: 0 <= i < |l| - 1 ==> l[i] != '\n'
  }

  lemma {:induction false} CutLine(l: string, rest: string, room: nat)
    requires 1 <= |l| <= room && l[|l| - 1] == '\n' && forall i :: 0 <= i < |l| - 1 ==> l[i] != '\n'
    ensures Cut(l + rest, room) == |l|
  {
    if |l| > 1 {
      assert (l + rest)[1..] == l[1..] + rest;
      CutLine(l[1..], rest, room - 1);
    }
  }

  /** Lines printed one after the other are read back as they were printed. */
  lemma {:induction false} LinesBack(lines: seq<string>)
    requires forall i :: 0 <= i < |lines| ==> GoodLine(lines[i])
    ensures LinesOf(Flatten(lines)) == lines
  {
    hide Cut;
    if lines != [] {
      var l, rest := lines[0], Flatten(lines[1..]);
      CutLine(l, rest, LINE_LEN - 1);
      assert (l + rest)[..|l|] == l && (l + rest)[|l|..] == rest;
      LinesBack(lines[1..]);
    }
  }

  lemma {:induction false} FlattenAppend(a: seq<string>, b: seq<string>)
    ensures Flatten(a + b) == Flatten(a) + Flatten(b)
  {
    if a == [] {
      assert a + b == b;
    } else {
      assert (a + b)[1..] == a[1..] + b;
      FlattenAppend(a[1..], b);
    }
  }

  // ---- The text the writer prints ----

  predicate Printable(r: Rec, ab: nat) {
    2 <= ab <= 4 && |r.data| <= 32 && r.address < Pow16(2 * ab) && EndOf(r) < WORD
  }

  predicate AllPrintable(recs: seq<Rec>, ab: nat) {
    2 <= ab <= 4 && forall i :: 0 <= i < |recs| ==> Printable(recs[i], ab)
  }

  function DataLine(r: Rec, ab: nat): string
    requires Printable(r, ab)
  {
    Record(ab - 1, ab, r.address, r.data) + "\n"
  }

  function DataLines(recs: seq<Rec>, ab: nat): (ls: seq<string>)
    requires AllPrintable(recs, ab)
    ensures |ls| == |recs|
  {
    if recs == [] then [] else DataLines(recs[..|recs| - 1], ab) + [DataLine(recs[|recs| - 1], ab)]
  }

  /** "%X". */
  function Digits(n: nat): string {
    if n < 16 then [HexDigit(n)] else Digits(n / 16) + [HexDigit(n % 16)]
  }

  /** "%04X": at least four digits, more when the number needs them. */
  function Digits4(n: nat): string {
    var d := Digits(n);
    if |d| < 4 then seq(4 - |d|, _ => '0') + d else d
  }

  function CountLine(n: nat): string {
    "S503" + Digits4(n) + Hex2(255 - (3 + n % 256 + n / 256 % 256) % 256)
  }

  function Lines(recs: seq<Rec>, ab: nat, offset: nat, headers: bool): seq<string>
    requires AllPrintable(recs, ab)
  {
    if headers then
      [HEADER + "\n"] + DataLines(recs, ab) + [CountLine(|recs|) + "\n", Record(11 - ab, ab, offset, []) + "\n"]
    else DataLines(recs, ab)
  }

  lemma NoNewline(kind: nat, ab: nat, address: nat, data: seq<byte>)
    requires kind < 10 && 2 <= ab <= 4 && |data| <= 32
    ensures GoodLine(Record(kind, ab, address, data) + "\n")
  {
    hide HexAll, Sum, AddrBytes, Shift8, HexDigit;
    var s := Record(kind, ab, address, data);
    forall i | 0 <= i < |s| ensures s[i] != '\n' {
      RecordHasNoNewline(kind, ab, address, data, i);
    }
  }

  lemma {:induction false} DigitsBound(n: nat, k: nat)
    requires k >= 1 && n < Pow16(k)
    ensures 1 <= |Digits(n)| <= k && forall i :: 0 <= i < |Digits(n)| ==> Digits(n)[i] != '\n'
  {
    hide HexDigit;
    if n >= 16 {
      assert k > 1;
      assert Pow16(k) == 16 * Pow16(k - 1);
      DigitsBound(n / 16, k - 1);
    }
  }

  lemma EightDigits()
    ensures Pow16(8) == WORD
  {
    assert Pow16(4) == 0x1_0000;
  }

  lemma CountLineGood(n: nat)
    requires n < WORD
    ensures GoodLine(CountLine(n) + "\n") && !IsData(CountLine(n) + "\n")
  {
    hide Digits, Pow16, HexDigit;
    EightDigits();
    DigitsBound(n, 8);
  }

  lemma HeaderGood()
    ensures HEADER == Record(0, 2, 0, [0x48, 0x44, 0x52])
    ensures GoodLine(HEADER + "\n") && !IsData(HEADER + "\n")
  {
    hide HexAll, Sum, AddrBytes;
    HeaderSum();
    HeaderDigits();
    LowByteLast(0, 2);
    LowByteLast(0, 1);
    assert Payload(2, 0, [0x48, 0x44, 0x52]) == [6, 0, 0, 0x48, 0x44, 0x52];
    assert [6, 0, 0, 0x48, 0x44, 0x52] + [0x1b] == [6, 0, 0, 0x48, 0x44, 0x52, 0x1b];
  }

  lemma HeaderSum()
    ensures Checksum([6, 0, 0, 0x48, 0x44, 0x52]) == 0x1b
  {
    var p: seq<byte> := [6, 0, 0, 0x48, 0x44, 0x52];
    assert p[..5][..4] == p[..4] && p[..4][..3] == p[..3] && p[..3][..2] == p[..2] && p[..2][..1] == p[..1];
    assert p[..1][..0] == [];
    assert Sum(p[..1]) == 6 && Sum(p[..2]) == 6 && Sum(p[..3]) == 6;
    assert Sum(p[..4]) == 78 && Sum(p[..5]) == 146 && Sum(p) == 228;
  }

  lemma HeaderDigits()
    ensures HexAll([6, 0, 0, 0x48, 0x44, 0x52, 0x1b]) == "0600004844521B"
  {
    hide HexAll;
    var p: seq<byte> := [6, 0, 0, 0x48, 0x44, 0x52, 0x1b];
    var t := HexAll(p);
    forall i | 0 <= i < 7 ensures t[2 * i] == Hex2(p[i])[0] && t[2 * i + 1] == Hex2(p[i])[1] {
      HexAllAt(p, i);
    }
    assert t[2 * 0] == '0' && t[2 * 0 + 1] == '6' && t[2 * 1] == '0' && t[2 * 1 + 1] == '0';
    assert t[2 * 2] == '0' && t[2 * 2 + 1] == '0' && t[2 * 3] == '4' && t[2 * 3 + 1] == '8';
    assert t[2 * 4] == '4' && t[2 * 4 + 1] == '4' && t[2 * 5] == '5' && t[2 * 5 + 1] == '2';
    assert t[2 * 6] == '1' && t[2 * 6 + 1] == 'B';
  }

  lemma {:induction false} DigitsAtLeast(n: nat, k: nat)
    requires n >= Pow16(k)
    ensures |Digits(n)| > k
  {
    hide HexDigit;
    if k > 0 {
      assert Pow16(k) == 16 * Pow16(k - 1) && Pow16(k - 1) >= 1 by {
        PowPositive(k - 1);
      }
      DigitsAtLeast(n / 16, k - 1);
    }
  }

  lemma {:induction false} PowPositive(k: nat)
    ensures Pow16(k) >= 1
  {
    if k > 0 {
      PowPositive(k - 1);
    }
  }

  lemma FourDigits(n: nat)
    requires n < 0x1_0000
    ensures Digits4(n) == Hex2(n / 256) + Hex2(n % 256)
  {
    assert HexDigit(0) == '0';
    if n < 16 {
      assert Digits4(n) == "000" + Digits(n);
    } else if n < 256 {
      assert Digits(n) == Digits(n / 16) + [HexDigit(n % 16)];
      assert Digits4(n) == "00" + Digits(n);
    } else if n < 0x1000 {
      assert n / 16 / 16 == n / 256 && n / 16 % 16 == n % 256 / 16 && n % 256 % 16 == n % 16;
      assert Digits(n) == Digits(n / 256) + [HexDigit(n / 16 % 16)] + [HexDigit(n % 16)];
    } else {
      assert n / 16 / 16 == n / 256 && n / 16 % 16 == n % 256 / 16 && n % 256 % 16 == n % 16;
      assert Digits(n) == Digits(n / 256) + [HexDigit(n / 16 % 16)] + [HexDigit(n % 16)];
      assert Digits(n / 256) == Digits(n / 256 / 16) + [HexDigit(n / 256 % 16)];
    }
  }

  /** The count line is a well-formed S5 record exactly while the count fits its two bytes. */
  lemma CountLineExactly(n: nat)
    ensures CountLine(n) == Record(5, 2, n, []) <==> n <= 0xffff
  {
    hide Digits, Digits4, HexAll, Sum, AddrBytes, Hex2;
    var p := Payload(2, n, []);
    LowByteLast(n, 2);
    LowByteLast(n / 256, 1);
    assert p == [3, n / 256 % 256, n % 256];
    SumThree(3, n / 256 % 256, n % 256);
    if n <= 0xffff {
      FourDigits(n);
      HexFour(3, n / 256 % 256, n % 256, Checksum(p));
      assert p + [Checksum(p)] == [3, n / 256 % 256, n % 256, Checksum(p)];
      HexThree();
      assert n / 256 % 256 == n / 256;
      assert "S503" == ['S', HexDigit(5)] + Hex2(3);
    } else {
      assert Pow16(4) == 0x1_0000;
      DigitsAtLeast(n, 4);
      assert |CountLine(n)| > |Record(5, 2, n, [])| by { LongCount(n); }
    }
  }

  lemma LongCount(n: nat)
    requires |Digits(n)| > 4
    ensures |CountLine(n)| > 10
  {
  }

  lemma HexThree()
    ensures Hex2(3) == "03"
  {
  }

  lemma SumThree(a: byte, b: byte, c: byte)
    ensures Sum([a, b, c]) == a as int + b as int + c as int
  {
    assert [a, b, c][..2] == [a, b] && [a, b][..1] == [a] && [a][..0] == [];
    assert Sum([a]) == a as int && Sum([a, b]) == a as int + b as int;
  }

  lemma HexFour(a: byte, b: byte, c: byte, d: byte)
    ensures HexAll([a, b, c, d]) == Hex2(a) + (Hex2(b) + Hex2(c)) + Hex2(d)
  {
    assert [a, b, c, d][1..] == [b, c, d] && [b, c, d][1..] == [c, d] && [c, d][1..] == [d] && [d][1..] == [];
    assert HexAll([d]) == Hex2(d) && HexAll([c, d]) == Hex2(c) + HexAll([d]);
    assert HexAll([b, c, d]) == Hex2(b) + HexAll([c, d]);
  }

  // ---- Reading what was written ----

  lemma {:induction false} RecsConcat(a: seq<string>, b: seq<string>)
    requires AllTame(a) && AllTame(b)
    ensures AllTame(a + b) && Recs(a + b) == Recs(a) + Recs(b)
    decreases |b|
  {
    hide Tame, IsData, RecOf;
    if b == [] {
      assert a + b == a;
    } else {
      assert (a + b)[..|a + b| - 1] == a + b[..|b| - 1];
      RecsConcat(a, b[..|b| - 1]);
    }
  }

  lemma PlainRecs(l: string)
    requires !IsData(l)
    ensures AllTame([l]) && Recs([l]) == []
  {
    hide IsData;
    assert [l][..0] == [] && Recs([l][..0]) == [];
  }

  lemma DataLineBack(r: Rec, ab: nat)
    requires Printable(r, ab)
    ensures var l := DataLine(r, ab); GoodLine(l) && IsData(l) && Tame(l) && AddrLen(l) == ab && RecOf(l) == r
  {
    hide Record, IsData, Tame, RecOf, GoodLine, Pow16;
    RecordBack(ab, r.address, r.data);
    NoNewline(ab - 1, ab, r.address, r.data);
  }

  /** Data lines read back as the records they were printed from. */
  lemma {:induction false} DataLinesBack(recs: seq<Rec>, ab: nat)
    requires AllPrintable(recs, ab)
    ensures var ls := DataLines(recs, ab);
            AllTame(ls) && Recs(ls) == recs && forall i :: 0 <= i < |ls| ==> GoodLine(ls[i])
  {
    hide DataLine, IsData, Tame, RecOf, GoodLine, Printable;
    if recs != [] {
      var front, r := recs[..|recs| - 1], recs[|recs| - 1];
      DataLinesBack(front, ab);
      DataLineBack(r, ab);
      assert DataLines(recs, ab)[..|front|] == DataLines(front, ab);
      assert recs == front + [r];
    }
  }

  predicate AllGood(ls: seq<string>) {
    forall i :: 0 <= i < |ls| ==> GoodLine(ls[i])
  }

  /** The printed file, read line by line, holds exactly the records. */
  lemma LinesRead(recs: seq<Rec>, ab: nat, offset: nat, headers: bool)
    requires AllPrintable(recs, ab) && |recs| < WORD
    ensures var ls := Lines(recs, ab, offset, headers);
            AllGood(ls) && LinesOf(Flatten(ls)) == ls && AllTame(ls) && Recs(ls) == recs
  {
    hide DataLines, CountLine, Record, IsData, Tame, Recs, GoodLine, Printable, Flatten, LinesOf;
    DataLinesBack(recs, ab);
    var ls := Lines(recs, ab, offset, headers);
    if headers {
      var h, d := HEADER + "\n", DataLines(recs, ab);
      var c, e := CountLine(|recs|) + "\n", Record(11 - ab, ab, offset, []) + "\n";
      HeaderGood();
      CountLineGood(|recs|);
      NoNewline(11 - ab, ab, offset, []);
      EndLinePlain(ab, offset);
      PlainRecs(h);
      PlainRecs(c);
      PlainRecs(e);
      RecsConcat([c], [e]);
      RecsConcat([h], d);
      RecsConcat([h] + d, [c] + [e]);
      assert ls == ([h] + d) + ([c] + [e]);
    }
    LinesBack(ls);
  }

  lemma EndLinePlain(ab: nat, offset: nat)
    requires 2 <= ab <= 4
    ensures !IsData(Record(11 - ab, ab, offset, []) + "\n")
  {
    hide HexAll, Sum, AddrBytes;
    assert (Record(11 - ab, ab, offset, []) + "\n")[1] == HexDigit(11 - ab);
  }

  /** What a tiling of the range prints to, and that every record of it fits the chosen width. */
  lemma TilesPrintable(recs: seq<Rec>, at: nat, data: seq<byte>, width: nat, ab: nat)
    requires Tiles(recs, at, data) && Cuts(recs, width) && width <= 32 && 2 <= ab <= 4
    requires data != [] ==> at + |data| - 1 < Pow16(2 * ab)
    requires at + |data| < WORD
    ensures AllPrintable(recs, ab) && |recs| <= |data|
  {
    hide Tiles, Pow16;
    forall i | 0 <= i < |recs| ensures Printable(recs[i], ab) {
      TilesInside(recs, at, data, i);
    }
    TilesCount(recs, at, data);
  }

  lemma {:induction false} TilesInside(recs: seq<Rec>, at: nat, data: seq<byte>, i: nat)
    requires Tiles(recs, at, data) && i < |recs|
    ensures at <= recs[i].address < EndOf(recs[i]) <= at + |data|
  {
    if i < |recs| - 1 {
      TilesInside(recs[..|recs| - 1], at, data[..|data| - |recs[|recs| - 1].data|], i);
    }
  }

  lemma {:induction false} TilesCount(recs: seq<Rec>, at: nat, data: seq<byte>)
    requires Tiles(recs, at, data)
    ensures |recs| <= |data|
  {
    if recs != [] {
      TilesCount(recs[..|recs| - 1], at, data[..|data| - |recs[|recs| - 1].data|]);
    }
  }

  // ---- What the writer prints ----

  /** The range cut into records of `width` bytes and a last one of what is left. */
  function Chunks(data: seq<byte>, at: nat, width: nat): seq<Rec>
    requires width > 0
    decreases |data|
  {
    if data == [] then []
    else if |data| <= width then [Rec(at, data)]
    else [Rec(at, data[..width])] + Chunks(data[width..], at + width, width)
  }

  lemma {:induction false} TilesBefore(first: seq<byte>, at: nat, recs: seq<Rec>, data: seq<byte>)
    requires first != [] && Tiles(recs, at + |first|, data)
    ensures Tiles([Rec(at, first)] + recs, at, first + data)
    decreases |recs|
  {
    var all := [Rec(at, first)] + recs;
    if recs == [] {
      assert all[..0] == [] && first + data == first;
    } else {
      var front := recs[..|recs| - 1];
      var m := |data| - |recs[|recs| - 1].data|;
      TilesBefore(first, at, front, data[..m]);
      assert all[..|recs|] == [Rec(at, first)] + front;
      assert (first + data)[..|first| + m] == first + data[..m] && (first + data)[|first| + m..] == data[m..];
    }
  }

  /** The chunks tile the range, all full but the last. */
  lemma {:induction false} ChunksTile(data: seq<byte>, at: nat, width: nat)
    requires width > 0
    ensures Tiles(Chunks(data, at, width), at, data) && Cuts(Chunks(data, at, width), width)
    ensures data != [] ==> Chunks(data, at, width) != []
    decreases |data|
  {
    hide Tiles;
    if |data| <= width {
      EmptyTile(at + |data|);
      if data != [] {
        TilesBefore(data, at, [], []);
        assert [Rec(at, data)] + [] == [Rec(at, data)] && data + [] == data;
      }
    } else {
      ChunksTile(data[width..], at + width, width);
      TilesBefore(data[..width], at, Chunks(data[width..], at + width, width), data[width..]);
      assert data[..width] + data[width..] == data;
    }
    EmptyTile(at);
  }

  lemma EmptyTile(at: nat)
    ensures Tiles([], at, [])
  {
  }

  predicate Writable(data: seq<byte>, offset: nat, ab: nat, width: nat) {
    && data != [] && 0 < width <= 32 && 2 <= ab <= 4
    && offset + |data| < WORD && offset + |data| - 1 < Pow16(2 * ab)
  }

  lemma ChunksPrintable(data: seq<byte>, offset: nat, ab: nat, width: nat)
    requires Writable(data, offset, ab, width)
    ensures AllPrintable(Chunks(data, offset, width), ab) && |Chunks(data, offset, width)| <= |data|
  {
    hide Tiles, Chunks, Cuts, AllPrintable, Pow16;
    ChunksTile(data, offset, width);
    TilesPrintable(Chunks(data, offset, width), offset, data, width, ab);
  }

  /** The text for a range: one record for each chunk, with or without header, count and end records. */
  function Printed(data: seq<byte>, offset: nat, ab: nat, width: nat, headers: bool): string
    requires Writable(data, offset, ab, width)
  {
    ChunksPrintable(data, offset, ab, width);
    Flatten(Lines(Chunks(data, offset, width), ab, offset, headers))
  }

  /**
    * Round trip: the reader started at or below the offset rebuilds exactly the bytes, after one filler byte for
    * each address between its start and the offset; started at the offset or above, exactly the bytes.
    */
  lemma RoundTrip(data: seq<byte>, offset: nat, ab: nat, width: nat, headers: bool, optMin: nat, filler: byte)
    requires Writable(data, offset, ab, width) && optMin < WORD
    ensures var text := Printed(data, offset, ab, width, headers);
            var lo := if optMin < offset then optMin else offset;
            AllTame(LinesOf(text)) && Image(Recs(LinesOf(text)), optMin, 0, filler) == Fill(filler, offset - lo) + data
  {
    hide Tiles, Chunks, Cuts, Lines, AllTame, Recs, LinesOf, Image, Flatten, Printable, Pow16;
    var recs := Chunks(data, offset, width);
    ChunksTile(data, offset, width);
    ChunksPrintable(data, offset, ab, width);
    LinesRead(recs, ab, offset, headers);
    TilesImage(recs, offset, data, optMin, filler);
  }

  predicate IsDataLine(l: string, ab: nat, r: Rec) {
    IsData(l) && Tame(l) && AddrLen(l) == ab && RecOf(l) == r
  }

  /** The count record of `n` data records. */
  predicate IsCountLine(l: string, n: nat) {
    |l| == 11 && l[..4] == "S503" && HexValue(l[4..8]) == n
  }

  /** The end record: S9, S8 or S7 for two, three or four address bytes, and the start address. */
  predicate IsEndLine(l: string, ab: nat, offset: nat) {
    && 2 <= ab <= 4 && |l| == 2 * ab + 7
    && l[..2] == (if ab == 2 then "S9" else if ab == 3 then "S8" else "S7")
    && Byte2(l[2], l[3]) == ab + 1 && HexValue(l[4..4 + 2 * ab]) == offset
  }

  lemma EndLineMeans(ab: nat, offset: nat)
    requires 2 <= ab <= 4 && offset < Pow16(2 * ab)
    ensures IsEndLine(Record(11 - ab, ab, offset, []) + "\n", ab, offset)
  {
    hide HexValue, Shift8, AddrBytes, Sum, Pow16, HexAll, Record, Byte2;
    var record := Record(11 - ab, ab, offset, []);
    SplitHex(11 - ab, ab, offset, []);
    AddressBack(offset, ab);
    assert (record + "\n")[4..4 + 2 * ab] == record[4..4 + 2 * ab];
    assert (record + "\n")[..2] == [record[0], record[1]];
  }

  lemma CountLineMeans(n: nat)
    requires n <= 0xffff
    ensures IsCountLine(CountLine(n) + "\n", n)
  {
    hide HexValue, Shift8, AddrBytes, Sum, HexAll, Record, Byte2, CountLine, Pow16;
    CountLineExactly(n);
    SplitHex(5, 2, n, []);
    CountStart(n);
    FourthPower();
    AddressBack(n, 2);
    assert (CountLine(n) + "\n")[4..8] == CountLine(n)[4..8] && (CountLine(n) + "\n")[..4] == CountLine(n)[..4];
  }

  lemma FourthPower()
    ensures Pow16(4) == 0x1_0000
  {
  }

  lemma CountStart(n: nat)
    ensures |CountLine(n)| >= 4 && CountLine(n)[..4] == "S503"
  {
    hide Digits4, Hex2;
  }

  /**
    * The printed file, line by line: the header; one data record for each chunk of the range, in order; the number of
    * them, while it fits; and the end record with the offset.
    */
  lemma PrintedMeans(data: seq<byte>, offset: nat, ab: nat, width: nat)
    requires Writable(data, offset, ab, width)
    ensures var recs, lines := Chunks(data, offset, width), LinesOf(Printed(data, offset, ab, width, true));
            && |lines| == |recs| + 3 && lines[0] == "S00600004844521B" + "\n"
            && (forall i :: 0 <= i < |recs| ==> IsDataLine(lines[i + 1], ab, recs[i]))
            && (|recs| <= 0xffff ==> IsCountLine(lines[|recs| + 1], |recs|))
            && IsEndLine(lines[|recs| + 2], ab, offset)
  {
    hide Pow16, Record, CountLine, Chunks, Flatten, LinesOf, IsDataLine, IsCountLine, IsEndLine, AllPrintable, AllTame,
         AllGood;
    var recs := Chunks(data, offset, width);
    var n := |recs|;
    ChunksPrintable(data, offset, ab, width);
    LinesRead(recs, ab, offset, true);
    var lines := Lines(recs, ab, offset, true);
    assert LinesOf(Printed(data, offset, ab, width, true)) == lines;
    forall i | 0 <= i < n ensures IsDataLine(lines[i + 1], ab, recs[i]) {
      DataLineIs(recs, ab, i);
      assert lines[i + 1] == DataLines(recs, ab)[i];
    }
    if n <= 0xffff {
      CountLineMeans(n);
    }
    EndLineMeans(ab, offset);
  }

  lemma {:induction false} DataLineIs(recs: seq<Rec>, ab: nat, i: nat)
    requires AllPrintable(recs, ab) && i < |recs|
    ensures IsDataLine(DataLines(recs, ab)[i], ab, recs[i])
  {
    hide DataLine, IsData, Tame, RecOf, Printable;
    if i == |recs| - 1 {
      DataLineBack(recs[i], ab);
    } else {
      DataLineIs(recs[..|recs| - 1], ab, i);
    }
  }

  // ---- The program ----

  /** A byte printed in hexadecimal and added to the running checksum. */
  lemma PutByte(done: seq<byte>, b: byte)
    ensures HexAll(done + [b]) == HexAll(done) + Hex2(b)
    ensures Sum(done + [b]) == Sum(done) + b as int
  {
    HexAllAppend(done, [b]);
    assert HexAll([b]) == Hex2(b);
    assert (done + [b])[..|done|] == done;
  }

  method PutHex(text: string, sum: byte, b: byte, ghost done: seq<byte>, ghost start: string)
    returns (text': string, sum': byte)
    requires text == start + HexAll(done) && sum == Sum(done) % 256
    ensures text' == start + HexAll(done + [b]) && sum' == Sum(done + [b]) % 256
  {
    hide HexAll, Sum, Hex2;
    PutByte(done, b);
    text' := text + Hex2(b);
    sum' := (sum + b) % 256;
  }

  /** One record: count, address bytes from the top, data, complement of the sum. */
  method PrintRecord(kind: nat, ab: nat, address: nat, data: seq<byte>) returns (line: string)
    requires kind < 10 && 2 <= ab <= 4 && |data| <= 32
    ensures line == Record(kind, ab, address, data) + "\n"
  {
    hide HexAll, Sum, AddrBytes, Shift8, HexDigit, Hex2;
    ghost var start := ['S', HexDigit(kind)];
    ghost var done: seq<byte> := [];
    NothingPrinted();
    line := ['S', HexDigit(kind)];
    assert line == start + HexAll(done);
    var sum: byte := 0;
    line, sum := PutHex(line, sum, ab + |data| + 1, done, start);
    done := done + [ab + |data| + 1];
    line, sum := PutAddress(line, sum, ab, address, done, start);
    done := done + AddrBytes(address, ab);
    var i := 0;
    ghost var head := done;
    while i < |data|
      invariant i <= |data| && done == head + data[..i]
      invariant line == start + HexAll(done) && sum == Sum(done) % 256
    {
      line, sum := PutHex(line, sum, data[i], done, start);
      done := done + [data[i]];
      i := i + 1;
    }
    assert done == Payload(ab, address, data);
    PutByte(done, 255 - sum);
    line := line + Hex2(255 - sum) + "\n";
  }

  lemma NothingPrinted()
    ensures HexAll([]) == "" && Sum([]) == 0
  {
  }

  lemma NextAddressByte(address: nat, i: nat)
    requires i > 0
    ensures AddrBytes(address, i) == [Shift8(address, i - 1) % 256] + AddrBytes(address, i - 1)
    ensures AddrBytes(address, 0) == []
  {
  }

  method PutAddress(text: string, sum: byte, ab: nat, address: nat, ghost before: seq<byte>, ghost start: string)
    returns (text': string, sum': byte)
    requires text == start + HexAll(before) && sum == Sum(before) % 256 && 2 <= ab
    ensures text' == start + HexAll(before + AddrBytes(address, ab))
    ensures sum' == Sum(before + AddrBytes(address, ab)) % 256
  {
    hide HexAll, Sum, AddrBytes, Shift8;
    text', sum' := text, sum;
    ghost var done: seq<byte> := before;
    var i := ab;
    NextAddressByte(address, ab);
    while i > 0
      invariant 0 <= i <= ab && done + AddrBytes(address, i) == before + AddrBytes(address, ab)
      invariant text' == start + HexAll(done) && sum' == Sum(done) % 256
    {
      NextAddressByte(address, i);
      i := i - 1;
      var c: byte := Shift8(address, i) % 256;
      text', sum' := PutHex(text', sum', c, done, start);
      done := done + [c];
    }
    assert done == before + AddrBytes(address, ab);
  }

  /** The address after the last turn of the loop. */
  function PastEnd(offset: nat, n: nat, width: nat): nat
    requires width > 0
  {
    offset + (n + width - 1) / width * width
  }

  lemma {:induction false} PastEndStep(offset: nat, n: nat, width: nat)
    requires width > 0
    ensures PastEnd(offset, n, width) >= offset + n
    ensures n > 0 ==> PastEnd(offset, n, width) == PastEnd(offset + width, if n < width then 0 else n - width, width)
  {
    var q := (n + width - 1) / width;
    assert n + width - 1 == q * width + (n + width - 1) % width;
    if n >= width {
      assert (n - width + width - 1) / width == q - 1 by {
        Quotient(n - 1, q - 1, (n + width - 1) % width, width);
      }
      assert (q - 1) * width == q * width - width;
    } else if n > 0 {
      Quotient(n + width - 1, 1, n - 1, width);
      Quotient(width - 1, 0, width - 1, width);
    }
  }

  /** The loop needs this: once the address wraps it is below the highest address again, and the loop goes on. */
  lemma WrapGoesOn(offset: nat, n: nat, width: nat)
    requires 8 <= width <= 32 && n > 0 && offset + n <= WORD <= PastEnd(offset, n, width)
    ensures PastEnd(offset, n, width) % WORD <= offset + n - 1
  {
    hide PastEnd;
    PastEndBelow(offset, n, width);
  }

  lemma PastEndBelow(offset: nat, n: nat, width: nat)
    requires width > 0
    ensures PastEnd(offset, n, width) < offset + n + width
  {
    var x := n + width - 1;
    assert x == x / width * width + x % width;
  }

  lemma {:induction false} Quotient(x: nat, q: int, r: nat, d: nat)
    requires d > 0 && x == q * d + r && r < d
    ensures x / d == q
  {
    var k := x / d - q;
    assert x == d * (x / d) + x % d;
    assert k * d == d * (x / d) - q * d == r - x % d;
    if k >= 1 {
      MulAtLeast(k, d);
    } else if k <= -1 {
      MulAtLeast(-k, d);
    }
  }

  /** The next chunk of what is left. */
  lemma ChunkNext(data: seq<byte>, pos: nat, n: nat, at: nat, width: nat)
    requires pos < |data| && width > 0 && n == if width < |data| - pos then width else |data| - pos
    ensures Chunks(data[pos..], at, width) == [Rec(at, data[pos..pos + n])] + Chunks(data[pos + n..], at + width, width)
  {
    var rest := data[pos..];
    assert rest[..n] == data[pos..pos + n] && rest[n..] == data[pos + n..];
    if |rest| <= width {
      assert rest[..n] == rest && rest[n..] == [];
      assert Chunks(rest, at, width) == [Rec(at, rest)] + Chunks([], at + width, width);
    }
  }

  /** `process` of the writer, for the bytes `begin` to `end` of the file. */
  method Write(file: seq<byte>, begin: nat, end: nat, offset: nat, addrBytes: nat, width: nat, headers: bool)
    returns (text: string)
    requires begin <= end < |file| && 2 <= addrBytes <= 4 && 8 <= width <= 32
    requires PastEnd(offset, end - begin + 1, width) < WORD
    ensures offset + (end - begin) < WORD
    ensures var data, ab := file[begin..end + 1], Width(addrBytes, offset + (end - begin));
            Writable(data, offset, ab, width) && text == Printed(data, offset, ab, width, headers)
  {
    hide Pow16, Width, PastEnd, Record, CountLine, DataLines, AllPrintable, Flatten, Chunks;
    ghost var data := file[begin..end + 1];
    PastEndStep(offset, |data|, width);
    var maxAddr := (offset + (end - begin)) % WORD;
    var ab := Width(addrBytes, maxAddr);
    var body, count := WriteData(file, begin, offset, maxAddr, ab, width);
    text := body;
    if headers {
      var endLine := PrintRecord(11 - ab, ab, offset, []);
      text := HEADER + "\n" + body + CountLine(count) + "\n" + endLine;
      HeadersAround(Chunks(data, offset, width), ab, offset, count);
    }
  }

  lemma HeadersAround(recs: seq<Rec>, ab: nat, offset: nat, count: nat)
    requires AllPrintable(recs, ab) && count == |recs|
    ensures Flatten(Lines(recs, ab, offset, true))
         == HEADER + "\n" + Flatten(DataLines(recs, ab)) + CountLine(count) + "\n"
            + (Record(11 - ab, ab, offset, []) + "\n")
  {
    hide DataLines, CountLine, Record;
    var h, d := HEADER + "\n", DataLines(recs, ab);
    var c, e := CountLine(count) + "\n", Record(11 - ab, ab, offset, []) + "\n";
    FlattenAppend([h] + d, [c, e]);
    FlattenAppend([h], d);
    assert Flatten([e]) == e && [c, e][1..] == [e] && Flatten([c, e]) == c + e;
    assert Flatten([h]) == h;
    assert Lines(recs, ab, offset, true) == ([h] + d) + [c, e];
  }

  /** The record loop. */
  method WriteData(file: seq<byte>, begin: nat, offset: nat, maxAddr: nat, ab: nat, width: nat)
    returns (text: string, count: nat)
    requires offset <= maxAddr < Pow16(2 * ab) && begin + (maxAddr - offset) < |file|
    requires 2 <= ab <= 4 && 8 <= width <= 32 && PastEnd(offset, maxAddr - offset + 1, width) < WORD
    ensures AllPrintable(Chunks(file[begin..begin + (maxAddr - offset) + 1], offset, width), ab)
    ensures text == Flatten(DataLines(Chunks(file[begin..begin + (maxAddr - offset) + 1], offset, width), ab))
    ensures count == |Chunks(file[begin..begin + (maxAddr - offset) + 1], offset, width)|
  {
    hide Pow16, PastEnd, Record, DataLines, AllPrintable, Flatten, Chunks;
    ghost var data := file[begin..begin + (maxAddr - offset) + 1];
    var address := offset;
    var at := begin;
    text, count := "", 0;
    ghost var pos, recs: seq<Rec> := 0, [];
    NothingWritten(ab);
    assert data[0..] == data;
    while address <= maxAddr
      invariant pos <= |data| && at == begin + pos && offset <= address
      invariant address <= maxAddr ==> pos == address - offset
      invariant address > maxAddr ==> pos == |data|
      invariant PastEnd(address, |data| - pos, width) == PastEnd(offset, |data|, width)
      invariant recs + Chunks(data[pos..], address, width) == Chunks(data, offset, width) && count == |recs|
      invariant AllPrintable(recs, ab) && text == Flatten(DataLines(recs, ab))
      decreases maxAddr + 1 - address
    {
      var thisLine := if width < 1 + maxAddr - address then width else 1 + maxAddr - address;
      PastEndStep(address, |data| - pos, width);
      PastEndStep(address + width, |data| - (pos + thisLine), width);
      ChunkNext(data, pos, thisLine, address, width);
      var line := PrintRecord(ab - 1, ab, address, file[at..at + thisLine]);
      ghost var r := Rec(address, data[pos..pos + thisLine]);
      assert file[at..at + thisLine] == data[pos..pos + thisLine];
      assert Printable(r, ab);
      LinePrinted(recs, r, ab);
      assert recs + ([r] + Chunks(data[pos + thisLine..], address + width, width))
          == recs + [r] + Chunks(data[pos + thisLine..], address + width, width);
      recs := recs + [r];
      text := text + line;
      at := at + thisLine;
      pos := pos + thisLine;
      count := count + 1;
      address := (address + width) % WORD;
    }
    NoChunks(address, width);
    assert data[pos..] == [] && recs + [] == recs;
  }

  lemma NothingWritten(ab: nat)
    requires 2 <= ab <= 4
    ensures AllPrintable([], ab) && Flatten(DataLines([], ab)) == ""
  {
  }

  lemma NoChunks(at: nat, width: nat)
    requires width > 0
    ensures Chunks([], at, width) == []
  {
  }

  lemma LinePrinted(recs: seq<Rec>, r: Rec, ab: nat)
    requires AllPrintable(recs, ab) && Printable(r, ab)
    ensures AllPrintable(recs + [r], ab)
    ensures Flatten(DataLines(recs + [r], ab))
         == Flatten(DataLines(recs, ab)) + (Record(ab - 1, ab, r.address, r.data) + "\n")
  {
    hide Printable, Record;
    assert (recs + [r])[..|recs|] == recs;
    FlattenAppend(DataLines(recs, ab), [DataLine(r, ab)]);
    assert Flatten([DataLine(r, ab)]) == DataLine(r, ab);
  }

  /** Writing and reading back, with the reader's start address free. */
  method WriteThenRead(file: seq<byte>, begin: nat, end: nat, offset: nat, addrBytes: nat, width: nat, headers: bool,
                       optMin: nat, filler: byte)
    returns (out: seq<byte>)
    requires begin <= end < |file| && 2 <= addrBytes <= 4 && 8 <= width <= 32 && optMin < WORD
    requires PastEnd(offset, end - begin + 1, width) < WORD
    ensures optMin == offset ==> out == file[begin..end + 1]
    ensures optMin == 0 ==> out == Fill(filler, offset) + file[begin..end + 1]
  {
    hide Printed, Writable, AllTame, Recs, LinesOf, Image, PastEnd, Width;
    PastEndStep(offset, end - begin + 1, width);
    var text := Write(file, begin, end, offset, addrBytes, width, headers);
    RoundTrip(file[begin..end + 1], offset, Width(addrBytes, offset + (end - begin)), width, headers, optMin, filler);
    out := Process(text, optMin, 0, filler);
  }
}
