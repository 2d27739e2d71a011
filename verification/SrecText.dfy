/** Motorola S-records as text: hexadecimal digits, one record, and the lines `fgets` hands out. */
module SrecText {
  import opened Bytes

  /** `char_to_uint`: anything that is not a hexadecimal digit counts as zero. */
  function CharToUint(c: char): (r: nat)
    ensures r < 16
  {
    if '0' <= c <= '9' then c as int - '0' as int
    else if 'A' <= c <= 'F' then c as int - 'A' as int + 10
    else if 'a' <= c <= 'f' then c as int - 'a' as int + 10
    else 0
  }

  /** The digit "%X" prints. */
  function HexDigit(n: nat): (c: char)
    requires n < 16
    ensures CharToUint(c) == n && c != '\n'
  {
    if n < 10 then '0' + n as char else 'A' + (n - 10) as char
  }

  const LOWER := "0123456789abcdef"
  const UPPER := "0123456789ABCDEF"

  /** Every digit has its value in either case; "%X" prints upper case. */
  lemma DigitsMean(n: nat)
    requires n < 16
    ensures CharToUint(LOWER[n]) == n && CharToUint(UPPER[n]) == n && HexDigit(n) == UPPER[n]
  {
  }

  /** Any other character counts as zero. */
  lemma OthersAreZero(c: char)
    ensures CharToUint(c) == 0 || c in LOWER || c in UPPER
  {
    if CharToUint(c) != 0 {
      assert c == LOWER[CharToUint(c)] || c == UPPER[CharToUint(c)];
    }
  }

  /** The same text with its hexadecimal letters in lower case. */
  function Lowered(s: string): (r: string)
    ensures |r| == |s|
  {
    seq(|s|, i requires 0 <= i < |s| => LowerDigit(s[i]))
  }

  function LowerDigit(c: char): char {
    if 'A' <= c <= 'F' then (c as int - 'A' as int + 'a' as int) as char else c
  }

  function Hex2(b: byte): (r: string)
    ensures |r| == 2
  {
    [HexDigit(b / 16), HexDigit(b % 16)]
  }

  /** Two digits read back. */
  function Byte2(a: char, b: char): byte {
    16 * CharToUint(a) + CharToUint(b)
  }

  lemma Hex2Back(b: byte)
    ensures Byte2(Hex2(b)[0], Hex2(b)[1]) == b
  {
  }

  function HexAll(bs: seq<byte>): (r: string)
    ensures |r| == 2 * |bs|
  {
    if bs == [] then "" else Hex2(bs[0]) + HexAll(bs[1..])
  }

  lemma {:induction false} HexAllAt(bs: seq<byte>, i: nat)
    requires i < |bs|
    ensures HexAll(bs)[2 * i] == Hex2(bs[i])[0] && HexAll(bs)[2 * i + 1] == Hex2(bs[i])[1]
    ensures Byte2(HexAll(bs)[2 * i], HexAll(bs)[2 * i + 1]) == bs[i]
    ensures HexAll(bs)[2 * i] != '\n' && HexAll(bs)[2 * i + 1] != '\n'
  {
    Hex2Back(bs[i]);
    if i > 0 {
      HexAllAt(bs[1..], i - 1);
    }
  }

  lemma {:induction false} HexAllAppend(a: seq<byte>, b: seq<byte>)
    ensures HexAll(a + b) == HexAll(a) + HexAll(b)
  {
    if a == [] {
      assert a + b == b;
    } else {
      assert (a + b)[1..] == a[1..] + b;
      HexAllAppend(a[1..], b);
    }
  }

  /** The number a string of digits spells, most significant first. */
  function HexValue(cs: string): nat {
    if cs == [] then 0 else 16 * HexValue(cs[..|cs| - 1]) + CharToUint(cs[|cs| - 1])
  }

  /** `str_to_uint32`: the first eight characters, shifted in from the right. */
  method StrToUint32(s: string) returns (res: nat)
    ensures res == HexValue(s[..if |s| < 8 then |s| else 8]) && res < 0x1_0000_0000
  {
    res := 0;
    var i := 0;
    ghost var bound := 1;
    while i < 8 && i < |s|
      invariant 0 <= i <= 8 && i <= |s| && res == HexValue(s[..i])
      invariant bound == Pow16(i) && res < bound
    {
      assert s[..i + 1][..i] == s[..i];
      Pow16Next(i);
      res := (res * 16) % 0x1_0000_0000;
      res := (res + CharToUint(s[i])) % 0x1_0000_0000;
      bound := bound * 16;
      i := i + 1;
    }
    Pow16Is(i);
  }

  function Pow16(n: nat): nat {
    if n == 0 then 1 else 16 * Pow16(n - 1)
  }

  lemma {:induction false} Pow16Is(n: nat)
    requires n <= 8
    ensures Pow16(n) <= 0x1_0000_0000
  {
    if n > 0 {
      Pow16Mono(n, 8);
    }
    assert Pow16(4) == 0x1_0000;
    assert Pow16(8) == 0x1_0000_0000;
  }

  lemma {:induction false} Pow16Mono(a: nat, b: nat)
    requires a <= b
    ensures Pow16(a) <= Pow16(b)
  {
    if a < b {
      Pow16Mono(a, b - 1);
    }
  }

  lemma Pow16Next(n: nat)
    requires n < 8
    ensures 16 * Pow16(n) <= 0x1_0000_0000 && Pow16(n + 1) == 16 * Pow16(n)
  {
    Pow16Is(n + 1);
  }

  // ---- Records ----

  /** `address >> (i << 3)`. */
  function Shift8(a: nat, i: nat): nat {
    if i == 0 then a else Shift8(a / 256, i - 1)
  }

  /** The address bytes, most significant first. */
  function AddrBytes(a: nat, n: nat): (r: seq<byte>)
    ensures |r| == n
  {
    if n == 0 then [] else [Shift8(a, n - 1) % 256] + AddrBytes(a, n - 1)
  }

  /** Count, address and data: what the checksum is taken over. */
  function Payload(ab: nat, address: nat, data: seq<byte>): seq<byte>
    requires ab + |data| + 1 < 256
  {
    [ab + |data| + 1] + AddrBytes(address, ab) + data
  }

  function Checksum(bs: seq<byte>): byte {
    255 - Sum(bs) % 256
  }

  /** A record without its newline: S, the type digit, and the payload with its checksum in hexadecimal. */
  function Record(kind: nat, ab: nat, address: nat, data: seq<byte>): string
    requires kind < 10 && ab + |data| + 1 < 256
  {
    var p := Payload(ab, address, data);
    ['S', HexDigit(kind)] + HexAll(p + [Checksum(p)])
  }

  lemma {:induction false} SumAppend(a: seq<byte>, b: seq<byte>)
    ensures Sum(a + b) == Sum(a) + Sum(b)
    decreases |b|
  {
    if b == [] {
      assert a + b == a;
    } else {
      assert (a + b)[..|a + b| - 1] == a + b[..|b| - 1];
      SumAppend(a, b[..|b| - 1]);
    }
  }

  /** Every record sums to 0xFF modulo 256, checksum included. */
  lemma RecordSums(ab: nat, address: nat, data: seq<byte>)
    requires ab + |data| + 1 < 256
    ensures var p := Payload(ab, address, data); Sum(p + [Checksum(p)]) % 256 == 255
  {
    var p := Payload(ab, address, data);
    SumAppend(p, [Checksum(p)]);
    assert [Checksum(p)][..0] == [];
    assert Sum([Checksum(p)]) == Checksum(p) as int;
  }

  // ---- Reading a record ----

  datatype Rec = Rec(address: nat, data: seq<byte>)

  predicate IsData(line: string) {
    |line| >= 2 && line[0] == 'S' && '1' <= line[1] <= '3'
  }

  function AddrLen(line: string): (r: nat)
    requires IsData(line)
    ensures 2 <= r <= 4
  {
    line[1] as int - '0' as int + 1
  }

  /** The number of data bytes the count field leaves after the address and the checksum. */
  function DataCount(line: string): int
    requires IsData(line) && |line| >= 4
  {
    Byte2(line[2], line[3]) as int - (AddrLen(line) + 1)
  }

  function AddressOf(line: string): nat
    requires IsData(line) && |line| >= 4 + 2 * AddrLen(line)
  {
    HexValue(line[4..4 + 2 * AddrLen(line)])
  }

  /** A line the reader's fixed buffers can take: not data, or complete, with at most 32 bytes below 2^32. */
  predicate Tame(line: string) {
    IsData(line) ==>
      && |line| >= 4 + 2 * AddrLen(line)
      && 0 <= DataCount(line) <= 32
      && |line| >= 4 + 2 * AddrLen(line) + 2 * DataCount(line)
      && AddressOf(line) + DataCount(line) < 0x1_0000_0000
  }

  function RecOf(line: string): (r: Rec)
    requires IsData(line) && Tame(line)
    ensures |r.data| == DataCount(line)
  {
    var at := 4 + 2 * AddrLen(line);
    Rec(AddressOf(line),
        seq(DataCount(line), j requires 0 <= j < DataCount(line) => Byte2(line[at + 2 * j], line[at + 2 * j + 1])))
  }

  lemma {:induction false} HexValueAppend(cs: string, a: char, b: char)
    ensures HexValue(cs + [a, b]) == 256 * HexValue(cs) + Byte2(a, b) as int
  {
    var t := cs + [a];
    assert (cs + [a, b])[..|cs| + 1] == t && t[..|cs|] == cs;
  }

  lemma ValueOfBytes(bs: seq<byte>, b: byte)
    ensures HexValue(HexAll(bs + [b])) == 256 * HexValue(HexAll(bs)) + b as int
  {
    HexAllAppend(bs, [b]);
    assert HexAll([b]) == Hex2(b) + HexAll([]);
    assert HexAll(bs + [b]) == HexAll(bs) + [Hex2(b)[0], Hex2(b)[1]];
    HexValueAppend(HexAll(bs), Hex2(b)[0], Hex2(b)[1]);
    Hex2Back(b);
  }

  /** Dropping the low byte of the address drops the last of its bytes. */
  lemma {:induction false} LowByteLast(a: nat, n: nat)
    requires n >= 1
    ensures AddrBytes(a, n) == AddrBytes(a / 256, n - 1) + [a % 256]
  {
    if n > 1 {
      LowByteLast(a, n - 1);
    } else {
      assert Shift8(a, 0) == a;
    }
  }

  /** The address bytes spell the address, when the width holds it. */
  lemma {:induction false} AddressBack(a: nat, n: nat)
    requires a < Pow16(2 * n)
    ensures HexValue(HexAll(AddrBytes(a, n))) == a
  {
    if n > 0 {
      assert Pow16(2 * n) == 16 * Pow16(2 * n - 1) == 256 * Pow16(2 * (n - 1));
      LowByteLast(a, n);
      AddressBack(a / 256, n - 1);
      ValueOfBytes(AddrBytes(a / 256, n - 1), a % 256);
    }
  }

  /** The reader's meaning of a data record the writer spelt: the address and the bytes come back. */
  lemma RecordBack(ab: nat, address: nat, data: seq<byte>)
    requires 2 <= ab <= 4 && address < Pow16(2 * ab) && |data| <= 32 && address + |data| < 0x1_0000_0000
    ensures var line := Record(ab - 1, ab, address, data) + "\n";
            IsData(line) && Tame(line) && AddrLen(line) == ab && RecOf(line) == Rec(address, data)
  {
    hide HexValue, Shift8, AddrBytes, Sum, Pow16, HexDigit, HexAll, Record, Byte2;
    var line := Record(ab - 1, ab, address, data) + "\n";
    LineFields(ab, address, data);
    DataFields(ab, address, data);
    assert RecOf(line).data == data;
  }

  lemma LineFields(ab: nat, address: nat, data: seq<byte>)
    requires 2 <= ab <= 4 && address < Pow16(2 * ab) && |data| <= 32
    ensures var line := Record(ab - 1, ab, address, data) + "\n";
            && |line| == 2 * ab + 2 * |data| + 7 && IsData(line) && AddrLen(line) == ab
            && DataCount(line) == |data| && AddressOf(line) == address
  {
    hide HexValue, Shift8, AddrBytes, Sum, Pow16, HexDigit, HexAll, Record, Byte2;
    var record := Record(ab - 1, ab, address, data);
    var line := record + "\n";
    SplitHex(ab - 1, ab, address, data);
    KindDigit(ab - 1);
    AddressBack(address, ab);
    assert line[4..4 + 2 * ab] == record[4..4 + 2 * ab];
  }

  lemma DataFields(ab: nat, address: nat, data: seq<byte>)
    requires 2 <= ab <= 4 && |data| <= 32
    ensures var line := Record(ab - 1, ab, address, data) + "\n"; var at := 4 + 2 * ab;
            && |line| == at + 2 * |data| + 3
            && forall j :: 0 <= j < |data| ==> Byte2(line[at + 2 * j], line[at + 2 * j + 1]) == data[j]
  {
    hide HexValue, Shift8, AddrBytes, Sum, HexDigit, HexAll, Record, Byte2;
    var line, at := Record(ab - 1, ab, address, data) + "\n", 4 + 2 * ab;
    DigitsAt(ab - 1, ab, address, data, 0);
    forall j | 0 <= j < |data| ensures Byte2(line[at + 2 * j], line[at + 2 * j + 1]) == data[j] {
      DigitsAt(ab - 1, ab, address, data, 1 + ab + j);
    }
  }

  // ---- Lower case ----

  lemma LowerSame(c: char)
    ensures CharToUint(LowerDigit(c)) == CharToUint(c)
  {
  }

  lemma {:induction false} LowerValue(cs: string)
    ensures HexValue(Lowered(cs)) == HexValue(cs)
  {
    hide CharToUint, LowerDigit;
    if cs != [] {
      var front := cs[..|cs| - 1];
      assert Lowered(cs)[..|cs| - 1] == Lowered(front);
      LowerValue(front);
      LowerSame(cs[|cs| - 1]);
    }
  }

  /** A record means the same whether its digits are in upper or in lower case. */
  lemma LowerRecord(line: string)
    requires IsData(line) && Tame(line)
    ensures IsData(Lowered(line)) && Tame(Lowered(line)) && RecOf(Lowered(line)) == RecOf(line)
  {
    hide HexValue, CharToUint, LowerDigit;
    var low, at := Lowered(line), 4 + 2 * AddrLen(line);
    LowerStart(line);
    forall i | 0 <= i < |line| ensures CharToUint(low[i]) == CharToUint(line[i]) {
      LowerSame(line[i]);
    }
    assert low[4..at] == Lowered(line[4..at]);
    LowerValue(line[4..at]);
    assert RecOf(low).data == RecOf(line).data;
  }

  lemma LowerStart(line: string)
    requires IsData(line)
    ensures Lowered(line)[0] == line[0] && Lowered(line)[1] == line[1]
  {
  }

  lemma KindDigit(k: nat)
    requires 1 <= k <= 3
    ensures HexDigit(k) as int == '0' as int + k
  {
  }

  /** Where each payload byte stands in the line. */
  lemma DigitsAt(kind: nat, ab: nat, address: nat, data: seq<byte>, i: nat)
    requires kind < 10 && 2 <= ab <= 4 && |data| <= 32 && i <= ab + |data| + 1
    ensures var p := Payload(ab, address, data); var all := p + [Checksum(p)];
            var line := Record(kind, ab, address, data);
            |all| == ab + |data| + 2 && |line| == 2 + 2 * |all| && Byte2(line[2 + 2 * i], line[3 + 2 * i]) == all[i]
  {
    hide Shift8, AddrBytes, Sum, HexDigit, HexAll;
    var p := Payload(ab, address, data);
    HexAllAt(p + [Checksum(p)], i);
  }

  lemma SplitHex(kind: nat, ab: nat, address: nat, data: seq<byte>)
    requires kind < 10 && 2 <= ab <= 4 && |data| <= 32
    ensures var line := Record(kind, ab, address, data);
            |line| == 2 * ab + 2 * |data| + 6 && Byte2(line[2], line[3]) == ab + |data| + 1
            && line[0] == 'S' && line[1] == HexDigit(kind)
            && line[4..4 + 2 * ab] == HexAll(AddrBytes(address, ab))
  {
    hide Shift8, AddrBytes, Sum, HexDigit, HexAll;
    var p := Payload(ab, address, data);
    var tail := data + [Checksum(p)];
    assert p + [Checksum(p)] == [ab + |data| + 1] + (AddrBytes(address, ab) + tail);
    HexAllAppend([ab + |data| + 1], AddrBytes(address, ab) + tail);
    HexAllAppend(AddrBytes(address, ab), tail);
    DigitsAt(kind, ab, address, data, 0);
  }

  /** No record contains a newline. */
  lemma RecordHasNoNewline(kind: nat, ab: nat, address: nat, data: seq<byte>, i: nat)
    requires kind < 10 && ab + |data| + 1 < 256 && i < |Record(kind, ab, address, data)|
    ensures Record(kind, ab, address, data)[i] != '\n'
  {
    hide Shift8, AddrBytes, Sum, HexAll;
    var p := Payload(ab, address, data);
    if i >= 2 {
      HexAllAt(p + [Checksum(p)], (i - 2) / 2);
    }
  }
}
