/** The two-pass S-record reader. */
module SrecRead {
  import opened Bytes
  import opened SrecText

  const LINE_LEN: nat := 1024
  const WORD: nat := 0x1_0000_0000

  // ---- What `fgets` hands out ----

  /** How many characters one `fgets` takes: through the first newline, at most `room`. */
  function Cut(t: string, room: nat): (n: nat)
    ensures n <= |t| && n <= room
    ensures n == 0 ==> t == [] || room == 0
    ensures n < |t| ==> n == room || (n > 0 && t[n - 1] == '\n')
    ensures forall i :: 0 <= i < n - 1 ==> t[i] != '\n'
  {
    if t == [] || room == 0 then 0
    else if t[0] == '\n' then 1
    else 1 + Cut(t[1..], room - 1)
  }

  /** `feof` after the call: the end was met before a newline and before the buffer was full. */
  predicate HitsEnd(t: string) {
    && Cut(t, LINE_LEN - 1) == |t| < LINE_LEN - 1
    && (t == [] || t[|t| - 1] != '\n')
  }

  /** The buffer after the call: at the very end of the file the previous line stays in it. */
  function Buffer(t: string, previous: string): string {
    if t == [] then previous else t[..Cut(t, LINE_LEN - 1)]
  }

  /** Every line the loop looks at, the line in the buffer at its last turn included. */
  function Seen(t: string, previous: string): seq<string>
    decreases |t|
  {
    var line := Buffer(t, previous);
    if HitsEnd(t) then [line] else [line] + Seen(t[Cut(t, LINE_LEN - 1)..], line)
  }

  /** The lines of the file, each once. */
  function LinesOf(t: string): seq<string>
    decreases |t|
  {
    if t == [] then [] else [t[..Cut(t, LINE_LEN - 1)]] + LinesOf(t[Cut(t, LINE_LEN - 1)..])
  }

  /** The end of the file is met together with its last line: that has no newline and does not fill the buffer. */
  predicate EndsOpen(lines: seq<string>) {
    && lines != []
    && var last := lines[|lines| - 1];
       last != [] && last[|last| - 1] != '\n' && |last| < 1023
  }

  /** The loop sees every line once, and the last one twice unless the file ends with it. */
  lemma {:induction false} SeenMeans(t: string, previous: string)
    ensures var ls := LinesOf(t);
            Seen(t, previous) == if EndsOpen(ls) then ls else ls + [if ls == [] then previous else ls[|ls| - 1]]
    decreases |t|
  {
    hide Cut, Seen, LinesOf;
    SeenUnfold(t, previous);
    LinesUnfold(t);
    var n := Cut(t, LINE_LEN - 1);
    if t != [] && !HitsEnd(t) {
      var line, more := t[..n], LinesOf(t[n..]);
      SeenMeans(t[n..], line);
      LinesUnfold(t[n..]);
      OpenTail(line, more);
      assert more == [] ==> t[..n] == t;
    } else if t != [] {
      assert t[..n] == t && t[n..] == [];
      LinesUnfold([]);
    }
  }

  lemma LinesUnfold(t: string)
    ensures var n := Cut(t, LINE_LEN - 1);
            if t == [] then LinesOf(t) == [] else n > 0 && LinesOf(t) == [t[..n]] + LinesOf(t[n..])
  {
    hide Cut;
  }

  lemma OpenTail(line: string, more: seq<string>)
    ensures more != [] ==> (EndsOpen([line] + more) <==> EndsOpen(more)) && ([line] + more)[|more|] == more[|more| - 1]
  {
  }

  // ---- The records of a file ----

  predicate AllTame(lines: seq<string>) {
    forall i :: 0 <= i < |lines| ==> Tame(lines[i])
  }

  function Recs(lines: seq<string>): (rs: seq<Rec>)
    requires AllTame(lines)
  {
    if lines == [] then []
    else
      var last := lines[|lines| - 1];
      Recs(lines[..|lines| - 1]) + if IsData(last) then [RecOf(last)] else []
  }

  /** What the file holds at address `a`: the byte of the last record that covers it, else the filler. */
  function Cell(recs: seq<Rec>, a: int, filler: byte): byte {
    if recs == [] then filler
    else
      var r := recs[|recs| - 1];
      if r.address <= a < r.address + |r.data| then r.data[a - r.address]
      else Cell(recs[..|recs| - 1], a, filler)
  }

  predicate Covers(r: Rec, a: int) {
    r.address <= a < r.address + |r.data|
  }

  /** The last record that covers an address decides it. */
  lemma {:induction false} CellMeans(recs: seq<Rec>, a: int, filler: byte, k: nat)
    requires k < |recs| && Covers(recs[k], a) && forall j :: k < j < |recs| ==> !Covers(recs[j], a)
    ensures Cell(recs, a, filler) == recs[k].data[a - recs[k].address]
  {
    if k < |recs| - 1 {
      assert !Covers(recs[|recs| - 1], a);
      CellMeans(recs[..|recs| - 1], a, filler, k);
    }
  }

  /** And the filler does when none covers it. */
  lemma {:induction false} CellFiller(recs: seq<Rec>, a: int, filler: byte)
    requires forall j :: 0 <= j < |recs| ==> !Covers(recs[j], a)
    ensures Cell(recs, a, filler) == filler
  {
    if recs != [] {
      assert !Covers(recs[|recs| - 1], a);
      CellFiller(recs[..|recs| - 1], a, filler);
    }
  }

  function Lowest(recs: seq<Rec>, start: nat): (m: nat)
    ensures m <= start && forall i :: 0 <= i < |recs| ==> m <= recs[i].address
    ensures m == start || exists i :: 0 <= i < |recs| && m == recs[i].address
  {
    if recs == [] then start
    else
      var r, rest := recs[|recs| - 1], Lowest(recs[..|recs| - 1], start);
      if rest > r.address then r.address else rest
  }

  function EndOf(r: Rec): nat {
    r.address + |r.data|
  }

  function Highest(recs: seq<Rec>, start: nat): (m: nat)
    ensures m >= start && forall i :: 0 <= i < |recs| ==> m >= EndOf(recs[i])
    ensures m == start || exists i :: 0 <= i < |recs| && m == EndOf(recs[i])
  {
    if recs == [] then start
    else
      var r, rest := recs[|recs| - 1], Highest(recs[..|recs| - 1], start);
      if rest < EndOf(r) then EndOf(r) else rest
  }

  predicate AllFrom(recs: seq<Rec>, lo: nat) {
    forall i :: 0 <= i < |recs| ==> lo <= recs[i].address
  }

  predicate AllWithin(recs: seq<Rec>, hi: nat) {
    forall i :: 0 <= i < |recs| ==> EndOf(recs[i]) <= hi
  }

  // ---- The output file ----

  /** Seek and write; a gap reads as zeros. */
  function WriteAt(file: seq<byte>, at: nat, data: seq<byte>): (r: seq<byte>)
    ensures at + |data| <= |file| ==> |r| == |file|
  {
    if data == [] then file
    else if at > |file| then file + Zeros(at - |file|) + data
    else if at + |data| >= |file| then file[..at] + data
    else file[..at] + data + file[at + |data|..]
  }

  function Overlay(file: seq<byte>, recs: seq<Rec>, lo: nat): seq<byte>
    requires AllFrom(recs, lo)
  {
    if recs == [] then file
    else
      var r := recs[|recs| - 1];
      WriteAt(Overlay(file, recs[..|recs| - 1], lo), r.address - lo, r.data)
  }

  function Fill(filler: byte, n: nat): (r: seq<byte>)
    ensures |r| == n && forall i :: 0 <= i < n ==> r[i] == filler
  {
    seq(n, _ => filler)
  }

  lemma WriteTwice(file: seq<byte>, at: nat, data: seq<byte>)
    ensures WriteAt(WriteAt(file, at, data), at, data) == WriteAt(file, at, data)
  {
  }

  /** Processing the last line a second time changes neither pass. */
  lemma LastTwice(file: seq<byte>, recs: seq<Rec>, lo: nat, start: nat)
    requires recs != [] && AllFrom(recs, lo)
    ensures var again := recs + [recs[|recs| - 1]];
            && Lowest(again, start) == Lowest(recs, start)
            && Highest(again, start) == Highest(recs, start)
            && AllFrom(again, lo) && Overlay(file, again, lo) == Overlay(file, recs, lo)
  {
    var r := recs[|recs| - 1];
    var again := recs + [r];
    assert again[..|again| - 1] == recs;
    WriteTwice(Overlay(file, recs[..|recs| - 1], lo), r.address - lo, r.data);
  }

  /** What the reader's loop did, in terms of the lines of the file taken once each. */
  lemma SeenRecs(t: string, file: seq<byte>, lo: nat, top: nat, low: nat)
    requires AllTame(LinesOf(t)) && AllFrom(Recs(LinesOf(t)), lo)
    ensures AllTame(Seen(t, "")) && AllFrom(Recs(Seen(t, "")), lo)
    ensures var seen, once := Recs(Seen(t, "")), Recs(LinesOf(t));
            && Overlay(file, seen, lo) == Overlay(file, once, lo)
            && Highest(seen, top) == Highest(once, top) && Lowest(seen, low) == Lowest(once, low)
  {
    hide Overlay, Seen, LinesOf, Tame, RecOf, Lowest, Highest, IsData, Recs;
    SeenMeans(t, "");
    var ls := LinesOf(t);
    if Seen(t, "") != ls {
      var last := if ls == [] then "" else ls[|ls| - 1];
      EmptyLine();
      RecsAppend(ls, last);
      if IsData(last) {
        assert ls == ls[..|ls| - 1] + [last];
        RecsAppend(ls[..|ls| - 1], last);
        LastTwice(file, Recs(ls), lo, top);
        LastTwice(file, Recs(ls), lo, low);
      } else {
        assert Recs(ls) + [] == Recs(ls);
      }
    }
  }

  lemma EmptyLine()
    ensures Tame("") && !IsData("")
  {
  }

  /** Inside the filled part, each byte of the overlay is the last record's that covers it, or the filler. */
  lemma {:induction false} OverlayCell(filler: byte, n: nat, recs: seq<Rec>, lo: nat, i: nat)
    requires AllFrom(recs, lo) && AllWithin(recs, lo + n) && i < n
    ensures |Overlay(Fill(filler, n), recs, lo)| == n
    ensures Overlay(Fill(filler, n), recs, lo)[i] == Cell(recs, lo + i, filler)
  {
    if recs != [] {
      var r := recs[|recs| - 1];
      assert EndOf(r) <= lo + n;
      OverlayCell(filler, n, recs[..|recs| - 1], lo, i);
    }
  }

  // ---- The extent of the output ----

  predicate Words(recs: seq<Rec>) {
    forall i :: 0 <= i < |recs| ==> EndOf(recs[i]) < WORD
  }

  /** Some record carries data. */
  predicate HasData(recs: seq<Rec>) {
    exists i :: 0 <= i < |recs| && EndOf(recs[i]) > recs[i].address
  }

  /** `min_addr` after the scan: the option or the lowest record. */
  function Base(recs: seq<Rec>, optMin: nat): (lo: nat)
    ensures lo <= optMin && AllFrom(recs, lo)
  {
    var pmin := Lowest(recs, WORD - 1);
    if optMin < pmin then optMin else pmin
  }

  /** One past `max_addr` after the scan: the end of the highest record, or the minimum size asked for. */
  function Limit(recs: seq<Rec>, optMin: nat, optMax: nat): nat {
    var least := (Base(recs, optMin) + optMax) % WORD + 1;
    var end := Highest(recs, 0);
    if end < least then least else end
  }

  /** The number of filler bytes laid down first, as the 32-bit arithmetic computes it. */
  function FillSize(recs: seq<Rec>, optMin: nat, optMax: nat): nat {
    var lo := Base(recs, optMin);
    var pmax := (Highest(recs, 0) - 1) % WORD;
    var least := (lo + optMax) % WORD;
    ((if pmax < least then least else pmax) - lo + 1) % WORD
  }

  /** The output file. */
  function Image(recs: seq<Rec>, optMin: nat, optMax: nat, filler: byte): seq<byte> {
    Overlay(Fill(filler, FillSize(recs, optMin, optMax)), recs, Base(recs, optMin))
  }

  /** The whole 32-bit space is asked for: "-a 0" from address zero. */
  predicate WholeSpace(recs: seq<Rec>, optMin: nat, optMax: nat) {
    Base(recs, optMin) == 0 && optMax == WORD - 1
  }

  lemma SizeIs(recs: seq<Rec>, optMin: nat, optMax: nat)
    requires Words(recs) && HasData(recs) && optMin < WORD && optMax < WORD
    ensures var lo, hi := Base(recs, optMin), Limit(recs, optMin, optMax);
            lo < hi <= WORD && AllWithin(recs, hi)
            && FillSize(recs, optMin, optMax) == (if WholeSpace(recs, optMin, optMax) then 0 else hi - lo)
            && (WholeSpace(recs, optMin, optMax) <==> hi - lo == WORD)
  {
    hide Lowest, Highest;
    var i :| 0 <= i < |recs| && EndOf(recs[i]) > recs[i].address;
    var lo, end := Base(recs, optMin), Highest(recs, 0);
    assert lo <= recs[i].address < EndOf(recs[i]) <= end < WORD;
    assert (end - 1) % WORD == end - 1;
  }

  lemma {:induction false} OverlayBelow(file: seq<byte>, recs: seq<Rec>, lo: nat, top: nat)
    requires AllFrom(recs, lo) && AllWithin(recs, top) && lo + |file| <= top
    ensures lo + |Overlay(file, recs, lo)| <= top
  {
    if recs != [] {
      var r := recs[|recs| - 1];
      assert EndOf(r) <= top;
      OverlayBelow(file, recs[..|recs| - 1], lo, top);
    }
  }

  /**
    * The extent in the options' own terms: the output starts at the option or the lowest record, whichever is lower,
    * and holds at least the size asked for ("-a" stores the size less one) and at least up to the end of every record,
    * and no more than one of these asks for.
    */
  lemma ExtentMeans(recs: seq<Rec>, optMin: nat, size: nat, filler: byte)
    requires Words(recs) && HasData(recs) && optMin < WORD && 1 <= size <= WORD
    requires Base(recs, optMin) + size <= WORD && size < WORD
    ensures var lo, n := Base(recs, optMin), |Image(recs, optMin, size - 1, filler)|;
            && lo <= optMin && (lo == optMin || exists i :: 0 <= i < |recs| && lo == recs[i].address)
            && n >= size && (forall i :: 0 <= i < |recs| ==> lo <= recs[i].address && EndOf(recs[i]) <= lo + n)
            && (n == size || exists i :: 0 <= i < |recs| && EndOf(recs[i]) == lo + n)
  {
    hide Lowest, Highest, Overlay, Cell, FillSize, Image;
    SizeIs(recs, optMin, size - 1);
    ImageMeans(recs, optMin, size - 1, filler);
    assert (Base(recs, optMin) + (size - 1)) % WORD == Base(recs, optMin) + size - 1;
    var i :| 0 <= i < |recs| && EndOf(recs[i]) > recs[i].address;
    assert Lowest(recs, WORD - 1) <= recs[i].address < WORD - 1;
  }

  /**
    * The output of a file with data: as long as the extent, unless the whole space was asked for; then every byte
    * is that of the last record covering it, or the filler.
    */
  lemma ImageMeans(recs: seq<Rec>, optMin: nat, optMax: nat, filler: byte)
    requires Words(recs) && HasData(recs) && optMin < WORD && optMax < WORD
    ensures var lo, hi, out := Base(recs, optMin), Limit(recs, optMin, optMax), Image(recs, optMin, optMax, filler);
            && (|out| == hi - lo <==> !WholeSpace(recs, optMin, optMax))
            && (!WholeSpace(recs, optMin, optMax) ==>
                  forall i :: 0 <= i < hi - lo ==> out[i] == Cell(recs, lo + i, filler))
  {
    hide Lowest, Highest, Overlay, Cell, FillSize, Limit, HasData;
    SizeIs(recs, optMin, optMax);
    var lo, hi, out := Base(recs, optMin), Limit(recs, optMin, optMax), Image(recs, optMin, optMax, filler);
    var n := FillSize(recs, optMin, optMax);
    if WholeSpace(recs, optMin, optMax) {
      assert AllWithin(recs, WORD - 1);
      OverlayBelow(Fill(filler, n), recs, lo, WORD - 1);
    } else {
      OverlayCell(filler, n, recs, lo, 0);
      forall i | 0 <= i < hi - lo ensures out[i] == Cell(recs, lo + i, filler) {
        OverlayCell(filler, n, recs, lo, i);
      }
    }
  }

  /** A file without data records gives an all-filler file up to the top of the space, empty from address zero. */
  lemma ImageOfNothing(optMin: nat, optMax: nat, filler: byte)
    requires optMin < WORD && optMax < WORD
    ensures Image([], optMin, optMax, filler) == Fill(filler, if optMin == 0 then 0 else WORD - optMin)
  {
    assert Base([], optMin) == optMin && Highest([], 0) == 0;
    assert (0 - 1) % WORD == WORD - 1;
    assert FillSize([], optMin, optMax) == (WORD - optMin) % WORD;
  }

  // ---- The program ----

  lemma {:induction false} HexBelow(cs: string)
    ensures HexValue(cs) < Pow16(|cs|)
  {
    if cs != [] {
      HexBelow(cs[..|cs| - 1]);
    }
  }

  lemma EmptyDigits()
    ensures HexValue("") == 0
  {
  }

  lemma HexStep(line: string, i: nat)
    requires 4 <= i < |line| && i < 12
    ensures HexValue(line[4..i + 1]) == 16 * HexValue(line[4..i]) + CharToUint(line[i]) < WORD
  {
    hide CharToUint;
    assert line[4..i + 1][..i - 4] == line[4..i];
    HexBelow(line[4..i + 1]);
    Pow16Is(i - 3);
  }

  /** The address digits of a data line. */
  method ReadAddress(line: string, n: nat) returns (address: nat)
    requires n <= 4 && 4 + 2 * n <= |line|
    ensures address == HexValue(line[4..4 + 2 * n])
  {
    hide HexValue, CharToUint;
    assert line[4..4] == "";
    EmptyDigits();
    address := 0;
    var i := 4;
    while i < 2 * n + 4
      invariant 4 <= i <= 2 * n + 4 && address == HexValue(line[4..i])
    {
      HexStep(line, i);
      address := (address * 16 % WORD + CharToUint(line[i])) % WORD;
      i := i + 1;
    }
  }

  /** The data digits of a data line. */
  method ReadData(line: string) returns (data: seq<byte>)
    requires IsData(line) && Tame(line)
    ensures data == RecOf(line).data
  {
    var buf := new byte[32];
    var at, count := 2 * AddrLen(line) + 4, DataCount(line);
    var i, j := at, 0;
    while i < at + 2 * count
      invariant 0 <= j <= count && i == at + 2 * j
      invariant forall k :: 0 <= k < j ==> buf[k] == Byte2(line[at + 2 * k], line[at + 2 * k + 1])
    {
      buf[j] := 16 * CharToUint(line[i]) + CharToUint(line[i + 1]);
      i, j := i + 2, j + 1;
    }
    data := buf[..count];
  }

  lemma RecsAppend(lines: seq<string>, line: string)
    requires AllTame(lines + [line])
    ensures AllTame(lines) && Tame(line)
    ensures Recs(lines + [line]) == Recs(lines) + if IsData(line) then [RecOf(line)] else []
  {
    forall i | 0 <= i < |lines| ensures Tame(lines[i]) {
      assert Tame((lines + [line])[i]);
    }
    assert Tame((lines + [line])[|lines|]);
    assert (lines + [line])[..|lines|] == lines;
  }

  /** Where a pass stands once it has seen `recs`: the scan widens the extent, the other pass writes in place. */
  ghost predicate PassAt(scan: bool, recs: seq<Rec>, low0: nat, low: nat, top0: nat, top: nat,
                         file0: seq<byte>, file: seq<byte>, lo: nat)
  {
    if scan then low == Lowest(recs, low0) && top == Highest(recs, top0) && file == file0
    else low == low0 && top == top0 && AllFrom(recs, lo) && file == Overlay(file0, recs, lo)
  }

  function With(recs: seq<Rec>, line: string): seq<Rec>
    requires Tame(line)
  {
    recs + if IsData(line) then [RecOf(line)] else []
  }

  lemma ScanNext(recs: seq<Rec>, r: Rec, low: nat, top: nat)
    ensures Lowest(recs + [r], low) == (if Lowest(recs, low) > r.address then r.address else Lowest(recs, low))
    ensures Highest(recs + [r], top) == (if Highest(recs, top) < EndOf(r) then EndOf(r) else Highest(recs, top))
  {
    assert (recs + [r])[..|recs|] == recs;
  }

  lemma WriteNext(recs: seq<Rec>, r: Rec, file: seq<byte>, lo: nat)
    requires AllFrom(recs, lo) && lo <= r.address
    ensures AllFrom(recs + [r], lo)
    ensures Overlay(file, recs + [r], lo) == WriteAt(Overlay(file, recs, lo), r.address - lo, r.data)
  {
    assert (recs + [r])[..|recs|] == recs;
  }

  /** One turn of the loop of `parse`. */
  method ParseLine(scan: bool, line: string, low: nat, top: nat, file: seq<byte>, lo: nat,
                   ghost recs: seq<Rec>, ghost low0: nat, ghost top0: nat, ghost file0: seq<byte>)
    returns (low': nat, top': nat, file': seq<byte>)
    requires Tame(line) && (!scan && IsData(line) ==> lo <= RecOf(line).address)
    requires PassAt(scan, recs, low0, low, top0, top, file0, file, lo)
    ensures PassAt(scan, With(recs, line), low0, low', top0, top', file0, file', lo)
  {
    hide Lowest, Highest, Overlay, WriteAt, IsData, Tame, RecOf;
    low', top', file' := low, top, file;
    if IsData(line) {
      ghost var r := RecOf(line);
      var address, count := ReadNumbers(line);
      if scan {
        ScanNext(recs, r, low0, top0);
        if low > address {
          low' := address;
        }
        if top < (address + count) % WORD {
          top' := (address + count) % WORD;
        }
      } else {
        WriteNext(recs, r, file0, lo);
        var data := ReadData(line);
        file' := WriteAt(file, address - lo, data);
      }
    } else {
      assert With(recs, line) == recs;
    }
  }

  /** The address and the data count of a data line. */
  method ReadNumbers(line: string) returns (address: nat, count: nat)
    requires IsData(line) && Tame(line)
    ensures address == RecOf(line).address && count == |RecOf(line).data| && address + count < WORD
  {
    hide HexValue, CharToUint;
    var kind := line[1] as int - '0' as int;
    address := ReadAddress(line, kind + 1);
    count := Byte2(line[2], line[3]) - (kind + 2);
  }

  lemma {:induction false} RecsAt(lines: seq<string>, i: nat)
    requires AllTame(lines) && i < |lines| && IsData(lines[i])
    ensures exists k :: 0 <= k < |Recs(lines)| && Recs(lines)[k] == RecOf(lines[i])
  {
    hide Tame, RecOf, IsData;
    var n := |lines| - 1;
    if i < n {
      RecsAt(lines[..n], i);
      var k :| 0 <= k < |Recs(lines[..n])| && Recs(lines[..n])[k] == RecOf(lines[i]);
      assert Recs(lines)[k] == RecOf(lines[i]);
    } else {
      assert Recs(lines)[|Recs(lines)| - 1] == RecOf(lines[i]);
    }
  }

  lemma SeenUnfold(t: string, previous: string)
    ensures var line, n := Buffer(t, previous), Cut(t, LINE_LEN - 1);
            && (HitsEnd(t) ==> Seen(t, previous) == [line])
            && (!HitsEnd(t) ==> n > 0 && Seen(t, previous) == [line] + Seen(t[n..], line))
  {
    hide Cut;
  }

  /** Following the loop: `seen` lines are behind, the rest of what it will see is ahead. */
  lemma SeenStep(t: string, at: nat, previous: string, seen: seq<string>)
    requires at <= |t| && Seen(t, "") == seen + Seen(t[at..], previous)
    ensures var rest, line := t[at..], Buffer(t[at..], previous);
            && (HitsEnd(rest) ==> Seen(t, "") == seen + [line])
            && (!HitsEnd(rest) ==>
                  Cut(rest, LINE_LEN - 1) > 0
                  && Seen(t, "") == seen + [line] + Seen(t[at + Cut(rest, LINE_LEN - 1)..], line))
            && |Seen(t, "")| > |seen| && Seen(t, "")[|seen|] == line && Seen(t, "")[..|seen|] == seen
  {
    hide Seen, Cut, HitsEnd, Buffer;
    var rest := t[at..];
    SeenUnfold(rest, previous);
    assert !HitsEnd(rest) ==> rest[Cut(rest, LINE_LEN - 1)..] == t[at + Cut(rest, LINE_LEN - 1)..];
  }

  /** `parse`: one pass over the file. Taking the last line twice leaves no trace. */
  method Parse(scan: bool, t: string, low0: nat, top0: nat, file0: seq<byte>, lo: nat)
    returns (low: nat, top: nat, file: seq<byte>)
    requires AllTame(LinesOf(t)) && AllFrom(Recs(LinesOf(t)), lo)
    ensures var recs := Recs(LinesOf(t));
            if scan then low == Lowest(recs, low0) && top == (Highest(recs, top0) - 1) % WORD && file == file0
            else file == Overlay(file0, recs, lo)
  {
    hide Lowest, Highest, Overlay, Tame, RecOf, IsData, With, Recs, Seen, LinesOf, HitsEnd, Cut, Buffer;
    low, top, file := low0, top0, file0;
    var line, at, eof := "", 0, false;
    ghost var all := Seen(t, "");
    ghost var n := 0;
    SeenRecs(t, file0, lo, top0, low0);
    assert t[0..] == t && all[..0] == [];
    StartPass(scan, low0, top0, file0, lo);
    while !eof
      invariant at <= |t| && n <= |all| && AllTame(all[..n])
      invariant PassAt(scan, Recs(all[..n]), low0, low, top0, top, file0, file, lo)
      invariant eof ==> n == |all|
      invariant !eof ==> all == all[..n] + Seen(t[at..], line)
      decreases !eof, |t| - at
    {
      SeenStep(t, at, line, all[..n]);
      ghost var rest := t[at..];
      eof := HitsEnd(t[at..]);
      var taken := Cut(t[at..], LINE_LEN - 1);
      line := Buffer(t[at..], line);
      at := at + taken;
      TurnReady(all, n, lo);
      low, top, file := ParseLine(scan, line, low, top, file, lo, Recs(all[..n]), low0, top0, file0);
      n := n + 1;
    }
    assert all[..n] == all;
    top := (top - 1) % WORD;
  }

  lemma StartPass(scan: bool, low0: nat, top0: nat, file0: seq<byte>, lo: nat)
    ensures PassAt(scan, Recs([]), low0, low0, top0, top0, file0, file0, lo)
  {
  }

  lemma TurnReady(all: seq<string>, n: nat, lo: nat)
    requires n < |all| && AllTame(all) && AllFrom(Recs(all), lo)
    ensures AllTame(all[..n]) && AllTame(all[..n + 1])
    ensures Tame(all[n]) && (IsData(all[n]) ==> lo <= RecOf(all[n]).address)
    ensures Recs(all[..n + 1]) == With(Recs(all[..n]), all[n])
  {
    hide Tame, RecOf, IsData, Recs;
    assert all[..n + 1] == all[..n] + [all[n]];
    RecsAppend(all[..n], all[n]);
    if IsData(all[n]) {
      RecsAt(all, n);
    }
  }

  /** `process`: scan, lay down the filler in blocks of 32, write the records. */
  method Process(t: string, optMin: nat, optMax: nat, filler: byte) returns (file: seq<byte>)
    requires AllTame(LinesOf(t)) && optMin < WORD && optMax < WORD
    ensures file == Image(Recs(LinesOf(t)), optMin, optMax, filler)
  {
    hide HexValue, CharToUint, Lowest, Highest, Overlay, WriteAt, Tame, RecOf, Seen, LinesOf, HitsEnd;
    ghost var recs := Recs(LinesOf(t));
    var pmin, pmax;
    pmin, pmax, file := Parse(true, t, WORD - 1, 0, [], 0);
    var minAddr := if optMin < pmin then optMin else pmin;
    var least := (minAddr + optMax) % WORD;
    var maxAddr := if pmax < least then least else pmax;
    var size := (maxAddr - minAddr + 1) % WORD;
    file := LayFiller(filler, size / 32, size % 32);
    assert file == Fill(filler, FillSize(recs, optMin, optMax));
    pmin, pmax, file := Parse(false, t, pmin, pmax, file, minAddr);
  }

  method LayFiller(filler: byte, blocks: nat, remain: nat) returns (file: seq<byte>)
    requires remain < 32
    ensures file == Fill(filler, 32 * blocks + remain)
  {
    var buf := Fill(filler, 32);
    file := [];
    var i := 0;
    while i < blocks
      invariant i <= blocks && file == Fill(filler, 32 * i)
    {
      file := file + buf;
      i := i + 1;
    }
    file := file + buf[..remain];
  }
}
