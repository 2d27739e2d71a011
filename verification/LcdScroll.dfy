/** What the LCD shows at each scroll position, and how the timer moves through the positions. */
module LcdScroll {
  import opened Arith

  const HEIGHT: nat := 2
  const PANEL_WIDTH: nat := 16
  const VIRTUAL_WIDTH: nat := 80

  /** A row of text with its permanently blank last column. */
  predicate IsRow(row: string) {
    |row| == VIRTUAL_WIDTH + 1 && row[VIRTUAL_WIDTH] == ' '
  }

  /** One past the last character of `row[..n]` that is not a space. */
  function Ink(row: string, n: nat): (r: nat)
    requires n <= |row|
    ensures r <= n && (forall i :: r <= i < n ==> row[i] == ' ') && (r > 0 ==> row[r - 1] != ' ')
  {
    if n == 0 || row[n - 1] != ' ' then n else Ink(row, n - 1)
  }

  /** A row that is too long for the panel gets one more space before it comes round. */
  function WidthOf(row: string): (w: nat)
    requires IsRow(row)
    ensures PANEL_WIDTH <= w <= VIRTUAL_WIDTH + 1
    ensures forall i :: w <= i < |row| ==> row[i] == ' '
    ensures w > PANEL_WIDTH ==> row[w - 1] == ' ' && row[w - 2] != ' '
  {
    var ink := Ink(row, VIRTUAL_WIDTH);
    if ink <= PANEL_WIDTH then PANEL_WIDTH else ink + 1
  }

  function Widest(a: nat, b: nat): (w: nat)
    ensures w >= PANEL_WIDTH && w >= a && w >= b && (w == PANEL_WIDTH || w == a || w == b)
  {
    var w := if PANEL_WIDTH < a then a else PANEL_WIDTH;
    if w < b then b else w
  }

  /** Storing a number in a `char` field; the driver tests one for being negative, so `char` is signed. */
  function StoredChar(n: nat): int
    requires n < 256
  {
    if n < 128 then n else n - 256
  }

  function ScrollMax(widest: nat): int
    requires PANEL_WIDTH <= widest <= VIRTUAL_WIDTH + 1
  {
    if widest <= PANEL_WIDTH then 0 else StoredChar(2 * widest)
  }

  /** Integer division, with what it means. */
  function Quot(x: nat, d: nat): (q: nat)
    requires d > 0
    ensures d * q <= x < d * q + d
  {
    x / d
  }

  function SpeedOf(width: nat, widest: nat): nat
    requires PANEL_WIDTH <= widest
  {
    if width <= PANEL_WIDTH || widest <= PANEL_WIDTH then 0 else Quot(256 * width, 2 * widest)
  }

  function Offset(pos: nat, speed: nat, width: nat): (r: nat)
    ensures width > 0 ==> r < width
  {
    var o := pos * speed / 256;
    if o >= width then 0 else o
  }

  /** A row wraps round at its width. */
  function Wrap(i: nat, width: nat): (r: nat)
    requires width > 0
    ensures r < width && (i < width ==> r == i)
  {
    i % width
  }

  /** The column of the row that is in column `x` of the panel. */
  function ColumnAt(x: nat, pos: nat, speed: nat, width: nat): nat
    requires width > 0
  {
    Wrap(x + Offset(pos, speed, width), width)
  }

  /** The character the frame of `pos` has in column `x`. */
  function CellAt(row: string, width: nat, speed: nat, pos: nat, x: nat): char
    requires 0 < width <= |row|
  {
    row[ColumnAt(x, pos, speed, width)]
  }

  // ---- The timer ----

  function Advance(pos: nat, max: int): nat {
    if pos + 1 >= max then 0 else pos + 1
  }

  function AdvanceN(pos: nat, max: int, n: nat): nat {
    if n == 0 then pos else Advance(AdvanceN(pos, max, n - 1), max)
  }

  lemma {:induction false} AdvanceSum(pos: nat, max: int, a: nat, b: nat)
    ensures AdvanceN(AdvanceN(pos, max, a), max, b) == AdvanceN(pos, max, a + b)
  {
    if b > 0 {
      AdvanceSum(pos, max, a, b - 1);
    }
  }

  /** Where up to `max` ticks lead. */
  lemma {:induction false} AdvanceIs(pos: nat, max: int, n: nat)
    requires 0 < n <= max
    ensures AdvanceN(pos, max, n) == if pos >= max then n - 1 else if pos + n < max then pos + n else pos + n - max
  {
    if n > 1 {
      AdvanceIs(pos, max, n - 1);
    } else {
      assert AdvanceN(pos, max, 0) == pos;
    }
  }

  lemma {:induction false} AdvanceStuck(pos: nat, max: int, n: nat)
    requires n > 0 && max <= 1
    ensures AdvanceN(pos, max, n) == 0
  {
    if n > 1 {
      AdvanceStuck(pos, max, n - 1);
    }
  }

  /**
    * The exit test of the repaint loop. If the position is the one read before the pass and fewer than `max` ticks
    * fell in it, then the position was that one at every moment of the pass.
    */
  lemma ExitTest(old_: nat, max: int, a: nat, n: nat)
    requires a <= n && (max <= 1 || n < max)
    ensures AdvanceN(old_, max, n) == old_ ==> AdvanceN(old_, max, a) == old_
  {
    if a > 0 {
      if max <= 1 {
        AdvanceStuck(old_, max, a);
        AdvanceStuck(old_, max, n);
      } else {
        AdvanceIs(old_, max, n);
      }
    }
  }

  /** The bound is exact: `max` ticks bring the position round, and a frame painted on the way goes unnoticed. */
  lemma RoundUnnoticed(pos: nat, max: int, a: nat)
    requires pos < max && 0 < a < max
    ensures AdvanceN(pos, max, max) == pos && AdvanceN(pos, max, a) != pos
  {
    AdvanceIs(pos, max, max);
    AdvanceIs(pos, max, a);
  }

  /** From position zero the timer visits exactly the positions below `max`, or only zero. */
  lemma {:induction false} Visited(max: int, n: nat)
    ensures AdvanceN(0, max, n) < max || AdvanceN(0, max, n) == 0
    ensures n < max ==> AdvanceN(0, max, n) == n
  {
    if n > 0 {
      Visited(max, n - 1);
    }
  }

  // ---- Schedules of ticks ----

  /** MOMENTS at which the timer may run in one pass: before the position is read, before each cell, before the test. */
  const MOMENTS: nat := 2 + HEIGHT * PANEL_WIDTH

  function Total(s: seq<nat>): nat {
    if s == [] then 0 else s[0] + Total(s[1..])
  }

  /** The schedule after `k` moments; once used up it has no more ticks. */
  function Drop(s: seq<nat>, k: nat): seq<nat> {
    if k < |s| then s[k..] else []
  }

  /** The ticks of the first `k` moments. */
  function Taken(s: seq<nat>, k: nat): nat {
    if k < |s| then Total(s[..k]) else Total(s)
  }

  /** A pass that starts with schedule `s` sees fewer ticks than there are positions, or there is nothing to scroll. */
  predicate CalmPass(s: seq<nat>, max: int) {
    max <= 1 || Taken(s, MOMENTS) < max
  }

  /** The same for a pass wherever it starts. */
  ghost predicate Calm(s: seq<nat>, max: int) {
    forall i: nat :: CalmPass(Drop(s, i), max)
  }

  lemma {:induction false} TotalSplit(a: seq<nat>, b: seq<nat>)
    ensures Total(a + b) == Total(a) + Total(b)
  {
    if a == [] {
      assert a + b == b;
    } else {
      assert (a + b)[1..] == a[1..] + b;
      TotalSplit(a[1..], b);
    }
  }

  lemma DropDrop(s: seq<nat>, a: nat, b: nat)
    ensures Drop(Drop(s, a), b) == Drop(s, a + b)
  {
  }

  lemma TakenSplit(s: seq<nat>, a: nat, b: nat)
    ensures Taken(s, a + b) == Taken(s, a) + Taken(Drop(s, a), b)
  {
    hide Total;
    if a + b < |s| {
      assert s[..a + b] == s[..a] + s[a..][..b];
      TotalSplit(s[..a], s[a..][..b]);
    } else if a < |s| {
      assert s == s[..a] + s[a..];
      TotalSplit(s[..a], s[a..]);
    } else {
      NoTicks(b);
    }
  }

  lemma NoTicks(k: nat)
    ensures Taken([], k) == 0 && Drop([], k) == []
  {
  }

  lemma NoMoment(s: seq<nat>, pos: nat, max: int)
    ensures Taken(s, 0) == 0 && Drop(s, 0) == s && AdvanceN(pos, max, 0) == pos
  {
    assert s[..0] == [] && s[0..] == s;
  }

  lemma OneMoment(s: seq<nat>)
    requires s != []
    ensures Taken(s, 1) == s[0] && Drop(s, 1) == s[1..]
  {
    assert Total(s[..1]) == s[0] + Total(s[..1][1..]) && s[..1][1..] == [];
    if |s| == 1 {
      assert s == s[..1] && s[1..] == [];
    }
  }

  /** MOMENTS one after the other. */
  lemma MoreMoments(s: seq<nat>, a: nat, b: nat, pos: nat, max: int)
    ensures Drop(Drop(s, a), b) == Drop(s, a + b)
    ensures Taken(s, a + b) == Taken(s, a) + Taken(Drop(s, a), b)
    ensures AdvanceN(AdvanceN(pos, max, Taken(s, a)), max, Taken(Drop(s, a), b)) == AdvanceN(pos, max, Taken(s, a + b))
  {
    hide Drop, Taken, AdvanceN;
    DropDrop(s, a, b);
    TakenSplit(s, a, b);
    AdvanceSum(pos, max, Taken(s, a), Taken(Drop(s, a), b));
  }

  /** The exit test, for a pass that starts with schedule `s`: the position read for painting is the one at the test. */
  lemma PassEnds(s: seq<nat>, pos: nat, max: int)
    requires CalmPass(s, max) && AdvanceN(pos, max, Taken(s, MOMENTS)) == pos
    ensures AdvanceN(pos, max, Taken(s, 1)) == pos
  {
    hide AdvanceN, Total;
    TakenSplit(s, 1, MOMENTS - 1);
    ExitTest(pos, max, Taken(s, 1), Taken(s, MOMENTS));
  }

  /** A pass that moved the position used up some of the schedule. */
  lemma PassUses(s: seq<nat>, pos: nat, max: int, k: nat)
    requires AdvanceN(pos, max, Taken(s, MOMENTS)) != pos && k > 0
    ensures |Drop(s, k)| < |s|
  {
    hide Total;
    if s == [] {
      NoTicks(MOMENTS);
    }
  }

  // ---- Every column comes by ----

  /** Column `k` of the row is on the panel at position `pos`. */
  predicate ShownAt(k: nat, pos: nat, speed: nat, width: nat)
    requires width > 0
  {
    exists x :: 0 <= x < PANEL_WIDTH && ColumnAt(x, pos, speed, width) == k
  }

  lemma SpeedBounds(width: nat, widest: nat)
    requires PANEL_WIDTH < width <= widest <= VIRTUAL_WIDTH + 1
    ensures 1 <= SpeedOf(width, widest) <= 128
    ensures 256 * width - 2 * widest < 2 * widest * SpeedOf(width, widest) <= 256 * width
  {
    hide Quot;
    QuotBetween(256 * width, 2 * widest, SpeedOf(width, widest));
  }

  lemma QuotBetween(x: nat, d: nat, q: nat)
    requires d * q <= x < d * q + d && d <= x <= d * 128
    ensures 1 <= q <= 128
  {
    assert q == 0 ==> d * q == 0;
    if q >= 129 {
      MulMono(129, q, d);
    }
  }

  /** A row no wider than the panel stands still, whatever the other one does; and every row starts at its start. */
  lemma StandsStill(row: string, widest: nat, pos: nat, x: nat)
    requires IsRow(row) && PANEL_WIDTH <= widest && x < PANEL_WIDTH
    ensures WidthOf(row) == PANEL_WIDTH ==> CellAt(row, WidthOf(row), SpeedOf(WidthOf(row), widest), pos, x) == row[x]
    ensures CellAt(row, WidthOf(row), SpeedOf(WidthOf(row), widest), 0, x) == row[x]
  {
    hide Ink, Offset, Wrap, SpeedOf, WidthOf;
    if WidthOf(row) == PANEL_WIDTH {
      NoSpeed(WidthOf(row), widest);
      ZeroOffset(pos, SpeedOf(WidthOf(row), widest), WidthOf(row));
    }
    ZeroOffset(0, SpeedOf(WidthOf(row), widest), WidthOf(row));
  }

  lemma NoSpeed(width: nat, widest: nat)
    requires PANEL_WIDTH <= widest && width <= PANEL_WIDTH
    ensures SpeedOf(width, widest) == 0
  {
  }

  lemma ZeroOffset(pos: nat, speed: nat, width: nat)
    requires pos == 0 || speed == 0
    ensures Offset(pos, speed, width) == 0
  {
  }

  /**
    * All scrolling rows keep the same pace: after `pos` of the 2 * widest positions of a round a row has moved that
    * part of its own width, to within two columns.
    */
  lemma KeepsPace(width: nat, widest: nat, pos: nat)
    requires PANEL_WIDTH < width <= widest <= VIRTUAL_WIDTH + 1 && pos < 2 * widest
    ensures var o, d := Offset(pos, SpeedOf(width, widest), width), 2 * widest; d * o <= width * pos < d * (o + 2)
  {
    hide SpeedOf, Quot;
    var speed, d := SpeedOf(width, widest), 2 * widest;
    SpeedBounds(width, widest);
    PaceBounds(width, d, speed, pos, pos * speed / 256);
    var o := pos * speed / 256;
    if o >= width {
      MulMono(width, o, d);
      MulLess(pos, d, width);
    }
  }

  lemma MulLess(a: nat, b: nat, n: nat)
    requires a < b && n > 0
    ensures n * a < b * n
  {
  }

  lemma PaceBounds(w: nat, d: nat, speed: nat, pos: nat, o: nat)
    requires 256 * w - d < d * speed <= 256 * w && pos < d <= 256 && o == pos * speed / 256
    ensures d * o <= w * pos < d * (o + 2)
  {
    var ps := pos * speed;
    assert 256 * o <= ps < 256 * o + 256;
    PaceScaled(w, d, speed, pos);
    MulMono(256 * o, ps, d);
    MulMono(ps + pos, 256 * o + 511, d);
    Linear(d, o, ps, pos, w * pos);
  }

  lemma PaceScaled(w: nat, d: nat, speed: nat, pos: nat)
    requires 256 * w - d < d * speed <= 256 * w
    ensures d * (pos * speed) <= 256 * (w * pos) <= d * (pos * speed + pos)
  {
    MulMono(d * speed, 256 * w, pos);
    MulMono(256 * w, d * speed + d, pos);
    assert pos * (d * speed) == d * (pos * speed);
    assert pos * (256 * w) == 256 * (w * pos);
    assert pos * (d * speed + d) == pos * (d * speed) + pos * d == d * (pos * speed + pos);
  }

  lemma Linear(d: nat, o: nat, ps: nat, pos: nat, x: nat)
    requires d * (256 * o) <= d * ps <= 256 * x <= d * (ps + pos) <= d * (256 * o + 511) && d > 0
    ensures d * o <= x < d * (o + 2)
  {
    assert d * (256 * o) == 256 * (d * o) && d * (256 * o + 511) == 256 * (d * o) + 511 * d;
    assert d * (o + 2) == d * o + 2 * d;
  }

  /** The first position whose offset is `t`. */
  function FirstPos(t: nat, speed: nat): nat
    requires speed > 0
  {
    Quot(256 * t + speed - 1, speed)
  }

  lemma FirstPosIs(t: nat, speed: nat)
    requires 1 <= speed <= 128
    ensures FirstPos(t, speed) * speed / 256 == t
    ensures FirstPos(t, speed) * speed < 256 * t + speed
  {
    hide Quot;
    var p := FirstPos(t, speed);
    assert speed * p == p * speed;
    assert 256 * t <= p * speed < 256 * t + speed;
  }

  /** In one round of positions every column of a scrolling row is shown. */
  lemma EveryColumnComes(k: nat, width: nat, widest: nat) returns (pos: nat)
    requires PANEL_WIDTH < width <= widest <= VIRTUAL_WIDTH + 1 && k < width
    ensures pos < 2 * widest && ShownAt(k, pos, SpeedOf(width, widest), width)
  {
    hide SpeedOf, FirstPos, Quot, ShownAt;
    var speed := SpeedOf(width, widest);
    SpeedBounds(width, widest);
    if k < PANEL_WIDTH {
      pos := 0;
      ShownFirst(k, speed, width);
    } else {
      var t := k - 15;
      pos := FirstPos(t, speed);
      FirstPosIs(t, speed);
      PosBelow(pos, t, speed, width, widest);
      ShownLast(k, pos, speed, width);
    }
  }

  lemma ShownFirst(k: nat, speed: nat, width: nat)
    requires k < PANEL_WIDTH < width
    ensures ShownAt(k, 0, speed, width)
  {
    assert Offset(0, speed, width) == 0;
    assert ColumnAt(k, 0, speed, width) == k;
  }

  lemma ShownLast(k: nat, pos: nat, speed: nat, width: nat)
    requires 15 <= k < width && pos * speed / 256 == k - 15
    ensures ShownAt(k, pos, speed, width)
  {
    assert Offset(pos, speed, width) == k - 15;
    assert ColumnAt(15, pos, speed, width) == k;
  }

  lemma PosBelow(pos: nat, t: nat, speed: nat, width: nat, widest: nat)
    requires t + PANEL_WIDTH <= width <= widest <= VIRTUAL_WIDTH + 1 && 1 <= speed <= 128
    requires 256 * width - 2 * widest < 2 * widest * speed && pos * speed < 256 * t + speed
    ensures pos < 2 * widest
  {
    if pos >= 2 * widest {
      MulMono(2 * widest, pos, speed);
    }
  }

  /**
    * The automatic scrolling shows every column of the widest row exactly when the doubled width fits the `char`
    * field; past that the position never leaves zero and the seventeenth column is never shown.
    */
  lemma ScrollsExactly(widest: nat)
    requires PANEL_WIDTH < widest <= VIRTUAL_WIDTH + 1
    ensures (forall k :: 0 <= k < widest ==> Comes(k, widest)) <==> widest <= 63
  {
    hide AdvanceN, SpeedOf, ShownAt, Quot;
    if widest <= 63 {
      forall k | 0 <= k < widest ensures Comes(k, widest) {
        var pos := EveryColumnComes(k, widest, widest);
        Visited(ScrollMax(widest), pos);
        assert ShownAt(k, AdvanceN(0, ScrollMax(widest), pos), SpeedOf(widest, widest), widest);
      }
    } else {
      assert !Comes(16, widest) by {
        forall n: nat ensures AdvanceN(0, ScrollMax(widest), n) == 0 {
          Visited(ScrollMax(widest), n);
        }
        NotAtZero(SpeedOf(widest, widest), widest);
      }
    }
  }

  lemma NotAtZero(speed: nat, width: nat)
    requires width > PANEL_WIDTH
    ensures !ShownAt(16, 0, speed, width)
  {
    assert Offset(0, speed, width) == 0;
  }

  /** Some number of ticks after position zero brings column `k` of the widest row onto the panel. */
  ghost predicate Comes(k: nat, widest: nat)
    requires PANEL_WIDTH < widest <= VIRTUAL_WIDTH + 1
  {
    exists n: nat :: ShownAt(k, AdvanceN(0, ScrollMax(widest), n), SpeedOf(widest, widest), widest)
  }
}
