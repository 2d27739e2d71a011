/** The LCD driver: a shadow of the panel that skips redundant writes, painted by the foreground and by a timer. */
module Lcd {
  import opened LcdScroll

  /** Where a row starts in the panel's character memory. */
  function ColStart(y: nat): nat {
    if y == 0 then 0x00 else 0x40
  }

  /** The panel's address counter after a write, in its two-row mode. */
  function NextAddress(a: nat): nat {
    if a == 0x27 then 0x40 else if a == 0x67 then 0 else a + 1
  }

  /** What a character does to the text: clear the screen, or leave any text in the first 80 columns. */
  datatype Edit = Clear | Text(rows: seq<string>)

  predicate IsText(rows: seq<string>) {
    |rows| == HEIGHT && IsRow(rows[0]) && IsRow(rows[1])
  }

  const BLANK: string := seq(VIRTUAL_WIDTH + 1, _ => ' ')

  /** Scroll parameters that belong to the text. */
  predicate Tuned(rows: seq<string>, widths: seq<nat>, speeds: seq<nat>, max: int)
    requires IsText(rows)
  {
    var widest := Widest(WidthOf(rows[0]), WidthOf(rows[1]));
    && widths == [WidthOf(rows[0]), WidthOf(rows[1])]
    && speeds == [SpeedOf(widths[0], widest), SpeedOf(widths[1], widest)]
    && max == ScrollMax(widest)
  }

  /** The character of the frame at row `y`, column `x`. */
  function Pixel(rows: seq<string>, widths: seq<nat>, speeds: seq<nat>, pos: nat, y: nat, x: nat): char {
    if y < |rows| && y < |widths| && y < |speeds| && 0 < widths[y] <= |rows[y]|
    then CellAt(rows[y], widths[y], speeds[y], pos, x) else ' '
  }

  class Device {
    // The panel.
    const ram: array<char>
    var cursor: nat
    /** How many times each coming access finds the panel busy; not busy once these are used up. */
    var waits: seq<nat>

    // The driver's record.
    var broken: bool
    var address: nat
    var scrollpos: nat
    var scrollmax: int
    var active: bool
    const visible: array2<char>
    var rows: seq<string>
    var widths: seq<nat>
    var speeds: seq<nat>

    /** How many timer ticks arrive at each coming moment of the foreground; none once these are used up. */
    var schedule: seq<nat>
    ghost var ticks: nat

    ghost predicate Valid()
      reads this, ram, visible
    {
      && ram.Length == 128 && visible.Length0 == HEIGHT && visible.Length1 == PANEL_WIDTH
      && IsText(rows) && |widths| == HEIGHT && |speeds| == HEIGHT
      && (scrollmax > 0 && !active ==> Sized())
      && (!broken ==> Mirrors())
    }

    /** The rows can be painted. */
    ghost predicate Sized()
      reads this
    {
      |widths| == HEIGHT && 0 < widths[0] <= VIRTUAL_WIDTH + 1 && 0 < widths[1] <= VIRTUAL_WIDTH + 1
    }

    /** The shadow: what the driver believes is on the panel is on it. */
    ghost predicate Mirrors()
      requires ram.Length == 128 && visible.Length0 == HEIGHT && visible.Length1 == PANEL_WIDTH
      reads this, ram, visible
    {
      && cursor == address <= 0x50
      && forall y, x :: 0 <= y < HEIGHT && 0 <= x < PANEL_WIDTH ==> ram[ColStart(y) + x] == visible[y, x]
    }

    /** The shadow holds the frame of `pos`. */
    ghost predicate Shows(pos: nat)
      requires visible.Length0 == HEIGHT && visible.Length1 == PANEL_WIDTH
      reads this, visible
    {
      forall y, x :: 0 <= y < HEIGHT && 0 <= x < PANEL_WIDTH ==> visible[y, x] == Pixel(rows, widths, speeds, pos, y, x)
    }

    /** The panel itself shows the frame of `pos`. */
    ghost predicate PanelShows(pos: nat)
      requires ram.Length == 128
      reads this, ram
    {
      forall y, x :: 0 <= y < HEIGHT && 0 <= x < PANEL_WIDTH ==>
        ram[0x40 * y + x] == Pixel(rows, widths, speeds, pos, y, x)
    }

    /** Rows no wider than the panel are on it as they are. */
    ghost predicate ShortRowsStand()
      requires ram.Length == 128 && IsText(rows)
      reads this, ram
    {
      forall y, x :: 0 <= y < HEIGHT && 0 <= x < PANEL_WIDTH && WidthOf(rows[y]) == PANEL_WIDTH ==>
        ram[0x40 * y + x] == rows[y][x]
    }

    /** Nothing that belongs to painting changed. */
    twostate predicate Untouched()
      reads this, ram, visible
    {
      && unchanged(ram) && unchanged(visible) && cursor == old(cursor) && address == old(address)
      && broken == old(broken) && waits == old(waits)
    }

    // ---- The panel ----

    /** The busy wait, with its limit of a million readings. */
    method WaitReady() returns (ok: bool)
      modifies this`waits, this`broken
      ensures ok == (!old(broken) && (old(waits) == [] || old(waits)[0] < 1000000))
      ensures broken == !ok
    {
      if broken {
        return false;
      }
      var busy := if waits == [] then 0 else waits[0];
      waits := if waits == [] then [] else waits[1..];
      var i: int, n: int := 1000000, 0;
      while n < busy
        invariant n <= busy && i == 1000000 - n && i > 0 && !broken
      {
        i, n := i - 1, n + 1;
        if i == 0 {
          broken := true;
          return false;
        }
      }
      return true;
    }

    method SetAddress(a: nat)
      requires a < 0x80
      modifies this`waits, this`broken, this`cursor
      ensures old(broken) ==> broken
      ensures !broken ==> cursor == a
    {
      var ok := WaitReady();
      if ok {
        cursor := a;
      }
    }

    method WriteData(c: char)
      requires ram.Length == 128 && (!broken ==> cursor < 128)
      modifies this`waits, this`broken, this`cursor, this`address, ram
      ensures old(broken) ==> broken
      ensures !broken ==>
                cursor == NextAddress(old(cursor)) && address == old(address) + 1
                && ram[old(cursor)] == c && forall k :: 0 <= k < 128 && k != old(cursor) ==> ram[k] == old(ram[k])
    {
      var ok := WaitReady();
      if ok {
        ram[cursor] := c;
        cursor := NextAddress(cursor);
        address := address + 1;
      }
    }

    /** One cell of the repaint: nothing if the shadow has the character already. */
    method Paint(y: nat, x: nat, c: char)
      requires Valid() && y < HEIGHT && x < PANEL_WIDTH
      modifies this`waits, this`broken, this`cursor, this`address, ram, visible
      ensures Valid() && (old(broken) ==> broken)
      ensures visible[y, x] == c && (old(visible[y, x]) == c ==> Untouched())
      ensures forall j, i :: 0 <= j < HEIGHT && 0 <= i < PANEL_WIDTH && (j != y || i != x) ==>
                visible[j, i] == old(visible[j, i])
    {
      if visible[y, x] != c {
        var a := x + ColStart(y);
        if a != address {
          SetAddress(a);
          address := a;
        }
        assert !broken ==> cursor == a < 0x50;
        WriteData(c);
        visible[y, x] := c;
      }
    }

    // ---- Repaint, timer, and the moments at which the timer may interrupt ----

    /** Since a moment with these values `k` moments of the schedule went by, and moved the position by their ticks. */
    ghost predicate Ticked(ticks0: nat, pos0: nat, s0: seq<nat>, k: nat)
      reads this
    {
      && schedule == Drop(s0, k) && ticks == ticks0 + Taken(s0, k)
      && scrollpos == AdvanceN(pos0, scrollmax, Taken(s0, k))
    }

    /** One row; the timer may tick before every cell while the foreground paints. */
    method PaintRow(y: nat, offset: nat, ghost pos: nat)
      requires Valid() && Sized() && y < HEIGHT && offset == Offset(pos, speeds[y], widths[y])
      requires forall j, i :: 0 <= j < y && 0 <= i < PANEL_WIDTH ==>
                 visible[j, i] == Pixel(rows, widths, speeds, pos, j, i)
      modifies this`waits, this`broken, this`cursor, this`address, this`scrollpos, this`schedule, this`ticks,
               ram, visible
      ensures Valid() && (old(broken) ==> broken)
      ensures forall j, i :: 0 <= j <= y && 0 <= i < PANEL_WIDTH ==>
                visible[j, i] == Pixel(rows, widths, speeds, pos, j, i)
      ensures Ticked(old(ticks), old(scrollpos), old(schedule), if active then PANEL_WIDTH else 0)
      decreases 2
    {
      hide Pixel, Wrap, Offset, AdvanceN, IsRow, Drop, Taken;
      var x := 0;
      NoMoment(schedule, scrollpos, scrollmax);
      while x < PANEL_WIDTH
        invariant x <= PANEL_WIDTH && Valid() && (old(broken) ==> broken)
        invariant forall j, i :: 0 <= j < y && 0 <= i < PANEL_WIDTH ==>
                    visible[j, i] == Pixel(rows, widths, speeds, pos, j, i)
        invariant forall i :: 0 <= i < x ==> visible[y, i] == Pixel(rows, widths, speeds, pos, y, i)
        invariant Ticked(old(ticks), old(scrollpos), old(schedule), if active then x else 0)
      {
        if active {
          MoreMoments(old(schedule), x, 1, old(scrollpos), scrollmax);
          Pause();
        }
        assert |rows[y]| == VIRTUAL_WIDTH + 1 by { RowLength(rows, y); }
        var c := rows[y][Wrap(x + offset, widths[y])];
        PixelIs(rows, widths, speeds, pos, y, x);
        Paint(y, x, c);
        x := x + 1;
      }
    }

    /** `lcd_repaint_screen`: paints the frame of the position it reads, whatever ticks come after that. */
    method Repaint()
      requires Valid() && Sized()
      modifies this`waits, this`broken, this`cursor, this`address, this`scrollpos, this`schedule, this`ticks,
               ram, visible
      ensures Valid() && (old(broken) ==> broken)
      ensures Ticked(old(ticks), old(scrollpos), old(schedule), if active then MOMENTS - 1 else 0)
      ensures Shows(if active then AdvanceN(old(scrollpos), scrollmax, Taken(old(schedule), 1)) else scrollpos)
      decreases 3
    {
      hide Pixel, AdvanceN, Drop, Taken, Offset;
      NoMoment(schedule, scrollpos, scrollmax);
      if active {
        Pause();
      }
      var pos := scrollpos;
      var y := 0;
      while y < HEIGHT
        invariant y <= HEIGHT && Valid() && (old(broken) ==> broken)
        invariant forall j, i :: 0 <= j < y && 0 <= i < PANEL_WIDTH ==>
                    visible[j, i] == Pixel(rows, widths, speeds, pos, j, i)
        invariant Ticked(old(ticks), old(scrollpos), old(schedule), if active then 1 + y * PANEL_WIDTH else 0)
      {
        var offset := pos * speeds[y] / 256;
        if offset >= widths[y] {
          offset := 0;
        }
        assert offset == Offset(pos, speeds[y], widths[y]) by { OffsetIs(pos, speeds[y], widths[y]); }
        MoreMoments(old(schedule), 1 + y * PANEL_WIDTH, PANEL_WIDTH, old(scrollpos), scrollmax);
        MoreMoments(old(schedule), 0, 0, old(scrollpos), scrollmax);
        PaintRow(y, offset, pos);
        y := y + 1;
      }
    }

    /** `timeout`: the timer moves the position on and paints it unless the foreground is painting. */
    method Tick()
      requires Valid()
      modifies this`waits, this`broken, this`cursor, this`address, this`scrollpos, this`schedule, this`ticks,
               ram, visible
      ensures Valid() && (old(broken) ==> broken)
      ensures scrollpos == Advance(old(scrollpos), scrollmax) && ticks == old(ticks) + 1 && schedule == old(schedule)
      ensures active || scrollmax <= 0 ==> Untouched()
      ensures !active && scrollmax > 0 ==> Shows(scrollpos)
      decreases if active then 0 else 4
    {
      hide Pixel;
      if scrollpos + 1 >= scrollmax {
        scrollpos := 0;
      } else {
        scrollpos := scrollpos + 1;
      }
      if scrollmax > 0 && !active {
        NoMoment(schedule, scrollpos, scrollmax);
        Repaint();
      }
      ticks := ticks + 1;
    }

    /** A moment at which the timer may run: the ticks the schedule has for it. */
    method Pause()
      requires Valid()
      modifies this`waits, this`broken, this`cursor, this`address, this`scrollpos, this`schedule, this`ticks,
               ram, visible
      ensures Valid() && (old(broken) ==> broken)
      ensures Ticked(old(ticks), old(scrollpos), old(schedule), 1)
      ensures active || scrollmax <= 0 || ticks == old(ticks) ==> Untouched()
      ensures !active && scrollmax > 0 && ticks > old(ticks) ==> Shows(scrollpos)
      decreases if active then 1 else 5
    {
      hide Pixel, Drop, Taken;
      if schedule != [] {
        OneMoment(schedule);
        var n := schedule[0];
        schedule := schedule[1..];
        var i := 0;
        while i < n
          invariant i <= n && Valid() && (old(broken) ==> broken)
          invariant ticks == old(ticks) + i && scrollpos == AdvanceN(old(scrollpos), scrollmax, i)
          invariant schedule == old(schedule)[1..]
          invariant active || scrollmax <= 0 || i == 0 ==> Untouched()
          invariant !active && scrollmax > 0 && i > 0 ==> Shows(scrollpos)
        {
          Tick();
          i := i + 1;
        }
      } else {
        NoTicks(1);
      }
    }

    // ---- The foreground ----

    /** Where a device starts: cleared, not yet painted, the timer not scrolling. */
    constructor (accesses: seq<nat>, moments: seq<nat>)
      ensures Valid() && !active && scrollmax == 0 && scrollpos == 0 && rows == [BLANK, BLANK]
      ensures fresh(ram) && fresh(visible) && waits == accesses && schedule == moments
      ensures forall y, x :: 0 <= y < HEIGHT && 0 <= x < PANEL_WIDTH ==> visible[y, x] == ' '
    {
      ram := new char[128](_ => ' ');
      visible := new char[HEIGHT, PANEL_WIDTH]((_, _) => ' ');
      waits, schedule, ticks := accesses, moments, 0;
      cursor, address, broken, active := 0, 0, false, false;
      scrollpos, scrollmax := 0, 0;
      rows, widths, speeds := [BLANK, BLANK], [0, 0], [0, 0];
    }

    /** `lcd_clear_screen`. */
    method ClearScreen()
      requires Valid() && active
      modifies this`waits, this`broken, this`cursor, this`address, this`rows, this`widths, ram, visible
      ensures Valid() && rows == [BLANK, BLANK] && (old(broken) ==> broken)
      ensures forall y, x :: 0 <= y < HEIGHT && 0 <= x < PANEL_WIDTH ==> visible[y, x] == ' '
    {
      var ok := WaitReady();
      if ok {
        forall k | 0 <= k < ram.Length {
          ram[k] := ' ';
        }
        cursor := 0;
      }
      address := 0;
      rows, widths := [BLANK, BLANK], [0, 0];
      forall y, x | 0 <= y < visible.Length0 && 0 <= x < visible.Length1 {
        visible[y, x] := ' ';
      }
    }

    /** The search for the last character of a row. */
    method MeasureRow(row: string) returns (width: nat)
      requires IsRow(row)
      ensures width == WidthOf(row)
    {
      width := VIRTUAL_WIDTH;
      while width > 0 && row[width - 1] == ' '
        invariant width <= VIRTUAL_WIDTH && Ink(row, width) == Ink(row, VIRTUAL_WIDTH)
      {
        width := width - 1;
      }
      if width <= PANEL_WIDTH {
        width := PANEL_WIDTH;
      } else {
        width := width + 1;
      }
    }

    /** The scroll parameters of the text. */
    method Tune()
      requires Valid() && active
      modifies this`widths, this`speeds, this`scrollmax
      ensures Valid() && Sized() && Tuned(rows, widths, speeds, scrollmax)
    {
      hide Ink;
      var w0 := MeasureRow(rows[0]);
      var w1 := MeasureRow(rows[1]);
      widths, speeds := [w0, w1], [0, 0];
      var widest := Widest(w0, w1);
      if widest <= PANEL_WIDTH {
        scrollmax := 0;
      } else {
        scrollmax := StoredChar(2 * widest);
        speeds := [if w0 > PANEL_WIDTH then Quot(256 * w0, 2 * widest) else 0,
                   if w1 > PANEL_WIDTH then Quot(256 * w1, 2 * widest) else 0];
      }
    }

    /**
      * The repaint loop, entered when `k0` moments of the run's schedule `s0` have gone by. It ends only with the frame
      * of the current position shown, unless its last pass, from moment `k` on, saw as many ticks as there are
      * positions.
      */
    method PaintUntilSteady(ghost s0: seq<nat>, ghost k0: nat) returns (ghost k: nat)
      requires Valid() && Sized() && active && schedule == Drop(s0, k0)
      modifies this`waits, this`broken, this`cursor, this`address, this`scrollpos, this`schedule, this`ticks,
               this`active, ram, visible
      ensures Valid() && !active && schedule == Drop(s0, k + MOMENTS)
      ensures CalmPass(Drop(s0, k), scrollmax) ==> Shows(scrollpos)
    {
      hide Pixel, AdvanceN, Drop, Taken, CalmPass;
      k := k0;
      while true
        invariant Valid() && Sized() && active && schedule == Drop(s0, k)
        decreases |schedule|
      {
        var before := scrollpos;
        ghost var s := schedule;
        MoreMoments(s, MOMENTS - 1, 1, before, scrollmax);
        MoreMoments(s0, k, MOMENTS, before, scrollmax);
        Repaint();
        active := false;
        Pause();
        if scrollpos == before {
          if CalmPass(s, scrollmax) {
            PassEnds(s, before, scrollmax);
          }
          return;
        }
        PassUses(s, before, scrollmax, MOMENTS + 2);
        MoreMoments(s, MOMENTS, 1, before, scrollmax);
        MoreMoments(s, MOMENTS + 1, 1, before, scrollmax);
        MoreMoments(s0, k, MOMENTS + 2, before, scrollmax);
        Pause();
        active := true;
        Pause();
        k := k + MOMENTS + 2;
      }
    }

    /**
      * `putc`: the character edits the text, then the panel is painted until no tick was missed. Schedule and moments
      * are those of `PaintUntilSteady`.
      */
    method Putc(edit: Edit, ghost s0: seq<nat>, ghost k0: nat) returns (ghost k: nat)
      requires Valid() && !active && (edit.Text? ==> IsText(edit.rows)) && schedule == Drop(s0, k0)
      modifies this, ram, visible
      ensures Valid() && !active && Tuned(rows, widths, speeds, scrollmax) && schedule == Drop(s0, k + MOMENTS)
      ensures rows == if edit.Clear? then [BLANK, BLANK] else edit.rows
      ensures CalmPass(Drop(s0, k), scrollmax) ==>
        Shows(scrollpos) && (!broken ==> PanelShows(scrollpos) && ShortRowsStand())
    {
      hide Pixel, AdvanceN, Tuned, Drop, Taken, CalmPass, PanelShows, ShortRowsStand;
      active := true;
      DropDrop(s0, k0, 1);
      DropDrop(s0, k0 + 1, 1);
      DropDrop(s0, k0 + 2, 1);
      Pause();
      if edit.Clear? {
        ClearScreen();
      } else {
        rows := edit.rows;
      }
      Pause();
      Tune();
      Pause();
      k := PaintUntilSteady(s0, k0 + 3);
      PanelIs(this, scrollpos);
      ShortRowsStill(this, scrollpos);
    }
  }

  /** The widest row fits the driver's scroll counter. */
  predicate Fits(rows: seq<string>)
    requires IsText(rows)
  {
    Widest(WidthOf(rows[0]), WidthOf(rows[1])) <= 63
  }

  /** Text that does not scroll has one frame for every position. */
  lemma SteadyFrame(rows: seq<string>, widths: seq<nat>, speeds: seq<nat>, max: int, p: nat, q: nat, y: nat, x: nat)
    requires IsText(rows) && Tuned(rows, widths, speeds, max) && Fits(rows) && max <= 0 && y < HEIGHT
    ensures Pixel(rows, widths, speeds, p, y, x) == Pixel(rows, widths, speeds, q, y, x)
  {
    assert speeds[y] == 0;
  }

  datatype Event = Put(edit: Edit) | TimerTick

  predicate IsEvent(e: Event) {
    e.Put? && e.edit.Text? ==> IsText(e.edit.rows)
  }

  /**
    * Any run of characters and timer ticks. Once a character was written, as long as no pass can see as many ticks
    * as there are positions, the panel shows one whole frame of the text: for text that fits the counter, the frame of
    * the position; for wider text that of the position the last character was painted at, which a tick since then
    * has set to zero without painting.
    */
  method Session(dev: Device, events: seq<Event>)
    requires dev.Valid() && !dev.active && forall i :: 0 <= i < |events| ==> IsEvent(events[i])
    modifies dev, dev.ram, dev.visible
    ensures dev.Valid() && !dev.active
    ensures (exists i :: 0 <= i < |events| && events[i].Put?) && Calm(old(dev.schedule), dev.scrollmax) ==>
              exists p: nat :: dev.Shows(p) && (!dev.broken ==> dev.PanelShows(p) && dev.ShortRowsStand())
                               && (dev.scrollpos == p || (!Fits(dev.rows) && dev.scrollpos == 0))
  {
    hide Pixel, Tuned, CalmPass, Drop, Device.PanelShows, Device.ShortRowsStand;
    ghost var started, k: nat, s0, p: nat := false, 0, dev.schedule, dev.scrollpos;
    NoMoment(s0, 0, 0);
    var n := 0;
    while n < |events|
      invariant n <= |events| && dev.Valid() && !dev.active && dev.schedule == Drop(s0, k)
      invariant started == exists i :: 0 <= i < n && events[i].Put?
      invariant started ==> Tuned(dev.rows, dev.widths, dev.speeds, dev.scrollmax)
      invariant started ==> dev.scrollpos == p || (!Fits(dev.rows) && dev.scrollpos == 0)
      invariant started && Calm(s0, dev.scrollmax) ==> dev.Shows(p)
    {
      assert IsEvent(events[n]);
      if events[n].Put? {
        k := dev.Putc(events[n].edit, s0, k);
        assert Calm(s0, dev.scrollmax) ==> CalmPass(Drop(s0, k), dev.scrollmax);
        k := k + MOMENTS;
        started, p := true, dev.scrollpos;
      } else {
        dev.Tick();
        if started {
          NotScrolling(dev.rows, dev.widths, dev.speeds, dev.scrollmax);
          if dev.scrollmax > 0 {
            p := dev.scrollpos;
          } else if Fits(dev.rows) {
            forall y, x | 0 <= y < HEIGHT && 0 <= x < PANEL_WIDTH
              ensures Pixel(dev.rows, dev.widths, dev.speeds, p, y, x)
                   == Pixel(dev.rows, dev.widths, dev.speeds, dev.scrollpos, y, x)
            {
              SteadyFrame(dev.rows, dev.widths, dev.speeds, dev.scrollmax, p, dev.scrollpos, y, x);
            }
            p := dev.scrollpos;
          }
        }
      }
      n := n + 1;
    }
    if started {
      PanelIs(dev, p);
      ShortRowsStill(dev, p);
    }
  }

  /** What the shadow shows is on the panel. */
  lemma PanelIs(dev: Device, pos: nat)
    requires dev.Valid()
    ensures !dev.broken && dev.Shows(pos) ==> dev.PanelShows(pos)
  {
    hide Pixel;
  }

  lemma ShortRowsStill(dev: Device, pos: nat)
    requires dev.ram.Length == 128 && IsText(dev.rows) && Tuned(dev.rows, dev.widths, dev.speeds, dev.scrollmax)
    ensures dev.PanelShows(pos) ==> dev.ShortRowsStand()
  {
    hide Pixel;
    forall y, x | 0 <= y < HEIGHT && 0 <= x < PANEL_WIDTH && WidthOf(dev.rows[y]) == PANEL_WIDTH
      ensures Pixel(dev.rows, dev.widths, dev.speeds, pos, y, x) == dev.rows[y][x]
    {
      PixelStill(dev.rows, dev.widths, dev.speeds, dev.scrollmax, pos, y, x);
    }
  }

  /** A row that fits the panel shows the same in every frame. */
  lemma PixelStill(rows: seq<string>, widths: seq<nat>, speeds: seq<nat>, max: int, pos: nat, y: nat, x: nat)
    requires IsText(rows) && Tuned(rows, widths, speeds, max) && y < HEIGHT && x < PANEL_WIDTH
    requires WidthOf(rows[y]) == PANEL_WIDTH
    ensures Pixel(rows, widths, speeds, pos, y, x) == rows[y][x]
  {
    hide WidthOf, SpeedOf, CellAt;
    StandsStill(rows[y], Widest(WidthOf(rows[0]), WidthOf(rows[1])), pos, x);
  }

  /** Text that does not fit leaves a counter below zero. */
  lemma NotScrolling(rows: seq<string>, widths: seq<nat>, speeds: seq<nat>, max: int)
    requires IsText(rows) && Tuned(rows, widths, speeds, max)
    ensures !Fits(rows) ==> max < 0
  {
  }

  lemma OffsetIs(pos: nat, speed: nat, width: nat)
    ensures Offset(pos, speed, width) == if pos * speed / 256 >= width then 0 else pos * speed / 256
  {
  }

  lemma RowLength(rows: seq<string>, y: nat)
    requires IsText(rows) && y < HEIGHT
    ensures |rows[y]| == VIRTUAL_WIDTH + 1
  {
  }

  lemma PixelIs(rows: seq<string>, widths: seq<nat>, speeds: seq<nat>, pos: nat, y: nat, x: nat)
    requires y < |rows| && y < |widths| && y < |speeds| && 0 < widths[y] <= |rows[y]|
    ensures Pixel(rows, widths, speeds, pos, y, x) == rows[y][Wrap(x + Offset(pos, speeds[y], widths[y]), widths[y])]
  {
  }
}
