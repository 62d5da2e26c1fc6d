/** Where the monthly and weekly views place each day, and which note
    buttons a day's cell holds (`populate_monthly_grid`,
    `populate_weekly_grid`). */
module Grid {
  import opened Text
  import opened Calendar
  import opened Store

  /** A note's button in a day's cell, marked when the note has an alarm. */
  datatype Entry = Entry(note: Note, hasAlarm: bool)

  /** A day's cell: the day number shown, the grid column and row it is
      attached at, the date key it lists notes for, and their buttons. */
  datatype Cell = Cell(day: int, col: int, row: int, key: string, entries: seq<Entry>)

  /** `[n for n in self.notes if n['date'] == date_str]`, each marked by
      `note['id'] in all_alarms`. */
  function DayEntries(notes: seq<Note>, alarmIds: set<nat>, key: string): seq<Entry>
    decreases |notes|
  {
    if |notes| == 0 then []
    else
      var n := notes[|notes| - 1];
      DayEntries(notes[..|notes| - 1], alarmIds, key) + (if n.date == key then [Entry(n, n.id in alarmIds)] else [])
  }

  /** A day's cell holds a button for exactly the notes dated that day,
      marked exactly when the note has an alarm row. */
  lemma {:induction false} DayEntriesMeaning(notes: seq<Note>, alarmIds: set<nat>, key: string)
    ensures var es := DayEntries(notes, alarmIds, key);
      && (forall e :: e in es ==> e.note in notes && e.note.date == key && e.hasAlarm == (e.note.id in alarmIds))
      && (forall n :: n in notes && n.date == key ==> Entry(n, n.id in alarmIds) in es)
    decreases |notes|
  {
    if |notes| > 0 {
      var init := notes[..|notes| - 1];
      var n := notes[|notes| - 1];
      assert notes == init + [n];
      DayEntriesMeaning(init, alarmIds, key);
    }
  }

  /** The first `n` values of `f`, in order: the cells a walk attaches one
      after the other. */
  function Prefix<T>(f: nat --> T, n: nat): (s: seq<T>)
    requires forall k :: 0 <= k < n ==> f.requires(k)
    ensures |s| == n
  {
    if n == 0 then [] else Prefix(f, n - 1) + [f(n - 1)]
  }

  lemma PrefixSnoc<T>(f: nat --> T, n: nat, x: T)
    requires forall k :: 0 <= k <= n ==> f.requires(k)
    requires x == f(n)
    ensures Prefix(f, n) + [x] == Prefix(f, n + 1)
  {
  }

  lemma {:induction false} PrefixIndex<T>(f: nat --> T, n: nat)
    requires forall k :: 0 <= k < n ==> f.requires(k)
    ensures forall k :: 0 <= k < n ==> Prefix(f, n)[k] == f(k)
  {
    if n > 0 {
      PrefixIndex(f, n - 1);
      assert Prefix(f, n) == Prefix(f, n - 1) + [f(n - 1)];
    }
  }

  function Min(a: int, b: int): int {
    if a < b then a else b
  }

  function Max0(a: int): nat {
    if a < 0 then 0 else a
  }

  // ---------------------------------------------------------------------
  // The month

  /** The cell of day `k + 1` of month `month` of `year` when the month's
      first day has weekday `w`: slot `w + k` of the six-by-seven grid,
      counted row by row from row 1. */
  function MonthCell(year: nat, month: nat, w: int, k: nat, notes: seq<Note>, alarmIds: set<nat>): Cell {
    var key := DateKey(Date(year, month, k + 1));
    Cell(k + 1, (w + k) % 7, 1 + (w + k) / 7, key, DayEntries(notes, alarmIds, key))
  }

  /** The month's cells by day index. */
  function MonthColumn(year: nat, month: nat, w: int, notes: seq<Note>, alarmIds: set<nat>): nat --> Cell {
    (k: nat) => MonthCell(year, month, w, k, notes, alarmIds)
  }

  lemma SlotPosition(r: int, c: int)
    requires r >= 0 && 0 <= c < 7
    ensures (7 * r + c) % 7 == c && (7 * r + c) / 7 == r
  {
  }

  /** The cell the walk attaches at slot `(row, col)` is the cell of day
      `current`. */
  lemma CellAtSlot(year: nat, month: nat, w: int, row: int, col: int, current: int, notes: seq<Note>, alarmIds: set<nat>)
    requires 1 <= row && 0 <= col < 7 && current >= 1
    requires 7 * (row - 1) + col - w == current - 1
    ensures var key := DateKey(Date(year, month, current));
      Cell(current, col, row, key, DayEntries(notes, alarmIds, key)) == MonthColumn(year, month, w, notes, alarmIds)(current - 1)
  {
    SlotPosition(row - 1, col);
  }

  /** The month's cells walked as the source does: rows 1..6, columns 0..6,
      skipping the columns of row 1 before the first weekday, one cell per
      day until the month runs out. */
  method PopulateMonthlyGrid(selected: Date, notes: seq<Note>, alarmIds: set<nat>) returns (cells: seq<Cell>)
    requires ValidDate(selected)
    ensures |cells| == DaysInMonth(selected.year, selected.month)
    ensures var w := Weekday(Date(selected.year, selected.month, 1));
      forall k :: 0 <= k < |cells| ==> cells[k] == MonthCell(selected.year, selected.month, w, k, notes, alarmIds)
  {
    var first := Date(selected.year, selected.month, 1);
    var w := Weekday(first);
    var n := DaysInMonth(selected.year, selected.month);
    cells := [];
    var current := 1;
    var row := 1;
    while row < 7
      invariant 1 <= row <= 7
      invariant current == |cells| + 1
      invariant |cells| == Placed(n, w, 7 * (row - 1))
      invariant cells == Prefix(MonthColumn(first.year, first.month, w, notes, alarmIds), |cells|)
    {
      cells, current := PopulateMonthRow(first.year, first.month, w, n, row, cells, current, notes, alarmIds);
      if current > n {
        break;
      }
      row := row + 1;
    }
    PrefixIndex(MonthColumn(first.year, first.month, w, notes, alarmIds), |cells|);
  }

  /** How many of the month's `n` days the walk has placed before slot `s`
      of the grid, when the first day sits at slot `w`. */
  function Placed(n: nat, w: int, s: int): nat {
    Min(n, Max0(s - w))
  }

  /** The count moves by one per slot from slot `w` on, and stops at `n`. */
  lemma PlacedNext(n: nat, w: int, s: int)
    ensures Placed(n, w, s + 1) == if s < w then 0 else if Placed(n, w, s) < n then Placed(n, w, s) + 1 else n
  {
  }

  lemma PlacedFull(n: nat, w: int, s: int, t: int)
    requires Placed(n, w, s) == n && s <= t
    ensures Placed(n, w, t) == n
  {
  }

  /** One row of the month walk: columns 0..6, skipping the columns of row
      1 before the first weekday, one cell per day until day `n` is placed. */
  method PopulateMonthRow(year: nat, month: nat, w: int, n: nat, row: int, prior: seq<Cell>, start: int, notes: seq<Note>, alarmIds: set<nat>)
    returns (cells: seq<Cell>, current: int)
    requires 0 <= w < 7 && 1 <= row
    requires start == |prior| + 1 && |prior| == Placed(n, w, 7 * (row - 1))
    requires prior == Prefix(MonthColumn(year, month, w, notes, alarmIds), |prior|)
    ensures current == |cells| + 1 && |cells| == Placed(n, w, 7 * row)
    ensures cells == Prefix(MonthColumn(year, month, w, notes, alarmIds), |cells|)
  {
    cells, current := prior, start;
    var col := 0;
    while col < 7
      invariant 0 <= col <= 7
      invariant current == |cells| + 1
      invariant |cells| == Placed(n, w, 7 * (row - 1) + col)
      invariant cells == Prefix(MonthColumn(year, month, w, notes, alarmIds), |cells|)
    {
      PlacedNext(n, w, 7 * (row - 1) + col);
      if row == 1 && col < w {
        col := col + 1;
        continue;
      }
      if current > n {
        PlacedFull(n, w, 7 * (row - 1) + col, 7 * row);
        break;
      }
      CellAtSlot(year, month, w, row, col, current, notes, alarmIds);
      var key := DateKey(Date(year, month, current));
      var cell := Cell(current, col, row, key, DayEntries(notes, alarmIds, key));
      PrefixSnoc(MonthColumn(year, month, w, notes, alarmIds), |cells|, cell);
      cells := cells + [cell];
      current := current + 1;
      col := col + 1;
    }
  }

  /** `(a + k) % 7` depends on `a` only through `a % 7`. */
  lemma AddMod7(a: int, k: int)
    requires a >= 0 && k >= 0
    ensures (a + k) % 7 == (a % 7 + k) % 7
  {
    ShiftMod7(a / 7, a % 7 + k);
    assert a + k == 7 * (a / 7) + (a % 7 + k);
  }

  /** Every day's cell sits in the column of its own weekday and in rows
      1..6; the columns of row 1 before the first weekday stay empty; and
      it lists the notes of its own date. */
  lemma MonthCellPlacement(first: Date, k: nat, notes: seq<Note>, alarmIds: set<nat>)
    requires ValidDate(first) && first.day == 1 && k < DaysInMonth(first.year, first.month)
    ensures var c := MonthCell(first.year, first.month, Weekday(first), k, notes, alarmIds);
      && c.day == k + 1
      && c.col == Weekday(Date(first.year, first.month, k + 1))
      && 1 <= c.row <= 6
      && (c.row == 1 ==> c.col >= Weekday(first))
      && c.key == DateKey(Date(first.year, first.month, k + 1))
  {
    var d := Date(first.year, first.month, k + 1);
    assert Ordinal(d) == Ordinal(first) + k;
    AddMod7(Ordinal(first) + 6, k);
  }

  /** No two days of the month share a cell. */
  lemma MonthCellsDistinct(year: nat, month: nat, w: int, i: nat, j: nat, notes: seq<Note>, alarmIds: set<nat>)
    requires 0 <= w < 7 && i < j
    ensures var a, b := MonthCell(year, month, w, i, notes, alarmIds), MonthCell(year, month, w, j, notes, alarmIds);
      (a.row, a.col) != (b.row, b.col)
  {
    assert w + i == 7 * ((w + i) / 7) + (w + i) % 7;
    assert w + j == 7 * ((w + j) / 7) + (w + j) % 7;
  }

  // ---------------------------------------------------------------------
  // The week

  /** Column `i` of the week that starts on the Monday `start`. */
  function WeekCell(start: Date, i: nat, notes: seq<Note>, alarmIds: set<nat>): Cell
    requires ValidDate(start) && Ordinal(start) + i <= MaxOrdinal
  {
    var day := AddDays(start, i);
    var key := DateKey(day);
    Cell(day.day, i, 1, key, DayEntries(notes, alarmIds, key))
  }

  /** The columns of the week that starts on `start`, by column number. */
  function WeekColumn(start: Date, notes: seq<Note>, alarmIds: set<nat>): nat --> Cell {
    (i: nat) requires ValidDate(start) && Ordinal(start) + i <= MaxOrdinal => WeekCell(start, i, notes, alarmIds)
  }

  /** The week view's day cells, Monday first. `start_of_week + i` past
      9999-12-31 raises OverflowError: then the columns attached so far stay
      and `overflow` is set. */
  method PopulateWeeklyGrid(selected: Date, notes: seq<Note>, alarmIds: set<nat>) returns (cells: seq<Cell>, overflow: bool)
    requires ValidDate(selected)
    ensures |cells| == Min(7, MaxOrdinal - Ordinal(WeekStart(selected)) + 1)
    ensures overflow <==> |cells| < 7
    ensures cells == Prefix(WeekColumn(WeekStart(selected), notes, alarmIds), |cells|)
  {
    var start := WeekStart(selected);
    cells := [];
    overflow := false;
    var i := 0;
    while i < 7
      invariant 0 <= i <= 7 && !overflow
      invariant Ordinal(start) + i <= MaxOrdinal + 1
      invariant cells == Prefix(WeekColumn(start, notes, alarmIds), i)
    {
      if Ordinal(start) + i > MaxOrdinal {
        overflow := true;
        break;
      }
      var day := AddDays(start, i);
      var key := DateKey(day);
      cells := cells + [Cell(day.day, i, 1, key, DayEntries(notes, alarmIds, key))];
      i := i + 1;
    }
  }

  /** Column `k` of the first `n` holds the cell of the `k`-th day after
      `start`. */
  lemma WeekGridCell(start: Date, n: nat, k: nat, notes: seq<Note>, alarmIds: set<nat>)
    requires ValidDate(start) && Ordinal(start) + n <= MaxOrdinal + 1 && k < n
    ensures Prefix(WeekColumn(start, notes, alarmIds), n)[k] == WeekCell(start, k, notes, alarmIds)
  {
    PrefixIndex(WeekColumn(start, notes, alarmIds), n);
  }

  /** Column `i` of the week shows a day whose weekday is `i`. */
  lemma WeekCellWeekday(selected: Date, i: nat)
    requires ValidDate(selected) && i < 7 && Ordinal(WeekStart(selected)) + i <= MaxOrdinal
    ensures Weekday(AddDays(WeekStart(selected), i)) == i
  {
    WeekStartMonday(selected);
    MondayColumn(WeekStart(selected), i);
  }

  /** `i` days after a Monday is weekday `i`. */
  lemma MondayColumn(start: Date, i: nat)
    requires ValidDate(start) && Weekday(start) == 0 && i < 7 && Ordinal(start) + i <= MaxOrdinal
    ensures Weekday(AddDays(start, i)) == i
  {
    AddDaysWeekday(start, i);
    SmallMod7(Weekday(start), i);
  }

  lemma SmallMod7(w: int, i: int)
    requires w == 0 && 0 <= i < 7
    ensures (w + i) % 7 == i
  {
  }

  /** The selected day always has its column in the week view: the one of
      its weekday. */
  lemma SelectedDayShown(selected: Date)
    requires ValidDate(selected)
    ensures Weekday(selected) < Min(7, MaxOrdinal - Ordinal(WeekStart(selected)) + 1)
    ensures AddDays(WeekStart(selected), Weekday(selected)) == selected
  {
    var start := WeekStart(selected);
    OrdinalInjective(AddDays(start, Weekday(selected)), selected);
  }

  /** The week view runs out of dates exactly for the days from 27 to 31
      December 9999 (ordinals `MaxOrdinal - 4` up), whose week starts on
      Monday 27 December. */
  lemma WeekOverflow(selected: Date)
    requires ValidDate(selected)
    ensures Ordinal(WeekStart(selected)) + 6 > MaxOrdinal <==> Ordinal(selected) >= MaxOrdinal - 4
  {
    var o, w := Ordinal(selected), Weekday(selected);
    WeekdayOfOrdinal(selected, o);
    assert Ordinal(WeekStart(selected)) == o - w;
    LastWeekArithmetic(o, w);
  }

  lemma LastWeekArithmetic(o: int, w: int)
    requires 1 <= o <= MaxOrdinal
    requires w == (o + 6) % 7
    ensures o - w + 6 > MaxOrdinal <==> o >= MaxOrdinal - 4
  {
    var q := (o + 6) / 7;
    assert o + 6 == 7 * q + w;
    if o >= MaxOrdinal - 4 {
      assert q == 521723;
    } else {
      assert q <= 521722;
    }
  }

  /** The week view overflows exactly when the selected day is one of 27 to
      31 December 9999: the ordinal bound of `WeekOverflow` read as dates. */
  lemma LastDaysOverflow(selected: Date)
    requires ValidDate(selected)
    ensures Ordinal(WeekStart(selected)) + 6 > MaxOrdinal
        <==> selected.year == 9999 && selected.month == 12 && selected.day >= 27
  {
    WeekOverflow(selected);
    var dec27 := Date(9999, 12, 27);
    assert DaysInMonth(9999, 12) == 31;
    assert DaysBeforeYear(9999) == 3651694;
    assert DaysBeforeMonth(9999, 12) == 334;
    assert Ordinal(dec27) == MaxOrdinal - 4;
    if selected.year < 9999 {
      OrdinalYearOrder(selected, dec27);
    } else if selected.month < 12 {
      OrdinalMonthOrder(selected, dec27);
    }
  }
}
