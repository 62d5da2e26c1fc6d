/** What one tick of the alarm check fires, as a function of the tables,
    the clock and the set of active alarm ids, and the time a snooze moves
    an alarm to. The engine's methods are proved against these. */
module Scheduler {
  import opened Wrappers
  import opened Text
  import opened Calendar
  import opened Store
  import opened Rules

  /** The wall clock at a tick, to the minute. */
  datatype Clock = Clock(date: Date, hour: nat, minute: nat)

  predicate ValidClock(c: Clock) {
    ValidDate(c.date) && c.hour < 24 && c.minute < 60
  }

  /** `now.strftime("%H:%M")`. */
  function NowTime(c: Clock): string
    requires ValidClock(c)
  {
    TimeText(c.hour, c.minute)
  }

  /** `now.strftime("%Y-%m-%d")`. */
  function NowDate(c: Clock): string
    requires ValidClock(c)
  {
    DateKey(c.date)
  }

  function MinuteOfDay(c: Clock): nat {
    c.hour * 60 + c.minute
  }

  /** An alarm window: the id it is tracked under, what it shows, and the
      sound, volume and duration it was opened with. */
  datatype Popup = Popup(id: AlarmId, title: string, content: string, sound: Option<string>, volume: int, duration: int)

  /** The volume and duration (in seconds) every fixed reminder rings with. */
  const FixedVolume := 80
  const FixedDuration := 10

  // ---------------------------------------------------------------------
  // One-time alarms

  /** A note's alarm rings: it has an alarm row, it is dated today, the row's
      time is the current minute, and its id is not active. */
  predicate OneTimeDue(n: Note, alarms: map<nat, AlarmRow>, now: Clock, ledger: set<AlarmId>)
    requires ValidClock(now)
  {
    n.id in alarms && n.date == NowDate(now) && alarms[n.id].time == NowTime(now) && IntId(n.id) !in ledger
  }

  function OneTimePopup(n: Note, row: AlarmRow): Popup {
    Popup(IntId(n.id), n.title, n.content, row.sound, row.volume, row.duration)
  }

  function Ids(ps: seq<Popup>): set<AlarmId> {
    set p | p in ps :: p.id
  }

  lemma IdsAppend(ps: seq<Popup>, p: Popup)
    ensures Ids(ps + [p]) == Ids(ps) + {p.id}
  {
    assert forall q :: q in ps + [p] <==> q in ps || q == p;
  }

  /** A window whose id is neither active nor already opened keeps the
      opened ids fresh and distinct. */
  lemma FreshAppend(prev: seq<Popup>, p: Popup, ledger: set<AlarmId>)
    requires forall k :: 0 <= k < |prev| ==> prev[k].id !in ledger
    requires forall i, j :: 0 <= i < j < |prev| ==> prev[i].id != prev[j].id
    requires p.id !in ledger + Ids(prev)
    ensures forall k :: 0 <= k < |prev| ==> (prev + [p])[k] == prev[k]
    ensures (prev + [p])[|prev|] == p
    ensures forall k :: 0 <= k < |prev| + 1 ==> (prev + [p])[k].id !in ledger
    ensures forall i, j :: 0 <= i < j < |prev| + 1 ==> (prev + [p])[i].id != (prev + [p])[j].id
  {
    assert forall k :: 0 <= k < |prev| ==> prev[k].id in Ids(prev);
  }

  /** The windows the first loop of `check_alarms` opens over `notes`, in
      order; each id that fires joins the active set before the next note
      is looked at. Every id fired is new, and no id fires twice. */
  function DueOneTime(notes: seq<Note>, alarms: map<nat, AlarmRow>, now: Clock, ledger: set<AlarmId>): (fired: seq<Popup>)
    requires ValidClock(now)
    ensures forall k :: 0 <= k < |fired| ==> fired[k].id.IntId? && fired[k].id !in ledger
    ensures forall i, j :: 0 <= i < j < |fired| ==> fired[i].id != fired[j].id
    decreases |notes|
  {
    if |notes| == 0 then []
    else
      var prev := DueOneTime(notes[..|notes| - 1], alarms, now, ledger);
      var n := notes[|notes| - 1];
      if OneTimeDue(n, alarms, now, ledger + Ids(prev)) then
        FreshAppend(prev, OneTimePopup(n, alarms[n.id]), ledger);
        prev + [OneTimePopup(n, alarms[n.id])]
      else prev
  }

  function NoteIdSet(notes: seq<Note>): set<nat> {
    set n | n in notes :: n.id
  }

  /** The reference meaning of the first loop: a window for every note due
      against the active set as it was before the tick, in note order. */
  function DueNotes(notes: seq<Note>, alarms: map<nat, AlarmRow>, now: Clock, ledger: set<AlarmId>): (due: seq<Popup>)
    requires ValidClock(now)
    ensures forall k :: 0 <= k < |due| ==> due[k].id.IntId? && due[k].id.n in NoteIdSet(notes)
    decreases |notes|
  {
    if |notes| == 0 then []
    else
      var n := notes[|notes| - 1];
      var init := notes[..|notes| - 1];
      assert forall m :: m in init ==> m in notes;
      DueNotes(init, alarms, now, ledger)
      + (if OneTimeDue(n, alarms, now, ledger) then [OneTimePopup(n, alarms[n.id])] else [])
  }

  /** With distinct note ids, the loop, which grows the active set as it
      goes, opens exactly the windows of the reference filter. */
  lemma {:induction false} DueOneTimeIsFilter(notes: seq<Note>, alarms: map<nat, AlarmRow>, now: Clock, ledger: set<AlarmId>)
    requires ValidClock(now) && UniqueNoteIds(notes)
    ensures DueOneTime(notes, alarms, now, ledger) == DueNotes(notes, alarms, now, ledger)
    decreases |notes|
  {
    if |notes| > 0 {
      var init := notes[..|notes| - 1];
      var n := notes[|notes| - 1];
      assert UniqueNoteIds(init);
      DueOneTimeIsFilter(init, alarms, now, ledger);
      var prev := DueNotes(init, alarms, now, ledger);
      assert n.id !in NoteIdSet(init) by {
        forall m | m in init ensures m.id != n.id {
          var i :| 0 <= i < |init| && init[i] == m;
          assert notes[i] == m;
        }
      }
      assert IntId(n.id) !in Ids(prev);
    }
  }

  /** With distinct note ids, a note's window is among the filter's exactly
      when the note is due. */
  lemma {:induction false} DueNotesMembers(notes: seq<Note>, alarms: map<nat, AlarmRow>, now: Clock, ledger: set<AlarmId>)
    requires ValidClock(now) && UniqueNoteIds(notes)
    ensures forall n :: n in notes ==>
      (OneTimeDue(n, alarms, now, ledger) <==> n.id in alarms && OneTimePopup(n, alarms[n.id]) in DueNotes(notes, alarms, now, ledger))
    decreases |notes|
  {
    if |notes| > 0 {
      var init := notes[..|notes| - 1];
      var n := notes[|notes| - 1];
      assert UniqueNoteIds(init);
      DueNotesMembers(init, alarms, now, ledger);
      assert notes == init + [n];
      assert n.id !in NoteIdSet(init) by {
        forall q | q in init ensures q.id != n.id {
          var i :| 0 <= i < |init| && init[i] == q;
          assert notes[i] == q;
        }
      }
      forall m | m in notes
        ensures OneTimeDue(m, alarms, now, ledger) <==> m.id in alarms && OneTimePopup(m, alarms[m.id]) in DueNotes(notes, alarms, now, ledger)
      {
        DueNotesMember(init, n, alarms, now, ledger, m);
      }
    }
  }

  /** One step of `DueNotesMembers`: the note `m` of `init + [n]`. */
  lemma DueNotesMember(init: seq<Note>, n: Note, alarms: map<nat, AlarmRow>, now: Clock, ledger: set<AlarmId>, m: Note)
    requires ValidClock(now) && m in init + [n] && n.id !in NoteIdSet(init)
    requires m in init ==>
      (OneTimeDue(m, alarms, now, ledger) <==> m.id in alarms && OneTimePopup(m, alarms[m.id]) in DueNotes(init, alarms, now, ledger))
    ensures OneTimeDue(m, alarms, now, ledger) <==> m.id in alarms && OneTimePopup(m, alarms[m.id]) in DueNotes(init + [n], alarms, now, ledger)
  {
    var notes := init + [n];
    assert notes[..|notes| - 1] == init;
    var prev := DueNotes(init, alarms, now, ledger);
    if m in init {
      assert m.id in NoteIdSet(init);
    } else {
      assert m == n;
      assert n.id in alarms ==> OneTimePopup(n, alarms[n.id]) !in prev;
    }
  }

  // ---------------------------------------------------------------------
  // Fixed reminders

  /** `SELECT … FROM fixed_notes WHERE alarm_enabled=1 AND event_time=?`. */
  function EnabledAt(fixedNotes: seq<FixedNote>, time: string): (rows: seq<FixedNote>)
    ensures forall f :: f in rows <==> f in fixedNotes && f.alarmEnabled && f.eventTime == time
    decreases |fixedNotes|
  {
    if |fixedNotes| == 0 then []
    else
      var init := EnabledAt(fixedNotes[..|fixedNotes| - 1], time);
      var f := fixedNotes[|fixedNotes| - 1];
      assert fixedNotes == fixedNotes[..|fixedNotes| - 1] + [f];
      if f.alarmEnabled && f.eventTime == time then init + [f] else init
  }

  /** A fixed reminder rings: it is enabled, its time is the current minute,
      its tagged id is not active and its rule selects today. */
  predicate FixedDue(f: FixedNote, now: Clock, ledger: set<AlarmId>)
    requires ValidClock(now)
  {
    f.alarmEnabled && f.eventTime == NowTime(now) && FixedAlarmId(f.id) !in ledger && RuleMatches(f, now.date)
  }

  /** The window of a fixed reminder: no sound, volume 80, ten seconds. */
  function FixedPopup(f: FixedNote): Popup {
    Popup(FixedAlarmId(f.id), f.title, f.content, None, FixedVolume, FixedDuration)
  }

  /** The windows the second loop of `check_alarms` opens over the queried
      rows, with the same ledger threading as for notes. */
  function DueFixed(rows: seq<FixedNote>, now: Clock, ledger: set<AlarmId>): (fired: seq<Popup>)
    requires ValidClock(now)
    ensures forall k :: 0 <= k < |fired| ==> fired[k].id.StrId? && fired[k].id !in ledger
    ensures forall i, j :: 0 <= i < j < |fired| ==> fired[i].id != fired[j].id
    decreases |rows|
  {
    if |rows| == 0 then []
    else
      var prev := DueFixed(rows[..|rows| - 1], now, ledger);
      var f := rows[|rows| - 1];
      if FixedDue(f, now, ledger + Ids(prev)) then
        FreshAppend(prev, FixedPopup(f), ledger);
        prev + [FixedPopup(f)]
      else prev
  }

  predicate UniqueFixedIds(rows: seq<FixedNote>) {
    forall i, j :: 0 <= i < j < |rows| ==> rows[i].id != rows[j].id
  }

  function TaggedIds(rows: seq<FixedNote>): set<AlarmId> {
    set f | f in rows :: FixedAlarmId(f.id)
  }

  /** With distinct reminder ids, the last row's tagged id is not among the
      others'. */
  lemma LastTaggedIdFresh(rows: seq<FixedNote>)
    requires |rows| > 0 && UniqueFixedIds(rows)
    ensures FixedAlarmId(rows[|rows| - 1].id) !in TaggedIds(rows[..|rows| - 1])
  {
    var init := rows[..|rows| - 1];
    var f := rows[|rows| - 1];
    forall g | g in init ensures FixedAlarmId(g.id) != FixedAlarmId(f.id) {
      var i :| 0 <= i < |init| && init[i] == g;
      assert rows[i] == g;
      FixedAlarmIdInjective(g.id, f.id);
    }
  }

  /** The reference meaning of the second loop: a window for every reminder
      due against the active set as it was, in row order. */
  function DueReminders(rows: seq<FixedNote>, now: Clock, ledger: set<AlarmId>): (due: seq<Popup>)
    requires ValidClock(now)
    ensures forall k :: 0 <= k < |due| ==> due[k].id in TaggedIds(rows)
    decreases |rows|
  {
    if |rows| == 0 then []
    else
      var f := rows[|rows| - 1];
      var init := rows[..|rows| - 1];
      assert forall g :: g in init ==> g in rows;
      DueReminders(init, now, ledger) + (if FixedDue(f, now, ledger) then [FixedPopup(f)] else [])
  }

  /** With distinct reminder ids, the loop opens exactly the windows of the
      reference filter. */
  lemma {:induction false} DueFixedIsFilter(rows: seq<FixedNote>, now: Clock, ledger: set<AlarmId>)
    requires ValidClock(now) && UniqueFixedIds(rows)
    ensures DueFixed(rows, now, ledger) == DueReminders(rows, now, ledger)
    decreases |rows|
  {
    if |rows| > 0 {
      var init := rows[..|rows| - 1];
      var f := rows[|rows| - 1];
      assert UniqueFixedIds(init);
      DueFixedIsFilter(init, now, ledger);
      var prev := DueReminders(init, now, ledger);
      LastTaggedIdFresh(rows);
      assert FixedAlarmId(f.id) !in Ids(prev);
    }
  }

  /** A reminder whose rows are all switched off gets no window from the
      filter, whatever the active set. */
  lemma {:induction false} DisabledNotDue(rows: seq<FixedNote>, id: nat, now: Clock, ledger: set<AlarmId>)
    requires ValidClock(now)
    requires forall f :: f in rows && f.id == id ==> !f.alarmEnabled
    ensures FixedAlarmId(id) !in Ids(DueReminders(rows, now, ledger))
    decreases |rows|
  {
    if |rows| > 0 {
      var init := rows[..|rows| - 1];
      var f := rows[|rows| - 1];
      assert forall g :: g in init ==> g in rows;
      DisabledNotDue(init, id, now, ledger);
      var prev := DueReminders(init, now, ledger);
      if FixedDue(f, now, ledger) {
        assert rows[|rows| - 1] in rows;
        FixedAlarmIdInjective(f.id, id);
        IdsAppend(prev, FixedPopup(f));
      }
    }
  }

  /** With distinct reminder ids, a reminder's window is among the filter's
      exactly when the reminder is due. */
  lemma {:induction false} DueRemindersMembers(rows: seq<FixedNote>, now: Clock, ledger: set<AlarmId>)
    requires ValidClock(now) && UniqueFixedIds(rows)
    ensures forall f :: f in rows ==> (FixedDue(f, now, ledger) <==> FixedPopup(f) in DueReminders(rows, now, ledger))
    decreases |rows|
  {
    if |rows| > 0 {
      var init := rows[..|rows| - 1];
      var f := rows[|rows| - 1];
      assert UniqueFixedIds(init);
      DueRemindersMembers(init, now, ledger);
      assert rows == init + [f];
      LastTaggedIdFresh(rows);
      forall g | g in rows
        ensures FixedDue(g, now, ledger) <==> FixedPopup(g) in DueReminders(rows, now, ledger)
      {
        DueRemindersMember(init, f, now, ledger, g);
      }
    }
  }

  /** One step of `DueRemindersMembers`: the reminder `g` of `init + [f]`. */
  lemma DueRemindersMember(init: seq<FixedNote>, f: FixedNote, now: Clock, ledger: set<AlarmId>, g: FixedNote)
    requires ValidClock(now) && g in init + [f] && FixedAlarmId(f.id) !in TaggedIds(init)
    requires g in init ==> (FixedDue(g, now, ledger) <==> FixedPopup(g) in DueReminders(init, now, ledger))
    ensures FixedDue(g, now, ledger) <==> FixedPopup(g) in DueReminders(init + [f], now, ledger)
  {
    var rows := init + [f];
    assert rows[..|rows| - 1] == init;
    var prev := DueReminders(init, now, ledger);
    if g in init {
      assert FixedAlarmId(g.id) in TaggedIds(init);
    } else {
      assert g == f;
      assert FixedPopup(f) !in prev;
    }
  }

  /** The SQL filter changes nothing: the scan over the queried rows is the
      scan over the whole table. */
  lemma {:induction false} DueFixedOfEnabled(fixedNotes: seq<FixedNote>, now: Clock, ledger: set<AlarmId>)
    requires ValidClock(now)
    ensures DueFixed(EnabledAt(fixedNotes, NowTime(now)), now, ledger) == DueFixed(fixedNotes, now, ledger)
    decreases |fixedNotes|
  {
    if |fixedNotes| > 0 {
      var init := fixedNotes[..|fixedNotes| - 1];
      var f := fixedNotes[|fixedNotes| - 1];
      DueFixedOfEnabled(init, now, ledger);
      var rows := EnabledAt(init, NowTime(now));
      if f.alarmEnabled && f.eventTime == NowTime(now) {
        assert (rows + [f])[..|rows + [f]| - 1] == rows;
      }
    }
  }

  // ---------------------------------------------------------------------
  // The whole tick

  /** Every window one tick of `check_alarms` opens: the notes first, then
      the fixed reminders, against the active set grown by the notes'. */
  function Scan(notes: seq<Note>, alarms: map<nat, AlarmRow>, fixedNotes: seq<FixedNote>, now: Clock, ledger: set<AlarmId>): (fired: seq<Popup>)
    requires ValidClock(now)
    ensures forall k :: 0 <= k < |fired| ==> fired[k].id !in ledger
    ensures forall i, j :: 0 <= i < j < |fired| ==> fired[i].id != fired[j].id
  {
    var one := DueOneTime(notes, alarms, now, ledger);
    var fixed := DueFixed(fixedNotes, now, ledger + Ids(one));
    assert forall k :: 0 <= k < |one| ==> one[k].id in Ids(one);
    one + fixed
  }

  /** With distinct ids, a tick opens exactly the windows of the notes and
      then of the reminders that are due against the active set as it was:
      the fixed ids never meet the note ids, so the first loop cannot hide a
      reminder. */
  lemma ScanIsFilter(notes: seq<Note>, alarms: map<nat, AlarmRow>, fixedNotes: seq<FixedNote>, now: Clock, ledger: set<AlarmId>)
    requires ValidClock(now) && UniqueNoteIds(notes) && UniqueFixedIds(fixedNotes)
    ensures Scan(notes, alarms, fixedNotes, now, ledger)
         == DueNotes(notes, alarms, now, ledger) + DueReminders(fixedNotes, now, ledger)
  {
    var one := DueOneTime(notes, alarms, now, ledger);
    DueOneTimeIsFilter(notes, alarms, now, ledger);
    DueFixedIsFilter(fixedNotes, now, ledger + Ids(one));
    DueFixedIsFilter(fixedNotes, now, ledger);
    forall f | f in fixedNotes
      ensures FixedDue(f, now, ledger + Ids(one)) == FixedDue(f, now, ledger)
    {
      FixedAlarmIdInjective(f.id, f.id);
      assert FixedAlarmId(f.id) !in Ids(one);
    }
    DueRemindersSameLedger(fixedNotes, now, ledger, ledger + Ids(one));
  }

  /** The filter depends on the ledger only through the rows' own ids. */
  lemma {:induction false} DueRemindersSameLedger(rows: seq<FixedNote>, now: Clock, l1: set<AlarmId>, l2: set<AlarmId>)
    requires ValidClock(now)
    requires forall f :: f in rows ==> FixedDue(f, now, l1) == FixedDue(f, now, l2)
    ensures DueReminders(rows, now, l1) == DueReminders(rows, now, l2)
    decreases |rows|
  {
    if |rows| > 0 {
      var init := rows[..|rows| - 1];
      assert forall g :: g in init ==> g in rows;
      DueRemindersSameLedger(init, now, l1, l2);
    }
  }

  lemma {:induction false} NoNoteDue(notes: seq<Note>, alarms: map<nat, AlarmRow>, now: Clock, ledger: set<AlarmId>)
    requires ValidClock(now)
    requires forall n :: n in notes ==> !OneTimeDue(n, alarms, now, ledger)
    ensures DueNotes(notes, alarms, now, ledger) == []
    decreases |notes|
  {
    if |notes| > 0 {
      var init := notes[..|notes| - 1];
      assert forall m :: m in init ==> m in notes;
      NoNoteDue(init, alarms, now, ledger);
      assert notes[|notes| - 1] in notes;
    }
  }

  lemma {:induction false} NoReminderDue(rows: seq<FixedNote>, now: Clock, ledger: set<AlarmId>)
    requires ValidClock(now)
    requires forall f :: f in rows ==> !FixedDue(f, now, ledger)
    ensures DueReminders(rows, now, ledger) == []
    decreases |rows|
  {
    if |rows| > 0 {
      var init := rows[..|rows| - 1];
      assert forall g :: g in init ==> g in rows;
      NoReminderDue(init, now, ledger);
      assert rows[|rows| - 1] in rows;
    }
  }

  /** A second tick in the same minute, with the active set as the first
      tick left it, opens nothing. */
  lemma SecondTickFiresNothing(notes: seq<Note>, alarms: map<nat, AlarmRow>, fixedNotes: seq<FixedNote>, now: Clock, ledger: set<AlarmId>)
    requires ValidClock(now) && UniqueNoteIds(notes) && UniqueFixedIds(fixedNotes)
    ensures Scan(notes, alarms, fixedNotes, now, ledger + Ids(Scan(notes, alarms, fixedNotes, now, ledger))) == []
  {
    var first := Scan(notes, alarms, fixedNotes, now, ledger);
    var later := ledger + Ids(first);
    ScanIsFilter(notes, alarms, fixedNotes, now, ledger);
    ScanIsFilter(notes, alarms, fixedNotes, now, later);
    DueNotesMembers(notes, alarms, now, ledger);
    DueRemindersMembers(fixedNotes, now, ledger);
    forall n | n in notes ensures !OneTimeDue(n, alarms, now, later) {
      if OneTimeDue(n, alarms, now, ledger) {
        assert OneTimePopup(n, alarms[n.id]) in first;
      }
    }
    forall f | f in fixedNotes ensures !FixedDue(f, now, later) {
      if FixedDue(f, now, ledger) {
        assert FixedPopup(f) in first;
      }
    }
    NoNoteDue(notes, alarms, now, later);
    NoReminderDue(fixedNotes, now, later);
  }

  /** A note whose window was closed, with the tables unchanged, fires again
      when the same minute is checked again: only the active set stops it. */
  lemma ReleasedNoteFiresAgain(notes: seq<Note>, alarms: map<nat, AlarmRow>, fixedNotes: seq<FixedNote>, now: Clock, ledger: set<AlarmId>, n: Note)
    requires ValidClock(now) && UniqueNoteIds(notes) && UniqueFixedIds(fixedNotes)
    requires n in notes && n.id in alarms && OneTimePopup(n, alarms[n.id]) in Scan(notes, alarms, fixedNotes, now, ledger)
    ensures OneTimePopup(n, alarms[n.id]) in Scan(notes, alarms, fixedNotes, now, (ledger + Ids(Scan(notes, alarms, fixedNotes, now, ledger))) - {IntId(n.id)})
  {
    var first := Scan(notes, alarms, fixedNotes, now, ledger);
    var later := (ledger + Ids(first)) - {IntId(n.id)};
    ScanIsFilter(notes, alarms, fixedNotes, now, ledger);
    ScanIsFilter(notes, alarms, fixedNotes, now, later);
    DueNotesMembers(notes, alarms, now, ledger);
    DueNotesMembers(notes, alarms, now, later);
    var p := OneTimePopup(n, alarms[n.id]);
    assert p !in DueReminders(fixedNotes, now, ledger) by {
      forall k | 0 <= k < |DueReminders(fixedNotes, now, ledger)|
        ensures DueReminders(fixedNotes, now, ledger)[k].id.StrId?
      {
      }
    }
  }

  /** Likewise a fixed reminder whose window was closed fires again in the
      same minute. */
  lemma ReleasedReminderFiresAgain(notes: seq<Note>, alarms: map<nat, AlarmRow>, fixedNotes: seq<FixedNote>, now: Clock, ledger: set<AlarmId>, f: FixedNote)
    requires ValidClock(now) && UniqueNoteIds(notes) && UniqueFixedIds(fixedNotes)
    requires f in fixedNotes && FixedPopup(f) in Scan(notes, alarms, fixedNotes, now, ledger)
    ensures FixedPopup(f) in Scan(notes, alarms, fixedNotes, now, (ledger + Ids(Scan(notes, alarms, fixedNotes, now, ledger))) - {FixedAlarmId(f.id)})
  {
    var first := Scan(notes, alarms, fixedNotes, now, ledger);
    var later := (ledger + Ids(first)) - {FixedAlarmId(f.id)};
    ScanIsFilter(notes, alarms, fixedNotes, now, ledger);
    ScanIsFilter(notes, alarms, fixedNotes, now, later);
    DueRemindersMembers(fixedNotes, now, ledger);
    DueRemindersMembers(fixedNotes, now, later);
    var p := FixedPopup(f);
    assert p !in DueNotes(notes, alarms, now, ledger);
  }

  // ---------------------------------------------------------------------
  // Snooze

  /** The minute of day `minutes` after `now`, wrapped past midnight. */
  function SnoozeMinuteOfDay(now: Clock, minutes: nat): (t: nat)
    ensures t < 1440
  {
    (MinuteOfDay(now) + minutes) % 1440
  }

  /** `(now + timedelta(minutes=m)).strftime("%H:%M")`. */
  function SnoozeTime(now: Clock, minutes: nat): (t: string)
    ensures |t| == 5
  {
    MinuteText(SnoozeMinuteOfDay(now, minutes))
  }

  lemma ClockMinute(c: Clock)
    requires ValidClock(c)
    ensures MinuteOfDay(c) < 1440 && NowTime(c) == MinuteText(MinuteOfDay(c))
  {
    var m := MinuteOfDay(c);
    assert m / 60 == c.hour && m % 60 == c.minute;
  }

  /** A `"HH:MM"` text names exactly one minute of the day. */
  lemma ClockAtMinute(t: nat, c: Clock)
    requires ValidClock(c) && t < 1440
    ensures MinuteText(t) == NowTime(c) <==> MinuteOfDay(c) == t
  {
    ClockMinute(c);
    MinuteTextInjective(t, MinuteOfDay(c));
  }

  /** A `"YYYY-MM-DD"` text names exactly one day. */
  lemma SameDay(now: Clock, c: Clock)
    requires ValidClock(now) && ValidClock(c)
    ensures NowDate(now) == NowDate(c) <==> c.date == now.date
  {
    DateKeyInjective(c.date, now.date);
  }

  /** The snoozed row of a note dated today matches exactly the clocks of
      the same day at the wrapped minute; when the snooze crosses midnight
      that minute is earlier than the snooze itself, so the alarm does not
      ring again. */
  lemma SnoozedAlarmMatches(date: string, now: Clock, minutes: nat, c: Clock)
    requires ValidClock(now) && ValidClock(c) && date == NowDate(now)
    ensures (date == NowDate(c) && SnoozeTime(now, minutes) == NowTime(c))
            <==> (c.date == now.date && MinuteOfDay(c) == SnoozeMinuteOfDay(now, minutes))
  {
    SameDay(now, c);
    SnoozeMinute(now, minutes, c);
  }

  /** The snoozed `"HH:MM"` names exactly the wrapped minute. */
  lemma SnoozeMinute(now: Clock, minutes: nat, c: Clock)
    requires ValidClock(c)
    ensures SnoozeTime(now, minutes) == NowTime(c) <==> MinuteOfDay(c) == SnoozeMinuteOfDay(now, minutes)
  {
    ClockAtMinute(SnoozeMinuteOfDay(now, minutes), c);
  }

  /** A snooze shorter than a day that crosses midnight lands earlier in
      the day than the moment it was taken. */
  lemma WrapsPastMidnight(now: Clock, minutes: nat)
    requires ValidClock(now) && minutes < 1440 && MinuteOfDay(now) + minutes >= 1440
    ensures SnoozeMinuteOfDay(now, minutes) == MinuteOfDay(now) + minutes - 1440 < MinuteOfDay(now)
  {
  }

  /** A snooze that crosses midnight keeps the note's date, so the only
      clocks its row matches are earlier the same day: it does not ring
      again. */
  lemma SnoozePastMidnight(date: string, now: Clock, minutes: nat, c: Clock)
    requires ValidClock(now) && ValidClock(c) && date == NowDate(now)
    requires minutes < 1440 && MinuteOfDay(now) + minutes >= 1440
    ensures date == NowDate(c) && SnoozeTime(now, minutes) == NowTime(c)
            ==> c.date == now.date && MinuteOfDay(c) < MinuteOfDay(now)
  {
    WrapsPastMidnight(now, minutes);
    SnoozedAlarmMatches(date, now, minutes, c);
  }
}
