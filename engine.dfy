/** The alarm engine of `NoteApplication`: the in-memory copies of the
    three tables, the `active_alarms` set, and the alarm windows currently
    open, with the tick, the window responses and the table updates as
    methods on them. */
module Engine {
  import opened Wrappers
  import opened Text
  import opened Calendar
  import opened Store
  import opened Rules
  import opened Scheduler

  /** Ids in strictly increasing order, as rows come back from the tables
      (rowid order). The `notes` table's predicates, functions and lemmas
      come first; `FixedInIdOrder`, `UpdateFixed`, `WithoutFixed`,
      `FixedBelowLast` and `FixedAppendInOrder` mirror them for the
      `fixed_notes` rows, which have their own row type. */
  predicate NotesInIdOrder(notes: seq<Note>) {
    forall i, j :: 0 <= i < j < |notes| ==> notes[i].id < notes[j].id
  }

  predicate FixedInIdOrder(rows: seq<FixedNote>) {
    forall i, j :: 0 <= i < j < |rows| ==> rows[i].id < rows[j].id
  }

  /** The ids of the windows still open. */
  function OpenIds(windows: seq<Option<Popup>>): set<AlarmId> {
    set h | 0 <= h < |windows| && windows[h].Some? :: windows[h].value.id
  }

  /** No two open windows track the same id. */
  predicate DistinctOpen(windows: seq<Option<Popup>>) {
    forall h1, h2 :: 0 <= h1 < |windows| && 0 <= h2 < |windows| && h1 != h2 && windows[h1].Some? && windows[h2].Some?
      ==> windows[h1].value.id != windows[h2].value.id
  }

  lemma OpenIdsShow(windows: seq<Option<Popup>>, p: Popup)
    ensures OpenIds(windows + [Some(p)]) == OpenIds(windows) + {p.id}
  {
    var w := windows + [Some(p)];
    forall a | a in OpenIds(windows) + {p.id} ensures a in OpenIds(w) {
      if a in OpenIds(windows) {
        var g :| 0 <= g < |windows| && windows[g].Some? && windows[g].value.id == a;
        assert w[g] == windows[g];
      } else {
        assert w[|windows|] == Some(p);
      }
    }
    forall a | a in OpenIds(w) ensures a in OpenIds(windows) + {p.id} {
      var g :| 0 <= g < |w| && w[g].Some? && w[g].value.id == a;
      if g < |windows| {
        assert w[g] == windows[g];
      }
    }
  }

  lemma OpenIdsClose(windows: seq<Option<Popup>>, h: nat)
    requires h < |windows| && windows[h].Some? && DistinctOpen(windows)
    ensures OpenIds(windows[h := None]) == OpenIds(windows) - {windows[h].value.id}
  {
    var w := windows[h := None];
    forall a | a in OpenIds(windows) - {windows[h].value.id} ensures a in OpenIds(w) {
      var g :| 0 <= g < |windows| && windows[g].Some? && windows[g].value.id == a;
      assert g != h && w[g] == windows[g];
    }
    forall a | a in OpenIds(w) ensures a in OpenIds(windows) - {windows[h].value.id} {
      var g :| 0 <= g < |w| && w[g].Some? && w[g].value.id == a;
      assert g != h && w[g] == windows[g];
    }
  }

  /** The tables keep their ids increasing and below their counters. */
  predicate TablesInOrder(notes: seq<Note>, nextNoteId: nat, fixedNotes: seq<FixedNote>, nextFixedId: nat) {
    && NotesInIdOrder(notes) && (forall i :: 0 <= i < |notes| ==> notes[i].id < nextNoteId)
    && FixedInIdOrder(fixedNotes) && (forall i :: 0 <= i < |fixedNotes| ==> fixedNotes[i].id < nextFixedId)
  }

  /** An id is active exactly while one window for it is open. */
  predicate LedgerMatches(ledger: set<AlarmId>, windows: seq<Option<Popup>>) {
    ledger == OpenIds(windows) && DistinctOpen(windows)
  }

  lemma LedgerAfterShow(ledger: set<AlarmId>, windows: seq<Option<Popup>>, p: Popup)
    requires LedgerMatches(ledger, windows) && p.id !in ledger
    ensures LedgerMatches(ledger + {p.id}, windows + [Some(p)])
  {
    OpenIdsShow(windows, p);
    var w := windows + [Some(p)];
    forall h1, h2 | 0 <= h1 < |w| && 0 <= h2 < |w| && h1 != h2 && w[h1].Some? && w[h2].Some?
      ensures w[h1].value.id != w[h2].value.id
    {
      if h1 < |windows| && h2 < |windows| {
        assert w[h1] == windows[h1] && w[h2] == windows[h2];
      } else if h1 < |windows| {
        assert w[h1] == windows[h1] && windows[h1].value.id in OpenIds(windows);
      } else {
        assert w[h2] == windows[h2] && windows[h2].value.id in OpenIds(windows);
      }
    }
  }

  lemma LedgerAfterClose(ledger: set<AlarmId>, windows: seq<Option<Popup>>, h: nat)
    requires LedgerMatches(ledger, windows) && h < |windows| && windows[h].Some?
    ensures LedgerMatches(ledger - {windows[h].value.id}, windows[h := None])
  {
    OpenIdsClose(windows, h);
  }

  /** One more note scanned by the first loop. */
  lemma DueOneTimeStep(notes: seq<Note>, i: nat, alarms: map<nat, AlarmRow>, now: Clock, ledger: set<AlarmId>, prev: seq<Popup>, cur: set<AlarmId>, due: bool)
    requires ValidClock(now) && i < |notes|
    requires prev == DueOneTime(notes[..i], alarms, now, ledger) && cur == ledger + Ids(prev)
    requires due == OneTimeDue(notes[i], alarms, now, cur)
    ensures DueOneTime(notes[..i + 1], alarms, now, ledger)
      == if due then prev + [OneTimePopup(notes[i], alarms[notes[i].id])] else prev
  {
    assert notes[..i + 1][..i] == notes[..i];
  }

  /** One more reminder scanned by the second loop. */
  lemma DueFixedStep(rows: seq<FixedNote>, j: nat, now: Clock, ledger: set<AlarmId>, prev: seq<Popup>, cur: set<AlarmId>, due: bool)
    requires ValidClock(now) && j < |rows|
    requires prev == DueFixed(rows[..j], now, ledger) && cur == ledger + Ids(prev)
    requires due == FixedDue(rows[j], now, cur)
    ensures DueFixed(rows[..j + 1], now, ledger) == if due then prev + [FixedPopup(rows[j])] else prev
  {
    assert rows[..j + 1][..j] == rows[..j];
  }

  /** Every row the query returns is enabled and set for `time`: a helper
      that turns `EnabledAt`'s membership into the per-index facts the loop
      of `RingFixedNotes` needs. */
  lemma EnabledRows(fixedNotes: seq<FixedNote>, time: string)
    ensures var rows := EnabledAt(fixedNotes, time);
      forall k :: 0 <= k < |rows| ==> rows[k].alarmEnabled && rows[k].eventTime == time
  {
    var rows := EnabledAt(fixedNotes, time);
    forall k | 0 <= k < |rows| ensures rows[k].alarmEnabled && rows[k].eventTime == time {
      assert rows[k] in rows;
    }
  }

  /** The windows a tick opens, in order. */
  function Shown(fired: seq<Popup>): (r: seq<Option<Popup>>)
    ensures |r| == |fired| && forall k :: 0 <= k < |fired| ==> r[k] == Some(fired[k])
  {
    seq(|fired|, k requires 0 <= k < |fired| => Some(fired[k]))
  }

  /** One more window shown after those of `fired`. */
  lemma ShownAppend(windows: seq<Option<Popup>>, fired: seq<Popup>, p: Popup)
    ensures (windows + Shown(fired)) + [Some(p)] == windows + Shown(fired + [p])
  {
    assert Shown(fired + [p]) == Shown(fired) + [Some(p)];
  }

  /** The windows of two runs shown one after the other. */
  lemma ShownTwice(windows: seq<Option<Popup>>, mid: seq<Option<Popup>>, one: seq<Popup>, more: seq<Popup>)
    requires mid == windows + Shown(one)
    ensures mid + Shown(more) == windows + Shown(one + more)
  {
    ShownConcat(one, more);
  }

  lemma ShownConcat(one: seq<Popup>, more: seq<Popup>)
    ensures Shown(one + more) == Shown(one) + Shown(more)
  {
    assert |Shown(one + more)| == |Shown(one) + Shown(more)|;
    forall k | 0 <= k < |one| + |more| ensures Shown(one + more)[k] == (Shown(one) + Shown(more))[k] {
      if k < |one| {
        assert (one + more)[k] == one[k];
      } else {
        assert (one + more)[k] == more[k - |one|];
      }
    }
  }


  /** `delete_note_db`'s effect on the note list. */
  function WithoutNote(notes: seq<Note>, id: nat): (r: seq<Note>)
    ensures forall n :: n in r <==> n in notes && n.id != id
    ensures |r| <= |notes|
    decreases |notes|
  {
    if |notes| == 0 then []
    else
      var init := notes[..|notes| - 1];
      var n := notes[|notes| - 1];
      assert notes == init + [n];
      var rest := WithoutNote(init, id);
      if n.id == id then rest else rest + [n]
  }

  lemma {:induction false} WithoutNoteInOrder(notes: seq<Note>, id: nat)
    requires NotesInIdOrder(notes)
    ensures NotesInIdOrder(WithoutNote(notes, id))
    decreases |notes|
  {
    if |notes| > 0 {
      var init := notes[..|notes| - 1];
      var n := notes[|notes| - 1];
      WithoutNoteInOrder(init, id);
      var rest := WithoutNote(init, id);
      NoteBelowLast(notes, rest);
      if n.id != id {
        NoteAppendInOrder(rest, n);
      }
    }
  }

  /** Rows drawn from all but the last of an ordered table have smaller
      ids than the last. */
  lemma NoteBelowLast(notes: seq<Note>, rest: seq<Note>)
    requires NotesInIdOrder(notes) && |notes| > 0
    requires forall r :: r in rest ==> r in notes[..|notes| - 1]
    ensures forall k :: 0 <= k < |rest| ==> rest[k].id < notes[|notes| - 1].id
  {
    forall k | 0 <= k < |rest| ensures rest[k].id < notes[|notes| - 1].id {
      assert rest[k] in rest;
      var j :| 0 <= j < |notes| - 1 && notes[..|notes| - 1][j] == rest[k];
      assert notes[j] == rest[k];
    }
  }

  /** Appending a row whose id exceeds every id of an ordered table keeps
      it ordered. */
  lemma NoteAppendInOrder(rest: seq<Note>, n: Note)
    requires NotesInIdOrder(rest) && forall k :: 0 <= k < |rest| ==> rest[k].id < n.id
    ensures NotesInIdOrder(rest + [n])
  {
    var r := rest + [n];
    forall a, b | 0 <= a < b < |r| ensures r[a].id < r[b].id {
      assert r[a] == rest[a];
      if b < |rest| {
        assert r[b] == rest[b];
      }
    }
  }

  /** `UPDATE notes SET … WHERE id=?`: every row keeps its place and its
      id; a row is in the result iff it was there under another id, or it
      is the new row and its id was present; with no such id nothing
      changes. */
  function UpdateNote(notes: seq<Note>, note: Note): (r: seq<Note>)
    ensures |r| == |notes| && forall i :: 0 <= i < |r| ==> r[i].id == notes[i].id
    ensures forall n :: n in r <==> (n in notes && n.id != note.id) || (n == note && note.id in NoteIdSet(notes))
    ensures note.id !in NoteIdSet(notes) ==> r == notes
    decreases |notes|
  {
    if |notes| == 0 then []
    else
      assert notes == [notes[0]] + notes[1..];
      assert NoteIdSet(notes) == {notes[0].id} + NoteIdSet(notes[1..]);
      [if notes[0].id == note.id then note else notes[0]] + UpdateNote(notes[1..], note)
  }

  /** The ids present in the reminders table. */
  function FixedIdSet(rows: seq<FixedNote>): set<nat> {
    set f | f in rows :: f.id
  }

  /** `UPDATE fixed_notes SET … WHERE id=?` with `f` the new row: every row
      keeps its place and its id; a row is in the result iff it was there
      under another id, or it is `f` and its id was present; with no such id
      nothing changes. */
  function UpdateFixed(rows: seq<FixedNote>, f: FixedNote): (r: seq<FixedNote>)
    ensures |r| == |rows| && forall i :: 0 <= i < |r| ==> r[i].id == rows[i].id
    ensures forall g :: g in r <==> (g in rows && g.id != f.id) || (g == f && f.id in FixedIdSet(rows))
    ensures f.id !in FixedIdSet(rows) ==> r == rows
    decreases |rows|
  {
    if |rows| == 0 then []
    else
      assert rows == [rows[0]] + rows[1..];
      assert FixedIdSet(rows) == {rows[0].id} + FixedIdSet(rows[1..]);
      [if rows[0].id == f.id then f else rows[0]] + UpdateFixed(rows[1..], f)
  }

  /** `UPDATE fixed_notes SET alarm_enabled=? WHERE id=?`: every row keeps
      its place and every column but `alarm_enabled`; the rows with that id
      now carry `enabled`, and the others are unchanged. */
  function SetEnabled(rows: seq<FixedNote>, id: nat, enabled: bool): (r: seq<FixedNote>)
    ensures |r| == |rows|
    ensures forall i :: 0 <= i < |r| ==> r[i].(alarmEnabled := rows[i].alarmEnabled) == rows[i]
    ensures forall g :: g in r && g.id == id ==> g.alarmEnabled == enabled
    ensures forall i :: 0 <= i < |r| && rows[i].id != id ==> r[i] == rows[i]
    decreases |rows|
  {
    if |rows| == 0 then []
    else
      [if rows[0].id == id then rows[0].(alarmEnabled := enabled) else rows[0]] + SetEnabled(rows[1..], id, enabled)
  }

  /** Once the switch of a reminder is turned off, no tick opens a window
      for it, whatever the other tables and the active set hold. */
  lemma SwitchedOffNeverFires(notes: seq<Note>, alarms: map<nat, AlarmRow>, rows: seq<FixedNote>, id: nat, now: Clock, ledger: set<AlarmId>)
    requires ValidClock(now) && FixedInIdOrder(rows)
    ensures FixedAlarmId(id) !in Ids(Scan(notes, alarms, SetEnabled(rows, id, false), now, ledger))
  {
    var off := SetEnabled(rows, id, false);
    assert UniqueFixedIds(off) by {
      forall i, j | 0 <= i < j < |off| ensures off[i].id != off[j].id {
        assert off[i].id == rows[i].id && off[j].id == rows[j].id;
      }
    }
    var one := DueOneTime(notes, alarms, now, ledger);
    DueFixedIsFilter(off, now, ledger + Ids(one));
    DisabledNotDue(off, id, now, ledger + Ids(one));
    IdsConcat(one, DueFixed(off, now, ledger + Ids(one)));
    FixedAlarmIdInjective(id, id);
  }

  /** `DELETE FROM fixed_notes WHERE id=?`. */
  function WithoutFixed(rows: seq<FixedNote>, id: nat): (r: seq<FixedNote>)
    ensures forall f :: f in r <==> f in rows && f.id != id
    decreases |rows|
  {
    if |rows| == 0 then []
    else
      var init := rows[..|rows| - 1];
      var f := rows[|rows| - 1];
      assert rows == init + [f];
      var rest := WithoutFixed(init, id);
      if f.id == id then rest else rest + [f]
  }

  lemma {:induction false} WithoutFixedInOrder(rows: seq<FixedNote>, id: nat)
    requires FixedInIdOrder(rows)
    ensures FixedInIdOrder(WithoutFixed(rows, id))
    decreases |rows|
  {
    if |rows| > 0 {
      var init := rows[..|rows| - 1];
      var f := rows[|rows| - 1];
      WithoutFixedInOrder(init, id);
      var rest := WithoutFixed(init, id);
      FixedBelowLast(rows, rest);
      if f.id != id {
        FixedAppendInOrder(rest, f);
      }
    }
  }

  /** Rows drawn from all but the last of an ordered table have smaller
      ids than the last. */
  lemma FixedBelowLast(rows: seq<FixedNote>, rest: seq<FixedNote>)
    requires FixedInIdOrder(rows) && |rows| > 0
    requires forall r :: r in rest ==> r in rows[..|rows| - 1]
    ensures forall k :: 0 <= k < |rest| ==> rest[k].id < rows[|rows| - 1].id
  {
    forall k | 0 <= k < |rest| ensures rest[k].id < rows[|rows| - 1].id {
      assert rest[k] in rest;
      var j :| 0 <= j < |rows| - 1 && rows[..|rows| - 1][j] == rest[k];
      assert rows[j] == rest[k];
    }
  }

  /** Appending a row whose id exceeds every id of an ordered table keeps
      it ordered. */
  lemma FixedAppendInOrder(rest: seq<FixedNote>, f: FixedNote)
    requires FixedInIdOrder(rest) && forall k :: 0 <= k < |rest| ==> rest[k].id < f.id
    ensures FixedInIdOrder(rest + [f])
  {
    var r := rest + [f];
    forall a, b | 0 <= a < b < |r| ensures r[a].id < r[b].id {
      assert r[a] == rest[a];
      if b < |rest| {
        assert r[b] == rest[b];
      }
    }
  }

  lemma IdsConcat(a: seq<Popup>, b: seq<Popup>)
    ensures Ids(a + b) == Ids(a) + Ids(b)
  {
    assert forall q :: q in a + b <==> q in a || q in b;
  }

  class AlarmEngine {
    /** `self.notes`: the notes table in rowid order. */
    var notes: seq<Note>
    /** The AUTOINCREMENT counter of `notes`: above every id ever given. */
    var nextNoteId: nat
    /** The alarms table, by note id. */
    var alarms: map<nat, AlarmRow>
    /** The fixed_notes table in id order. */
    var fixedNotes: seq<FixedNote>
    var nextFixedId: nat
    /** `self.active_alarms`. */
    var activeAlarms: set<AlarmId>
    /** Every alarm window shown so far, by handle (the window together with
        its pending timeout); `None` once it is closed. */
    var windows: seq<Option<Popup>>

    /** The tables keep their ids in order and below their counters, and
        an id is active exactly while one window for it is open. */
    ghost predicate Valid()
      reads this
    {
      && TablesInOrder(notes, nextNoteId, fixedNotes, nextFixedId)
      && LedgerMatches(activeAlarms, windows)
    }

    /** The engine as the application starts it: tables loaded, nothing
        active, no window shown. */
    constructor (notes0: seq<Note>, alarms0: map<nat, AlarmRow>, fixed0: seq<FixedNote>, nextNote: nat, nextFixed: nat)
      requires NotesInIdOrder(notes0) && forall i :: 0 <= i < |notes0| ==> notes0[i].id < nextNote
      requires FixedInIdOrder(fixed0) && forall i :: 0 <= i < |fixed0| ==> fixed0[i].id < nextFixed
      ensures Valid()
      ensures notes == notes0 && alarms == alarms0 && fixedNotes == fixed0
      ensures nextNoteId == nextNote && nextFixedId == nextFixed
      ensures activeAlarms == {} && windows == []
    {
      notes := notes0;
      alarms := alarms0;
      fixedNotes := fixed0;
      nextNoteId := nextNote;
      nextFixedId := nextFixed;
      activeAlarms := {};
      windows := [];
    }

    /** `show_alarm_popup`: a new window for `p`, with its timeout armed. */
    method ShowAlarmPopup(p: Popup) returns (h: nat)
      modifies this
      ensures h == |old(windows)| && windows == old(windows) + [Some(p)]
      ensures notes == old(notes) && alarms == old(alarms) && fixedNotes == old(fixedNotes)
      ensures nextNoteId == old(nextNoteId) && nextFixedId == old(nextFixedId) && activeAlarms == old(activeAlarms)
    {
      h := |windows|;
      windows := windows + [Some(p)];
    }

    /** What both loops of `check_alarms` do for a due alarm: add its id to
        the active set, then show its window. */
    method Raise(p: Popup)
      requires LedgerMatches(activeAlarms, windows) && p.id !in activeAlarms
      modifies this
      ensures LedgerMatches(activeAlarms, windows)
      ensures activeAlarms == old(activeAlarms) + {p.id} && windows == old(windows) + [Some(p)]
      ensures notes == old(notes) && alarms == old(alarms) && fixedNotes == old(fixedNotes)
      ensures nextNoteId == old(nextNoteId) && nextFixedId == old(nextFixedId)
    {
      LedgerAfterShow(activeAlarms, windows, p);
      activeAlarms := activeAlarms + {p.id};
      var _ := ShowAlarmPopup(p);
    }

    /** `check_alarms`: one tick. It shows exactly the windows `Scan`
        names, in order, adds their ids to the active set and changes no
        table. */
    method CheckAlarms(now: Clock) returns (fired: seq<Popup>)
      requires Valid() && ValidClock(now)
      modifies this
      ensures Valid()
      ensures fired == Scan(notes, alarms, fixedNotes, now, old(activeAlarms))
      ensures activeAlarms == old(activeAlarms) + Ids(fired)
      ensures windows == old(windows) + Shown(fired)
      ensures notes == old(notes) && alarms == old(alarms) && fixedNotes == old(fixedNotes)
      ensures nextNoteId == old(nextNoteId) && nextFixedId == old(nextFixedId)
    {
      ghost var before := windows;
      var one := RingOneTimeAlarms(now);
      ghost var mid, ledger := windows, activeAlarms;
      var more := RingFixedNotes(now);
      DueFixedOfEnabled(fixedNotes, now, ledger);
      ShownTwice(before, mid, one, more);
      IdsConcat(one, more);
      fired := one + more;
    }

    /** The first loop of `check_alarms`, over `self.notes`. */
    method RingOneTimeAlarms(now: Clock) returns (fired: seq<Popup>)
      requires Valid() && ValidClock(now)
      modifies this
      ensures Valid()
      ensures fired == DueOneTime(notes, alarms, now, old(activeAlarms))
      ensures activeAlarms == old(activeAlarms) + Ids(fired)
      ensures windows == old(windows) + Shown(fired)
      ensures notes == old(notes) && alarms == old(alarms) && fixedNotes == old(fixedNotes)
      ensures nextNoteId == old(nextNoteId) && nextFixedId == old(nextFixedId)
    {
      ghost var ledger, shown := activeAlarms, windows;
      fired := [];
      var i := 0;
      while i < |notes|
        invariant 0 <= i <= |notes|
        invariant LedgerMatches(activeAlarms, windows)
        invariant fired == DueOneTime(notes[..i], alarms, now, ledger)
        invariant activeAlarms == ledger + Ids(fired)
        invariant windows == shown + Shown(fired)
        invariant notes == old(notes) && alarms == old(alarms) && fixedNotes == old(fixedNotes)
        invariant nextNoteId == old(nextNoteId) && nextFixedId == old(nextFixedId)
      {
        var note := notes[i];
        ghost var cur := activeAlarms;
        var rang := RingNote(note, now);
        DueOneTimeStep(notes, i, alarms, now, ledger, fired, cur, rang);
        if rang {
          var p := OneTimePopup(note, alarms[note.id]);
          ShownAppend(shown, fired, p);
          IdsAppend(fired, p);
          fired := fired + [p];
        }
        i := i + 1;
      }
      assert notes[..|notes|] == notes;
    }

    /** The second loop of `check_alarms`: the query for the enabled
        reminders set for this minute, then one step per row. */
    method RingFixedNotes(now: Clock) returns (fired: seq<Popup>)
      requires Valid() && ValidClock(now)
      modifies this
      ensures Valid()
      ensures fired == DueFixed(EnabledAt(fixedNotes, NowTime(now)), now, old(activeAlarms))
      ensures activeAlarms == old(activeAlarms) + Ids(fired)
      ensures windows == old(windows) + Shown(fired)
      ensures notes == old(notes) && alarms == old(alarms) && fixedNotes == old(fixedNotes)
      ensures nextNoteId == old(nextNoteId) && nextFixedId == old(nextFixedId)
    {
      var rows := EnabledAt(fixedNotes, NowTime(now));
      EnabledRows(fixedNotes, NowTime(now));
      fired := RingRows(rows, now);
    }

    /** The loop over the queried rows. */
    method RingRows(rows: seq<FixedNote>, now: Clock) returns (fired: seq<Popup>)
      requires LedgerMatches(activeAlarms, windows) && ValidClock(now)
      requires forall k :: 0 <= k < |rows| ==> rows[k].alarmEnabled && rows[k].eventTime == NowTime(now)
      modifies this
      ensures LedgerMatches(activeAlarms, windows)
      ensures fired == DueFixed(rows, now, old(activeAlarms))
      ensures activeAlarms == old(activeAlarms) + Ids(fired)
      ensures windows == old(windows) + Shown(fired)
      ensures notes == old(notes) && alarms == old(alarms) && fixedNotes == old(fixedNotes)
      ensures nextNoteId == old(nextNoteId) && nextFixedId == old(nextFixedId)
    {
      ghost var ledger, shown := activeAlarms, windows;
      fired := [];
      var j := 0;
      while j < |rows|
        invariant 0 <= j <= |rows|
        invariant LedgerMatches(activeAlarms, windows)
        invariant fired == DueFixed(rows[..j], now, ledger)
        invariant activeAlarms == ledger + Ids(fired)
        invariant windows == shown + Shown(fired)
        invariant notes == old(notes) && alarms == old(alarms) && fixedNotes == old(fixedNotes)
        invariant nextNoteId == old(nextNoteId) && nextFixedId == old(nextFixedId)
      {
        fired := RingRow(rows, j, now, fired, ledger, shown);
        j := j + 1;
      }
      assert rows[..|rows|] == rows;
    }

    /** One step of the loop over the queried rows: row `j` rings or not,
        and what has rung so far grows accordingly. */
    method RingRow(rows: seq<FixedNote>, j: nat, now: Clock, prior: seq<Popup>, ghost ledger: set<AlarmId>, ghost shown: seq<Option<Popup>>)
      returns (fired: seq<Popup>)
      requires j < |rows| && ValidClock(now) && LedgerMatches(activeAlarms, windows)
      requires rows[j].alarmEnabled && rows[j].eventTime == NowTime(now)
      requires prior == DueFixed(rows[..j], now, ledger)
      requires activeAlarms == ledger + Ids(prior) && windows == shown + Shown(prior)
      modifies this
      ensures LedgerMatches(activeAlarms, windows)
      ensures fired == DueFixed(rows[..j + 1], now, ledger)
      ensures activeAlarms == ledger + Ids(fired) && windows == shown + Shown(fired)
      ensures notes == old(notes) && alarms == old(alarms) && fixedNotes == old(fixedNotes)
      ensures nextNoteId == old(nextNoteId) && nextFixedId == old(nextFixedId)
    {
      var f := rows[j];
      ghost var cur := activeAlarms;
      var rang := RingFixedNote(f, now);
      DueFixedStep(rows, j, now, ledger, prior, cur, rang);
      fired := prior;
      if rang {
        ShownAppend(shown, prior, FixedPopup(f));
        IdsAppend(prior, FixedPopup(f));
        fired := prior + [FixedPopup(f)];
      }
    }

    /** The body of the first loop for one note: its alarm row, the date,
        time and active-set tests, and the window. */
    method RingNote(note: Note, now: Clock) returns (rang: bool)
      requires ValidClock(now) && LedgerMatches(activeAlarms, windows)
      modifies this
      ensures LedgerMatches(activeAlarms, windows)
      ensures rang == OneTimeDue(note, alarms, now, old(activeAlarms))
      ensures rang ==> activeAlarms == old(activeAlarms) + {IntId(note.id)}
                       && windows == old(windows) + [Some(OneTimePopup(note, alarms[note.id]))]
      ensures !rang ==> activeAlarms == old(activeAlarms) && windows == old(windows)
      ensures notes == old(notes) && alarms == old(alarms) && fixedNotes == old(fixedNotes)
      ensures nextNoteId == old(nextNoteId) && nextFixedId == old(nextFixedId)
    {
      rang := false;
      var alarm := LoadAlarm(alarms, note.id);
      if alarm.Some? && note.date == NowDate(now) && alarm.value.time == NowTime(now) && IntId(note.id) !in activeAlarms {
        Raise(OneTimePopup(note, alarm.value));
        rang := true;
      }
    }

    /** The body of the second loop for one queried row `f`: the tagged id,
        the active-set test, the rule test for today, and the window. */
    method RingFixedNote(f: FixedNote, now: Clock) returns (rang: bool)
      requires ValidClock(now) && LedgerMatches(activeAlarms, windows)
      requires f.alarmEnabled && f.eventTime == NowTime(now)
      modifies this
      ensures LedgerMatches(activeAlarms, windows)
      ensures rang == FixedDue(f, now, old(activeAlarms))
      ensures activeAlarms == if rang then old(activeAlarms) + {FixedPopup(f).id} else old(activeAlarms)
      ensures windows == if rang then old(windows) + [Some(FixedPopup(f))] else old(windows)
      ensures notes == old(notes) && alarms == old(alarms) && fixedNotes == old(fixedNotes)
      ensures nextNoteId == old(nextNoteId) && nextFixedId == old(nextFixedId)
    {
      rang := false;
      var alarmId := FixedAlarmId(f.id);
      if alarmId !in activeAlarms {
        var triggerAlarm := RuleMatches(f, now.date);
        if triggerAlarm {
          Raise(FixedPopup(f));
          rang := true;
        }
      }
    }

    /** `on_action_close`: the sound stops, the timeout is cancelled, the id
        leaves the active set and the window goes. */
    method ActionClose(h: nat)
      requires Valid() && h < |windows| && windows[h].Some?
      modifies this
      ensures Valid()
      ensures activeAlarms == old(activeAlarms) - {old(windows[h]).value.id}
      ensures windows == old(windows)[h := None]
      ensures notes == old(notes) && alarms == old(alarms) && fixedNotes == old(fixedNotes)
      ensures nextNoteId == old(nextNoteId) && nextFixedId == old(nextFixedId)
    {
      var id := windows[h].value.id;
      LedgerAfterClose(activeAlarms, windows, h);
      if id in activeAlarms {
        activeAlarms := activeAlarms - {id};
      }
      windows := windows[h := None];
    }

    /** `snooze_action` with the scale at `minutes` (0..180) and the clock at
        `now`: for a note's alarm and a positive snooze, the note's alarm row
        is written again with the wrapped time and the sound, volume and
        duration the window was shown with; the note itself is untouched;
        then the window closes. */
    method Snooze(h: nat, minutes: nat, now: Clock)
      requires Valid() && h < |windows| && windows[h].Some? && ValidClock(now) && minutes <= 180
      modifies this
      ensures Valid()
      ensures var p := old(windows[h]).value;
        alarms == if minutes > 0 && p.id.IntId?
                  then old(alarms)[p.id.n := AlarmRow(p.sound, p.volume, p.duration, SnoozeTime(now, minutes))]
                  else old(alarms)
      ensures activeAlarms == old(activeAlarms) - {old(windows[h]).value.id}
      ensures windows == old(windows)[h := None]
      ensures notes == old(notes) && fixedNotes == old(fixedNotes)
      ensures nextNoteId == old(nextNoteId) && nextFixedId == old(nextFixedId)
    {
      var p := windows[h].value;
      if minutes > 0 && p.id.IntId? {
        var newTime := SnoozeTime(now, minutes);
        SaveAlarm(p.id.n, AlarmRow(p.sound, p.volume, p.duration, newTime));
      }
      ActionClose(h);
    }

    /** `dismiss_action`: a note's alarm row is deleted (the note stays);
        then the window closes. */
    method Dismiss(h: nat)
      requires Valid() && h < |windows| && windows[h].Some?
      modifies this
      ensures Valid()
      ensures var id := old(windows[h]).value.id;
        alarms == if id.IntId? then old(alarms) - {id.n} else old(alarms)
      ensures activeAlarms == old(activeAlarms) - {old(windows[h]).value.id}
      ensures windows == old(windows)[h := None]
      ensures notes == old(notes) && fixedNotes == old(fixedNotes)
      ensures nextNoteId == old(nextNoteId) && nextFixedId == old(nextFixedId)
    {
      var id := windows[h].value.id;
      if id.IntId? {
        DeleteAlarm(id.n);
      }
      ActionClose(h);
    }

    /** `on_window_close`: closing the window by hand is a plain close; the
        handler returns False so the window is destroyed. */
    method WindowClose(h: nat) returns (stop: bool)
      requires Valid() && h < |windows| && windows[h].Some?
      modifies this
      ensures Valid() && !stop
      ensures activeAlarms == old(activeAlarms) - {old(windows[h]).value.id}
      ensures windows == old(windows)[h := None]
      ensures notes == old(notes) && alarms == old(alarms) && fixedNotes == old(fixedNotes)
      ensures nextNoteId == old(nextNoteId) && nextFixedId == old(nextFixedId)
    {
      ActionClose(h);
      stop := false;
    }

    /** `stop_alarm_sound_and_window`: the id leaves the active set; with
        `deleteFromDb` a note's alarm row is deleted; the window goes. It
        returns False, so the timeout does not repeat. */
    method StopAlarmSoundAndWindow(h: nat, deleteFromDb: bool) returns (again: bool)
      requires Valid() && h < |windows| && windows[h].Some?
      modifies this
      ensures Valid() && !again
      ensures var id := old(windows[h]).value.id;
        alarms == if deleteFromDb && id.IntId? then old(alarms) - {id.n} else old(alarms)
      ensures activeAlarms == old(activeAlarms) - {old(windows[h]).value.id}
      ensures windows == old(windows)[h := None]
      ensures notes == old(notes) && fixedNotes == old(fixedNotes)
      ensures nextNoteId == old(nextNoteId) && nextFixedId == old(nextFixedId)
    {
      var id := windows[h].value.id;
      LedgerAfterClose(activeAlarms, windows, h);
      if id in activeAlarms {
        activeAlarms := activeAlarms - {id};
      }
      if deleteFromDb && id.IntId? {
        DeleteAlarm(id.n);
      }
      windows := windows[h := None];
      again := false;
    }

    /** The window's timeout (armed with `delete_from_db=True`) expiring:
        a one-time alarm that rang unanswered is removed. */
    method Timeout(h: nat)
      requires Valid() && h < |windows| && windows[h].Some?
      modifies this
      ensures Valid()
      ensures var id := old(windows[h]).value.id;
        alarms == if id.IntId? then old(alarms) - {id.n} else old(alarms)
      ensures activeAlarms == old(activeAlarms) - {old(windows[h]).value.id}
      ensures windows == old(windows)[h := None]
      ensures notes == old(notes) && fixedNotes == old(fixedNotes)
      ensures nextNoteId == old(nextNoteId) && nextFixedId == old(nextFixedId)
    {
      var _ := StopAlarmSoundAndWindow(h, true);
    }

    // -------------------------------------------------------------------
    // Table updates

    /** `save_alarm_db`: INSERT OR REPLACE by note id; the note need not
        exist. */
    method SaveAlarm(noteId: nat, row: AlarmRow)
      modifies this
      ensures alarms == old(alarms)[noteId := row]
      ensures notes == old(notes) && fixedNotes == old(fixedNotes) && activeAlarms == old(activeAlarms)
      ensures windows == old(windows) && nextNoteId == old(nextNoteId) && nextFixedId == old(nextFixedId)
    {
      alarms := alarms[noteId := row];
    }

    /** `delete_alarm_db`. */
    method DeleteAlarm(noteId: nat)
      modifies this
      ensures alarms == old(alarms) - {noteId}
      ensures notes == old(notes) && fixedNotes == old(fixedNotes) && activeAlarms == old(activeAlarms)
      ensures windows == old(windows) && nextNoteId == old(nextNoteId) && nextFixedId == old(nextFixedId)
    {
      alarms := alarms - {noteId};
    }

    /** `delete_note_db`: the note and its alarm row go; a window already
        shown for it stays until answered. */
    method DeleteNote(noteId: nat)
      requires Valid()
      modifies this
      ensures Valid()
      ensures notes == WithoutNote(old(notes), noteId) && alarms == old(alarms) - {noteId}
      ensures fixedNotes == old(fixedNotes) && activeAlarms == old(activeAlarms)
      ensures windows == old(windows) && nextNoteId == old(nextNoteId) && nextFixedId == old(nextFixedId)
    {
      WithoutNoteInOrder(notes, noteId);
      notes := WithoutNote(notes, noteId);
      alarms := alarms - {noteId};
    }

    /** `save_note_db`: an existing id is updated in place; otherwise the
        note is inserted under a fresh id, which is returned. */
    method SaveNote(title: string, content: string, date: string, existing: Option<nat>) returns (id: nat)
      requires Valid()
      modifies this
      ensures Valid()
      ensures existing.Some? ==>
        id == existing.value && notes == UpdateNote(old(notes), Note(id, title, content, date)) && nextNoteId == old(nextNoteId)
      ensures existing.None? ==>
        id == old(nextNoteId) && notes == old(notes) + [Note(id, title, content, date)] && nextNoteId == old(nextNoteId) + 1
      ensures alarms == old(alarms) && fixedNotes == old(fixedNotes) && activeAlarms == old(activeAlarms)
      ensures windows == old(windows) && nextFixedId == old(nextFixedId)
    {
      if existing.Some? {
        id := existing.value;
        notes := UpdateNote(notes, Note(id, title, content, date));
      } else {
        id := nextNoteId;
        notes := notes + [Note(id, title, content, date)];
        nextNoteId := nextNoteId + 1;
      }
    }

    /** `on_fixed_note_save` followed by `save_fixed_note_db`: the form is
        turned into a row (or ignored, or raises) and the row updates the
        existing reminder or is inserted under a fresh id. */
    method SaveFixedForm(form: FixedForm, existing: Option<nat>) returns (outcome: SaveOutcome)
      requires Valid()
      modifies this
      ensures Valid()
      ensures outcome == FixedNoteOfForm(form, if existing.Some? then existing.value else old(nextFixedId))
      ensures outcome.Saved? && existing.Some? ==>
        fixedNotes == UpdateFixed(old(fixedNotes), outcome.row) && nextFixedId == old(nextFixedId)
      ensures outcome.Saved? && existing.None? ==>
        fixedNotes == old(fixedNotes) + [outcome.row] && nextFixedId == old(nextFixedId) + 1
      ensures !outcome.Saved? ==> fixedNotes == old(fixedNotes) && nextFixedId == old(nextFixedId)
      ensures notes == old(notes) && alarms == old(alarms) && activeAlarms == old(activeAlarms)
      ensures windows == old(windows) && nextNoteId == old(nextNoteId)
    {
      var id := if existing.Some? then existing.value else nextFixedId;
      outcome := FixedNoteOfForm(form, id);
      if outcome.Saved? {
        if existing.Some? {
          fixedNotes := UpdateFixed(fixedNotes, outcome.row);
        } else {
          fixedNotes := fixedNotes + [outcome.row];
          nextFixedId := nextFixedId + 1;
        }
      }
    }

    /** `on_fixed_note_delete`: the row goes only when the dialog is
        answered Yes. */
    method DeleteFixedNote(id: nat, confirmed: bool)
      requires Valid()
      modifies this
      ensures Valid()
      ensures fixedNotes == if confirmed then WithoutFixed(old(fixedNotes), id) else old(fixedNotes)
      ensures notes == old(notes) && alarms == old(alarms) && activeAlarms == old(activeAlarms)
      ensures windows == old(windows) && nextNoteId == old(nextNoteId) && nextFixedId == old(nextFixedId)
    {
      if confirmed {
        WithoutFixedInOrder(fixedNotes, id);
        fixedNotes := WithoutFixed(fixedNotes, id);
      }
    }

    /** `on_fixed_note_switch_toggled`. */
    method SetFixedAlarmEnabled(id: nat, enabled: bool)
      requires Valid()
      modifies this
      ensures Valid()
      ensures fixedNotes == SetEnabled(old(fixedNotes), id, enabled)
      ensures notes == old(notes) && alarms == old(alarms) && activeAlarms == old(activeAlarms)
      ensures windows == old(windows) && nextNoteId == old(nextNoteId) && nextFixedId == old(nextFixedId)
    {
      fixedNotes := SetEnabled(fixedNotes, id, enabled);
    }
  }
}
