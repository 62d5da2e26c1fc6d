/** The rows the alarm engine reads and writes: the `notes` and `alarms`
    tables, and the ids under which an alarm can be active. */
module Store {
  import opened Wrappers
  import opened Text

  /** A row of `notes`; `date` is the `"YYYY-MM-DD"` key of its day. */
  datatype Note = Note(id: nat, title: string, content: string, date: string)

  /** A row of `alarms`, keyed by the note id it belongs to; `time` is the
      `"HH:MM"` minute it rings at. */
  datatype AlarmRow = AlarmRow(sound: Option<string>, volume: int, duration: int, time: string)

  /** The id an alarm is tracked under in the active set: the int id of a
      note, or the string `"fixed_<id>"` of a fixed reminder. */
  datatype AlarmId = IntId(n: nat) | StrId(s: string)

  /** `f"fixed_{id}"`. */
  function FixedAlarmId(id: nat): (a: AlarmId)
    ensures a.StrId? && |a.s| > 6 && a.s[..6] == "fixed_"
  {
    StrId("fixed_" + Decimal(id))
  }

  /** Distinct fixed reminders have distinct tagged ids, and no tagged id is
      the id of a note. */
  lemma FixedAlarmIdInjective(a: nat, b: nat)
    ensures FixedAlarmId(a) == FixedAlarmId(b) <==> a == b
    ensures forall n: nat :: IntId(n) != FixedAlarmId(a)
  {
    if FixedAlarmId(a) == FixedAlarmId(b) {
      var sa, sb := "fixed_" + Decimal(a), "fixed_" + Decimal(b);
      assert Decimal(a) == sa[6..] == sb[6..] == Decimal(b);
      DecimalInjective(a, b);
    }
  }

  predicate UniqueNoteIds(notes: seq<Note>) {
    forall i, j :: 0 <= i < j < |notes| ==> notes[i].id != notes[j].id
  }

  /** `load_alarm_db(note_id)`: the alarm row of a note, if any. */
  function LoadAlarm(alarms: map<nat, AlarmRow>, noteId: nat): (r: Option<AlarmRow>)
    ensures r.Some? <==> noteId in alarms
    ensures r.Some? ==> r.value == alarms[noteId]
  {
    if noteId in alarms then Some(alarms[noteId]) else None
  }

  /** `load_alarm_db` after `save_alarm_db` (INSERT OR REPLACE) reads back the
      row just written, and every other note's alarm as it was. */
  lemma LoadAfterSave(alarms: map<nat, AlarmRow>, noteId: nat, row: AlarmRow, other: nat)
    ensures LoadAlarm(alarms[noteId := row], noteId) == Some(row)
    ensures other != noteId ==> LoadAlarm(alarms[noteId := row], other) == LoadAlarm(alarms, other)
  {
  }

  /** `load_alarm_db` after `delete_alarm_db` finds no alarm for that note,
      and every other note's alarm as it was. */
  lemma LoadAfterDelete(alarms: map<nat, AlarmRow>, noteId: nat, other: nat)
    ensures LoadAlarm(alarms - {noteId}, noteId) == None
    ensures other != noteId ==> LoadAlarm(alarms - {noteId}, other) == LoadAlarm(alarms, other)
  {
  }
}
