/** Recurring ("fixed") reminders: the row of the `fixed_notes` table, the
    rule test the scheduler applies to it, the loose-column encoding the
    edit window writes (`on_fixed_note_save`) and reads back
    (`fixed_note_popup`), and the one-line description the list shows
    (`refresh_fixed_notes_list`). */
module Rules {
  import opened Wrappers
  import opened Text
  import opened Calendar

  /** A row of `fixed_notes`. `repeatType` is `"weekly"`, `"monthly"` or
      `"yearly"` as written by the edit window; the empty string stands for
      a NULL or unknown type. `alarmDays` holds the weekly days as
      comma-separated indices (Monday is 0); `repeatDay` / `repeatMonth` are
      the nullable day-of-month and month columns. */
  datatype FixedNote = FixedNote(
    id: nat,
    title: string,
    content: string,
    eventTime: string,
    alarmEnabled: bool,
    alarmDays: string,
    repeatType: string,
    repeatDay: Option<int>,
    repeatMonth: Option<int>)

  /** `str(weekday) in alarm_days.split(',')`. */
  predicate WeeklyMatches(alarmDays: string, weekday: nat) {
    Decimal(weekday) in Split(alarmDays, ',')
  }

  /** Whether the rule of `f` selects `today`; a rule type other than the
      three never does. */
  predicate RuleMatches(f: FixedNote, today: Date)
    requires ValidDate(today)
  {
    if f.repeatType == "weekly" then WeeklyMatches(f.alarmDays, Weekday(today))
    else if f.repeatType == "monthly" then f.repeatDay == Some(today.day)
    else if f.repeatType == "yearly" then f.repeatDay == Some(today.day) && f.repeatMonth == Some(today.month)
    else false
  }

  /** A monthly rule fires only on its own day number: with no rollover or
      clamping, a day beyond the month's length (31 in April, 30 in
      February) never matches that month. */
  lemma MonthlyRuleDays(f: FixedNote, today: Date)
    requires ValidDate(today) && f.repeatType == "monthly"
    ensures RuleMatches(f, today) <==> f.repeatDay == Some(today.day)
    ensures (f.repeatDay.Some? && f.repeatDay.value > DaysInMonth(today.year, today.month)) ==> !RuleMatches(f, today)
  {
  }

  // ---------------------------------------------------------------------
  // Weekly days: seven check boxes <-> "i,j,k"

  /** The decimal indices of the ticked boxes at positions `from` and up,
      in ascending order (`[str(i) for i, check in enumerate(checks) if
      check.get_active()]`). */
  function TickedDays(checks: seq<bool>, from: nat): seq<string>
    decreases |checks| - from
  {
    if from >= |checks| then []
    else (if checks[from] then [Decimal(from)] else []) + TickedDays(checks, from + 1)
  }

  /** `",".join(...)` of the ticked indices: what `alarm_days` receives. */
  function EncodeWeekdays(checks: seq<bool>): string {
    Join(TickedDays(checks, 0), ",")
  }

  /** Box `i` of the edit window is ticked when `str(i)` is among the pieces
      of `alarm_days.split(',')`. */
  function DecodeWeekdays(alarmDays: string): (checks: seq<bool>)
    ensures |checks| == 7
  {
    seq(7, i requires 0 <= i < 7 => WeeklyMatches(alarmDays, i))
  }

  lemma {:induction false} TickedDaysFacts(checks: seq<bool>, from: nat)
    requires |checks| <= 10
    ensures forall k :: 0 <= k < |TickedDays(checks, from)| ==> ',' !in TickedDays(checks, from)[k] && |TickedDays(checks, from)[k]| == 1
    ensures forall i :: 0 <= i < 10 ==> (Decimal(i) in TickedDays(checks, from) <==> from <= i < |checks| && checks[i])
    ensures TickedDays(checks, from) == [] <==> forall i :: from <= i < |checks| ==> !checks[i]
    decreases |checks| - from
  {
    if from < |checks| {
      TickedDaysFacts(checks, from + 1);
      forall i | 0 <= i < 10
        ensures Decimal(i) in TickedDays(checks, from) <==> from <= i < |checks| && checks[i]
      {
        DecimalInjective(i, from);
      }
    }
  }

  /** Saving the ticked boxes and opening the reminder again ticks exactly
      the same boxes; in particular no box gives the empty string, which
      matches no weekday. */
  lemma WeekdaysRoundTrip(checks: seq<bool>)
    requires |checks| == 7
    ensures DecodeWeekdays(EncodeWeekdays(checks)) == checks
  {
    var parts := TickedDays(checks, 0);
    TickedDaysFacts(checks, 0);
    if parts == [] {
      assert Split("", ',') == [""];
    } else {
      SplitOfJoin(parts, ',');
    }
    forall i | 0 <= i < 7
      ensures DecodeWeekdays(EncodeWeekdays(checks))[i] == checks[i]
    {
      assert |Decimal(i)| == 1;
    }
  }

  // ---------------------------------------------------------------------
  // The edit window

  /** The controls of the edit window as `on_fixed_note_save` reads them.
      The spin buttons give integers; `yearlyMonth` is the month combo's
      active id, None when no month is chosen. */
  datatype FixedForm = FixedForm(
    title: string,
    content: string,
    eventTime: string,
    alarmChecked: bool,
    repeatType: string,
    weeklyChecks: seq<bool>,
    monthlyDay: int,
    yearlyDay: int,
    yearlyMonth: Option<int>)

  /** What pressing Save does: nothing for an empty title, a TypeError
      (`int(None)`) for a yearly rule without a month, otherwise the row to
      write. */
  datatype SaveOutcome = Ignored | Raised | Saved(row: FixedNote)

  /** The row `on_fixed_note_save` builds from the form, for row id `id`:
      only the columns of the chosen rule type are filled in. */
  function FixedNoteOfForm(form: FixedForm, id: nat): (r: SaveOutcome)
    ensures r.Ignored? <==> form.title == ""
    ensures r.Raised? <==> form.title != "" && form.repeatType == "yearly" && form.yearlyMonth.None?
    ensures r.Saved? ==> r.row.id == id && r.row.title == form.title && r.row.eventTime == form.eventTime
                         && r.row.alarmEnabled == form.alarmChecked && r.row.repeatType == form.repeatType
  {
    if form.title == "" then Ignored
    else if form.repeatType == "yearly" && form.yearlyMonth.None? then Raised
    else
      Saved(FixedNote(
        id, form.title, form.content, form.eventTime, form.alarmChecked,
        if form.repeatType == "weekly" then EncodeWeekdays(form.weeklyChecks) else "",
        form.repeatType,
        if form.repeatType == "monthly" then Some(form.monthlyDay)
        else if form.repeatType == "yearly" then Some(form.yearlyDay)
        else None,
        if form.repeatType == "yearly" then form.yearlyMonth else None))
  }

  /** The days the form's controls describe. */
  predicate FormSelects(form: FixedForm, today: Date)
    requires ValidDate(today)
  {
    if form.repeatType == "weekly" then |form.weeklyChecks| == 7 && form.weeklyChecks[Weekday(today)]
    else if form.repeatType == "monthly" then form.monthlyDay == today.day
    else if form.repeatType == "yearly" then form.yearlyDay == today.day && form.yearlyMonth == Some(today.month)
    else false
  }

  /** The saved row's rule selects exactly the days the form showed. */
  lemma SavedRuleMatchesForm(form: FixedForm, id: nat, today: Date)
    requires ValidDate(today) && |form.weeklyChecks| == 7
    requires FixedNoteOfForm(form, id).Saved?
    ensures RuleMatches(FixedNoteOfForm(form, id).row, today) <==> FormSelects(form, today)
  {
    if form.repeatType == "weekly" {
      WeekdaysRoundTrip(form.weeklyChecks);
      assert DecodeWeekdays(EncodeWeekdays(form.weeklyChecks))[Weekday(today)]
          == WeeklyMatches(EncodeWeekdays(form.weeklyChecks), Weekday(today));
    }
  }

  /** The value a day spin button (range 1..31) shows after `set_value(v)`. */
  function SpinDay(v: int): (d: int)
    ensures 1 <= d <= 31
    ensures 1 <= v <= 31 ==> d == v
  {
    if v < 1 then 1 else if v > 31 then 31 else v
  }

  /** The form `fixed_note_popup` fills in for an existing row, or None when
      filling it in raises (a NULL `repeat_day` handed to a spin button).
      The alarm box is cleared when the time is empty; the month combo keeps
      no selection for an id outside 1..12; boxes and spins of the other rule
      types keep their defaults, and the day spins clamp to 1..31. */
  function FormOfRow(row: FixedNote): Option<FixedForm> {
    var repeatType := if row.repeatType in {"weekly", "monthly", "yearly"} then row.repeatType else "";
    if (repeatType == "monthly" || repeatType == "yearly") && row.repeatDay.None? then None
    else
      Some(FixedForm(
        row.title, row.content, row.eventTime,
        row.alarmEnabled && row.eventTime != "",
        repeatType,
        if repeatType == "weekly" then DecodeWeekdays(row.alarmDays) else seq(7, _ => false),
        if repeatType == "monthly" then SpinDay(row.repeatDay.value) else 1,
        if repeatType == "yearly" then SpinDay(row.repeatDay.value) else 1,
        if repeatType == "yearly" && row.repeatMonth.Some? && 1 <= row.repeatMonth.value <= 12
        then row.repeatMonth else None))
  }

  /** A form the edit window can present at Save: a title, one of the three
      rule types, seven boxes, day spins within 1..31, the alarm box usable
      only with a time, and a month from the combo for a yearly rule. */
  predicate SavableForm(form: FixedForm) {
    && form.title != ""
    && form.repeatType in {"weekly", "monthly", "yearly"}
    && |form.weeklyChecks| == 7
    && 1 <= form.monthlyDay <= 31 && 1 <= form.yearlyDay <= 31
    && (form.alarmChecked ==> form.eventTime != "")
    && (form.repeatType == "yearly" ==> form.yearlyMonth.Some? && 1 <= form.yearlyMonth.value <= 12)
  }

  /** Opening a saved reminder for editing restores the rule controls that
      were saved, and pressing Save again without changes writes the same
      row. */
  lemma EditThenSaveUnchanged(form: FixedForm, id: nat)
    requires SavableForm(form)
    ensures FixedNoteOfForm(form, id).Saved?
    ensures FormOfRow(FixedNoteOfForm(form, id).row).Some?
    ensures var again := FormOfRow(FixedNoteOfForm(form, id).row).value;
      && (form.repeatType == "weekly" ==> again.weeklyChecks == form.weeklyChecks)
      && (form.repeatType == "monthly" ==> again.monthlyDay == form.monthlyDay)
      && (form.repeatType == "yearly" ==> again.yearlyDay == form.yearlyDay && again.yearlyMonth == form.yearlyMonth)
      && FixedNoteOfForm(again, id) == FixedNoteOfForm(form, id)
  {
    var row := FixedNoteOfForm(form, id).row;
    if form.repeatType == "weekly" {
      WeekdaysRoundTrip(form.weeklyChecks);
    }
    var again := FormOfRow(row).value;
    assert again.repeatType == form.repeatType;
  }

  // ---------------------------------------------------------------------
  // The description line of the list

  function DayName(i: nat): string
    requires i < 7
  {
    ["Mon", "Tue", "Wed", "Thu", "Fri", "Sat", "Sun"][i]
  }

  /** `day_map[d]`, None for a KeyError. */
  function DayLabel(d: string): Option<string> {
    if |d| == 1 && '0' <= d[0] <= '6' then Some(DayName(DigitValue(d[0]))) else None
  }

  /** `month_map.get(m, '?')`. */
  function MonthLabel(m: int): string {
    if 1 <= m <= 12
    then ["Jan", "Feb", "Mar", "Apr", "May", "Jun", "Jul", "Aug", "Sep", "Oct", "Nov", "Dec"][m - 1]
    else "?"
  }

  /** `[day_map[d] for d in parts if d]`, None when a KeyError is raised. */
  function DayLabels(parts: seq<string>): Option<seq<string>> {
    if |parts| == 0 then Some([])
    else if parts[0] == "" then DayLabels(parts[1..])
    else
      var head := DayLabel(parts[0]);
      var rest := DayLabels(parts[1..]);
      if head.None? || rest.None? then None else Some([head.value] + rest.value)
  }

  /** Python truthiness of a nullable integer column. */
  predicate Truthy(v: Option<int>) {
    v.Some? && v.value != 0
  }

  /** `rule_part`: the rule in words, "" when there is nothing to say; None
      when a weekly piece is not a weekday index (KeyError). */
  function RulePart(row: FixedNote): Option<string> {
    var repeatType := if row.repeatType == "" then "weekly" else row.repeatType;
    if repeatType == "weekly" then
      if row.alarmDays == "" then Some("")
      else
        match DayLabels(Split(row.alarmDays, ','))
        case None => None
        case Some(labels) => Some("Every " + Join(labels, ", "))
    else if repeatType == "monthly" then
      if Truthy(row.repeatDay) then Some("On the " + IntText(row.repeatDay.value) + ". of every month") else Some("")
    else if repeatType == "yearly" then
      if Truthy(row.repeatDay) && Truthy(row.repeatMonth)
      then Some("Every year on " + MonthLabel(row.repeatMonth.value) + " " + IntText(row.repeatDay.value))
      else Some("")
    else Some("")
  }

  /** `details_text`: the second line of a fixed reminder in the list. */
  function DetailsText(row: FixedNote): Option<string> {
    match RulePart(row)
    case None => None
    case Some(rulePart) => Some(Describe(row.eventTime, row.alarmEnabled, rulePart))
  }

  /** The line built from the time, the alarm flag and the rule part. */
  function Describe(eventTime: string, alarmEnabled: bool, rulePart: string): string {
    var prefix := if alarmEnabled && eventTime != "" then "Alarm:" else "Event:";
    if eventTime != "" && rulePart != "" then prefix + " " + eventTime + " (" + rulePart + ")"
    else if eventTime != "" then prefix + " " + eventTime + " (Does not repeat)"
    else if rulePart != "" then "Reminder: (" + rulePart + ")"
    else "Undated, non-repeating note"
  }

  /** The names of the ticked days at positions `from` and up, in order. */
  function TickedNames(checks: seq<bool>, from: nat): seq<string>
    requires |checks| <= 7
    decreases |checks| - from
  {
    if from >= |checks| then []
    else (if checks[from] then [DayName(from)] else []) + TickedNames(checks, from + 1)
  }

  lemma {:induction false} LabelsOfTickedDays(checks: seq<bool>, from: nat)
    requires |checks| <= 7
    ensures DayLabels(TickedDays(checks, from)) == Some(TickedNames(checks, from))
    decreases |checks| - from
  {
    if from < |checks| {
      LabelsOfTickedDays(checks, from + 1);
      var rest := TickedDays(checks, from + 1);
      if checks[from] {
        assert TickedDays(checks, from) == [Decimal(from)] + rest;
        assert ([Decimal(from)] + rest)[1..] == rest;
      } else {
        assert TickedDays(checks, from) == [] + rest == rest;
        assert TickedNames(checks, from) == [] + TickedNames(checks, from + 1) == TickedNames(checks, from + 1);
      }
    }
  }

  /** The description of a weekly reminder lists exactly the ticked days,
      Monday first, and is empty exactly when no day is ticked, which is
      when the rule can never fire. */
  lemma WeeklyDescription(form: FixedForm, id: nat)
    requires SavableForm(form) && form.repeatType == "weekly"
    ensures var row := FixedNoteOfForm(form, id).row;
      RulePart(row) == Some(if TickedNames(form.weeklyChecks, 0) == [] then ""
                            else "Every " + Join(TickedNames(form.weeklyChecks, 0), ", "))
    ensures (TickedNames(form.weeklyChecks, 0) == []) <==> (forall i :: 0 <= i < 7 ==> !form.weeklyChecks[i])
  {
    var checks := form.weeklyChecks;
    var parts := TickedDays(checks, 0);
    TickedDaysFacts(checks, 0);
    LabelsOfTickedDays(checks, 0);
    TickedNamesEmpty(checks, 0);
    if parts != [] {
      SplitOfJoin(parts, ',');
      assert |Join(parts, ",")| > 0 by { JoinNonEmpty(parts); }
    }
  }

  lemma {:induction false} TickedNamesEmpty(checks: seq<bool>, from: nat)
    requires |checks| <= 7
    ensures TickedNames(checks, from) == [] <==> forall i :: from <= i < |checks| ==> !checks[i]
    decreases |checks| - from
  {
    if from < |checks| {
      TickedNamesEmpty(checks, from + 1);
    }
  }

  lemma JoinNonEmpty(parts: seq<string>)
    requires |parts| >= 1 && forall k :: 0 <= k < |parts| ==> |parts[k]| >= 1
    ensures |Join(parts, ",")| >= 1
  {
  }

  /** The line starts with "Alarm:" exactly when the alarm is enabled and
      there is a time. */
  lemma DescribePrefix(eventTime: string, alarmEnabled: bool, rulePart: string)
    ensures var text := Describe(eventTime, alarmEnabled, rulePart);
      |text| >= 6 && text[..6] == "Alarm:" <==> alarmEnabled && eventTime != ""
  {
    var text := Describe(eventTime, alarmEnabled, rulePart);
    var prefix := if alarmEnabled && eventTime != "" then "Alarm:" else "Event:";
    if eventTime != "" && rulePart != "" {
      assert text == prefix + (" " + eventTime + " (" + rulePart + ")");
      assert text[..6] == prefix;
    } else if eventTime != "" {
      assert text == prefix + (" " + eventTime + " (Does not repeat)");
      assert text[..6] == prefix;
    } else if rulePart != "" {
      assert text == "Reminder: (" + rulePart + ")";
      assert text[..6] == "Remind";
    } else {
      assert text[..6] == "Undate";
    }
  }

  /** Every reminder saved from the edit window can be described (no
      KeyError), and its line starts with "Alarm:" exactly when the alarm
      box was ticked. */
  lemma DescriptionOfSavedRow(form: FixedForm, id: nat)
    requires SavableForm(form)
    ensures var row := FixedNoteOfForm(form, id).row;
      && DetailsText(row).Some?
      && (|DetailsText(row).value| >= 6 && DetailsText(row).value[..6] == "Alarm:" <==> form.alarmChecked)
  {
    var row := FixedNoteOfForm(form, id).row;
    if form.repeatType == "weekly" {
      WeeklyDescription(form, id);
    }
    assert RulePart(row).Some?;
    DescribePrefix(row.eventTime, row.alarmEnabled, RulePart(row).value);
  }
}
