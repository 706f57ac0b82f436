/** The two actions of the registry form. "Calculate" derives the age and the
    month counts and holds them in the session; "Save Information" assembles the
    record from the form and the session and appends it to the store, or refuses
    when nothing has been calculated yet. "Today" is a parameter. */
module Form {
  import opened Dates
  import opened Cells
  import opened Store

  const Yes: string := "Yes"
  const NotApplicable: string := "N/A"
  const SaveRefusal: string := "Please calculate the age and treatment times before saving."

  const AgeKey: string := "Age"
  const FollowUpTimeKey: string := "Follow_up_time"
  const CancerRelatedDeathKey: string := "Cancer Related Death"

  /** The four outcome events, each a "Yes"/"No" answer with a date behind it. */
  datatype Event = LocalRecurrence | RegionalRecurrence | DistantRecurrence | Death

  /** The column a saved record keeps the event's answer in. */
  function FlagColumn(e: Event): string {
    match e
    case LocalRecurrence => "Local Recurrence"
    case RegionalRecurrence => "Regional_recurrence"
    case DistantRecurrence => "Distant_recurrence"
    case Death => "Death"
  }

  /** The column a saved record keeps the event's month count (or "N/A") in. */
  function TimeColumn(e: Event): string {
    match e
    case LocalRecurrence => "Time_to_local_recurrence"
    case RegionalRecurrence => "Time_to_regional_recurrence"
    case DistantRecurrence => "Time_to_distant_recurrence"
    case Death => "time_to_death"
  }

  /** What the form holds when a button is pressed. The columns the model does not
      derive (histology, grade, staging, dates, toxicity grades, ...) travel in
      `other` exactly as they are to be stored. */
  datatype FormInput = FormInput(
    mrn: string,
    dateOfBirth: Date,
    lastRadiotherapy: Date,
    followUp: Date,
    localRecurrence: string, localRecurrenceDate: Date,
    regionalRecurrence: string, regionalRecurrenceDate: Date,
    distantRecurrence: string, distantRecurrenceDate: Date,
    death: string, cancerRelatedDeath: string, deathDate: Date,
    other: Row)
  {
    function Flag(e: Event): string {
      match e
      case LocalRecurrence => localRecurrence
      case RegionalRecurrence => regionalRecurrence
      case DistantRecurrence => distantRecurrence
      case Death => death
    }

    function EventDate(e: Event): Date {
      match e
      case LocalRecurrence => localRecurrenceDate
      case RegionalRecurrence => regionalRecurrenceDate
      case DistantRecurrence => distantRecurrenceDate
      case Death => deathDate
    }
  }

  /** What "Calculate" leaves for "Save"; every field is `None` until Calculate runs. */
  datatype Session = Session(
    age: Option<int>,
    timeSinceTreatment: Option<int>,
    timeToLocalRecurrence: Option<Value>,
    timeToRegionalRecurrence: Option<Value>,
    timeToDistantRecurrence: Option<Value>,
    timeToDeath: Option<Value>)
  {
    function Held(e: Event): Option<Value> {
      match e
      case LocalRecurrence => timeToLocalRecurrence
      case RegionalRecurrence => timeToRegionalRecurrence
      case DistantRecurrence => timeToDistantRecurrence
      case Death => timeToDeath
    }

    /** The save gate: an age and a follow-up time have been calculated. */
    predicate Calculated() {
      age.Some? && timeSinceTreatment.Some?
    }
  }

  const FreshSession: Session := Session(None, None, None, None, None, None)

  /** A time-to-event value: the months from the last radiotherapy to the event
      when the event's answer is "Yes", and the text "N/A" for any other answer. */
  function TimeToEvent(flag: string, lastRadiotherapy: Date, eventDate: Date): (v: Value)
    ensures v.Num? <==> flag == Yes
    ensures v.Num? ==> v.n == MonthIndex(eventDate) - MonthIndex(lastRadiotherapy)
    ensures v.Text? ==> v.s == NotApplicable
  {
    if flag == Yes then Num(CalculateMonths(lastRadiotherapy, eventDate)) else Text(NotApplicable)
  }

  /** "Calculate": the age on `today`, the months since the last radiotherapy at
      follow-up, and one time-to-event value per event. Afterwards saving is allowed. */
  function Calculate(input: FormInput, today: Date): (s: Session)
    ensures s.Calculated()
    ensures NotAfter(Anniversary(input.dateOfBirth, s.age.value), today)
    ensures Before(today, Anniversary(input.dateOfBirth, s.age.value + 1))
    ensures s.timeSinceTreatment.value == MonthIndex(input.followUp) - MonthIndex(input.lastRadiotherapy)
    ensures forall e :: s.Held(e).Some? && (s.Held(e).value.Num? <==> input.Flag(e) == Yes)
    ensures forall e :: input.Flag(e) == Yes ==>
              s.Held(e) == Some(Num(CalculateMonths(input.lastRadiotherapy, input.EventDate(e))))
    ensures forall e :: input.Flag(e) != Yes ==> s.Held(e) == Some(Text(NotApplicable))
  {
    var last := input.lastRadiotherapy;
    Session(
      Some(Age(input.dateOfBirth, today)),
      Some(CalculateMonths(last, input.followUp)),
      Some(TimeToEvent(input.localRecurrence, last, input.localRecurrenceDate)),
      Some(TimeToEvent(input.regionalRecurrence, last, input.regionalRecurrenceDate)),
      Some(TimeToEvent(input.distantRecurrence, last, input.distantRecurrenceDate)),
      Some(TimeToEvent(input.death, last, input.deathDate)))
  }

  /** The record's cell for an event's time: the held value when the answer on the
      form is "Yes" at save time, "N/A" otherwise. */
  function EventCell(flag: string, held: Option<Value>): Option<Value> {
    if flag == Yes then held else Some(Text(NotApplicable))
  }

  /** The columns of the four events: each event's answer and time cell. */
  function EventColumns(): set<string> {
    { FlagColumn(LocalRecurrence), TimeColumn(LocalRecurrence),
      FlagColumn(RegionalRecurrence), TimeColumn(RegionalRecurrence),
      FlagColumn(DistantRecurrence), TimeColumn(DistantRecurrence),
      FlagColumn(Death), TimeColumn(Death) }
  }

  /** Each event's answer, and its time cell: the held month count when the
      answer is "Yes", "N/A" otherwise. */
  function EventCells(input: FormInput, s: Session): (r: Row)
    ensures r.Keys == EventColumns()
    ensures forall e :: r[FlagColumn(e)] == Some(Text(input.Flag(e)))
    ensures forall e :: r[TimeColumn(e)] == EventCell(input.Flag(e), s.Held(e))
  {
    map[
      FlagColumn(LocalRecurrence) := Some(Text(input.localRecurrence)),
      TimeColumn(LocalRecurrence) := EventCell(input.localRecurrence, s.timeToLocalRecurrence),
      FlagColumn(RegionalRecurrence) := Some(Text(input.regionalRecurrence)),
      TimeColumn(RegionalRecurrence) := EventCell(input.regionalRecurrence, s.timeToRegionalRecurrence),
      FlagColumn(DistantRecurrence) := Some(Text(input.distantRecurrence)),
      TimeColumn(DistantRecurrence) := EventCell(input.distantRecurrence, s.timeToDistantRecurrence),
      FlagColumn(Death) := Some(Text(input.death)),
      TimeColumn(Death) := EventCell(input.death, s.timeToDeath)
    ]
  }

  /** The MRN ("N/A" when none was typed), the calculated age and follow-up time,
      and the cancer-related-death answer ("N/A" unless death is "Yes"). */
  function PatientCells(input: FormInput, s: Session): (r: Row)
    requires s.Calculated()
    ensures r.Keys == {MrnKey, AgeKey, FollowUpTimeKey, CancerRelatedDeathKey}
    ensures r[MrnKey] == Some(Text(if input.mrn == "" then NotApplicable else input.mrn))
    ensures r[AgeKey] == Some(Num(s.age.value))
    ensures r[FollowUpTimeKey] == Some(Num(s.timeSinceTreatment.value))
    ensures r[CancerRelatedDeathKey] == Some(Text(if input.death == Yes then input.cancerRelatedDeath else NotApplicable))
  {
    map[
      MrnKey := Some(Text(if input.mrn == "" then NotApplicable else input.mrn)),
      AgeKey := Some(Num(s.age.value)),
      FollowUpTimeKey := Some(Num(s.timeSinceTreatment.value)),
      CancerRelatedDeathKey := Some(Text(if input.death == Yes then input.cancerRelatedDeath else NotApplicable))
    ]
  }

  /** The record "Save Information" hands to the store: the pass-through columns
      overlaid with the computed ones. */
  function BuildRecord(input: FormInput, s: Session): (r: Row)
    requires s.Calculated()
    ensures MrnKey in r && r[MrnKey] == Some(Text(if input.mrn == "" then NotApplicable else input.mrn))
    ensures AgeKey in r && r[AgeKey] == Some(Num(s.age.value))
    ensures FollowUpTimeKey in r && r[FollowUpTimeKey] == Some(Num(s.timeSinceTreatment.value))
    ensures CancerRelatedDeathKey in r
    ensures input.death == Yes ==> r[CancerRelatedDeathKey] == Some(Text(input.cancerRelatedDeath))
    ensures input.death != Yes ==> r[CancerRelatedDeathKey] == Some(Text(NotApplicable))
    ensures r.Keys == input.other.Keys + DerivedColumns()
    ensures forall k :: k in input.other && k !in DerivedColumns() ==> r[k] == input.other[k]
  {
    input.other + EventCells(input, s) + PatientCells(input, s)
  }

  /** The columns "Save Information" writes itself rather than passing through. */
  function DerivedColumns(): set<string> {
    {MrnKey, AgeKey, FollowUpTimeKey, CancerRelatedDeathKey} + EventColumns()
  }

  /** Each event's answer and time land in the record under that event's columns. */
  lemma RecordEventColumns(input: FormInput, s: Session, e: Event)
    requires s.Calculated()
    ensures FlagColumn(e) in BuildRecord(input, s) && TimeColumn(e) in BuildRecord(input, s)
    ensures BuildRecord(input, s)[FlagColumn(e)] == Some(Text(input.Flag(e)))
    ensures BuildRecord(input, s)[TimeColumn(e)] == EventCell(input.Flag(e), s.Held(e))
  {
    var p := PatientCells(input, s);
    assert FlagColumn(e) !in p && TimeColumn(e) !in p;
  }

  datatype Outcome = Saved | Refused(message: string)

  datatype SaveReply = SaveReply(store: Table, outcome: Outcome)

  /** "Save Information": refused, with the store untouched, unless Calculate has
      produced an age and a follow-up time; otherwise the assembled record is
      appended to the store. */
  function SaveInformation(store: Table, s: Session, input: FormInput): (r: SaveReply)
    ensures !s.Calculated() ==> r.store == store && r.outcome == Refused(SaveRefusal)
    ensures s.Calculated() ==> r.outcome == Saved && |r.store| == |store| + 1
    ensures s.Calculated() ==> forall i :: 0 <= i < |store| ==> r.store[i] == NormaliseRow(store[i])
    ensures s.Calculated() ==> r.store[|store|] == NormaliseRow(BuildRecord(input, s))
  {
    if !s.Calculated() then SaveReply(store, Refused(SaveRefusal))
    else SaveReply(SaveData(store, BuildRecord(input, s)), Saved)
  }

  /** Pressing "Save Information" before any "Calculate" changes nothing. */
  lemma SaveBeforeCalculateRefused(store: Table, input: FormInput)
    ensures SaveInformation(store, FreshSession, input) == SaveReply(store, Refused(SaveRefusal))
  {
  }

  /** Whatever the session holds, an event answered anything but "Yes" at save time
      is stored as "N/A", and a stored month count means the answer was "Yes". */
  lemma StoredTimeNeedsYes(store: Table, s: Session, input: FormInput, e: Event)
    requires s.Calculated()
    ensures var row := SaveInformation(store, s, input).store[|store|];
            && TimeColumn(e) in row
            && (input.Flag(e) != Yes ==> row[TimeColumn(e)] == Some(Text(NotApplicable)))
            && (row[TimeColumn(e)].Some? && row[TimeColumn(e)].value.Num? ==> input.Flag(e) == Yes)
  {
    RecordEventColumns(input, s, e);
    assert TimeColumn(e) != MrnKey by {
      match e
      case LocalRecurrence =>
      case RegionalRecurrence =>
      case DistantRecurrence =>
      case Death =>
    }
  }

  /** Calculate then Save with the same form: one new last row holding the age on
      `today`, the follow-up month count, and for each event its month count
      exactly when the answer is "Yes" and "N/A" otherwise. */
  lemma CalculateThenSave(store: Table, input: FormInput, today: Date, e: Event)
    ensures var r := SaveInformation(store, Calculate(input, today), input);
            var row := r.store[|store|];
            && r.outcome == Saved && |r.store| == |store| + 1
            && row[AgeKey] == Some(Num(Age(input.dateOfBirth, today)))
            && row[FollowUpTimeKey] == Some(Num(CalculateMonths(input.lastRadiotherapy, input.followUp)))
            && TimeColumn(e) in row
            && (input.Flag(e) == Yes ==>
                  row[TimeColumn(e)] == Some(Num(CalculateMonths(input.lastRadiotherapy, input.EventDate(e)))))
            && (input.Flag(e) != Yes ==> row[TimeColumn(e)] == Some(Text(NotApplicable)))
  {
    var s := Calculate(input, today);
    RecordEventColumns(input, s, e);
    match e
    case LocalRecurrence =>
    case RegionalRecurrence =>
    case DistantRecurrence =>
    case Death =>
  }

  /** The outcome of the save gate's test on the session. */
  datatype GateResult = Proceed | Refuse | Raise(attribute: string)

  /** The save gate as written: `st.session_state.age` and then (only when the age
      is not `None`) `st.session_state.time_since_treatment` are read as attributes,
      and reading a name that was never assigned raises. `state` maps the names
      assigned so far to their values. */
  function GateAsWritten(state: map<string, Option<int>>): (r: GateResult)
    ensures "age" !in state ==> r == Raise("age")
    ensures r == Proceed <==> (&& "age" in state && state["age"].Some?
                               && "time_since_treatment" in state && state["time_since_treatment"].Some?)
  {
    if "age" !in state then Raise("age")
    else if state["age"].None? then Refuse
    else if "time_since_treatment" !in state then Raise("time_since_treatment")
    else if state["time_since_treatment"].None? then Refuse
    else Proceed
  }

  /** Nothing assigns the session's age before the first "Calculate", so in a
      fresh session "Save Information" raises instead of showing the refusal. */
  lemma FreshSessionRaises()
    ensures GateAsWritten(map[]) == Raise("age")
  {
  }

  /** The session's values under the attribute names the source uses. */
  function StateOf(s: Session): map<string, Option<int>> {
    map["age" := s.age, "time_since_treatment" := s.timeSinceTreatment]
  }

  /** With both names assigned from the start (`None` until Calculate runs), the
      gate as written proceeds exactly when the age and follow-up time are
      present and refuses otherwise; it never raises. */
  lemma GateAgreesWhenInitialised(s: Session)
    ensures GateAsWritten(StateOf(s)) == (if s.Calculated() then Proceed else Refuse)
  {
  }
}
