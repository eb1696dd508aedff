/**
 * The request bodies for creating and updating a presenter: required
 * non-empty strings on create, every field optional on update, and schedule
 * lists whose every element is a validated slot.
 */
module PresenterRequests {
  import opened Wrappers
  import opened Schedule

  /** A field of a JSON object: left out, given as `null`, or given a value. */
  datatype Json<T> = Omitted | Null | Given(value: T)

  /** Whether an optional request field was set explicitly, and to what. */
  datatype Supplied<T> = Unset | SetTo(value: T)

  datatype RequestError =
    | FieldMissing(field: string)
    | NotAString(field: string)
    | NotAList(field: string)
    | TooShort(field: string)
    | InvalidSlot(index: nat, errors: seq<SlotError>)

  datatype RawCreate = RawCreate(name: Json<string>, voiceId: Json<string>, modelId: Json<string>,
                                 schedules: Json<seq<RawSlot>>)

  datatype CreatePresenterRequest = CreatePresenterRequest(
    name: string, voiceId: string, modelId: string, schedules: seq<ScheduleSlot>)

  datatype RawUpdate = RawUpdate(name: Json<string>, voiceId: Json<string>, modelId: Json<string>,
                                 schedules: Json<seq<RawSlot>>)

  datatype UpdatePresenterRequest = UpdatePresenterRequest(
    name: Supplied<Option<string>>, voiceId: Supplied<Option<string>>,
    modelId: Supplied<Option<string>>, schedules: Supplied<Option<seq<ScheduleSlot>>>)

  /**
   * Validates each element of a schedule list with the slot validator for the
   * time check `timeOk`, numbering the errors by position; `offset` is the
   * position of `raws[0]` in the whole list.
   */
  function ValidateSlots(timeOk: string -> bool, raws: seq<RawSlot>, offset: nat)
    : (r: Result<seq<ScheduleSlot>, seq<RequestError>>)
    ensures r.Ok? <==> forall i :: 0 <= i < |raws| ==> ValidateSlotWith(timeOk, raws[i]).Ok?
    ensures r.Ok? ==> |r.value| == |raws|
    ensures r.Ok? ==> forall i :: 0 <= i < |raws| ==> ValidateSlotWith(timeOk, raws[i]) == Ok(r.value[i])
    ensures r.Err? ==> r.error != []
    ensures r.Err? ==> forall e :: e in r.error ==> e.InvalidSlot? && offset <= e.index < offset + |raws|
    decreases |raws|
  {
    if raws == [] then Ok([])
    else
      var head := ValidateSlotWith(timeOk, raws[0]);
      var rest := ValidateSlots(timeOk, raws[1..], offset + 1);
      assert forall i :: 1 <= i < |raws| ==> raws[1..][i - 1] == raws[i];
      if head.Ok? && rest.Ok? then
        Ok([head.value] + rest.value)
      else if head.Ok? then
        Err(rest.error)
      else
        Err([InvalidSlot(offset, head.error)] + (if rest.Err? then rest.error else []))
  }

  /** A required string field with at least one character. */
  function RequiredText(field: string, v: Json<string>): (r: Result<string, RequestError>)
    ensures r.Ok? <==> v.Given? && v.value != ""
    ensures r.Ok? ==> r.value == v.value
  {
    match v
    case Omitted => Err(FieldMissing(field))
    case Null => Err(NotAString(field))
    case Given(s) => if s == "" then Err(TooShort(field)) else Ok(s)
  }

  /** The schedule list of a create request; an omitted list is empty. */
  function CreateSchedules(timeOk: string -> bool, v: Json<seq<RawSlot>>): Result<seq<ScheduleSlot>, seq<RequestError>> {
    match v
    case Omitted => Ok([])
    case Null => Err([NotAList("schedules")])
    case Given(raws) => ValidateSlots(timeOk, raws, 0)
  }

  function ErrorsOf<T>(r: Result<T, RequestError>): seq<RequestError> {
    if r.Err? then [r.error] else []
  }

  /**
   * Validation of a create body, with the time check `timeOk` for its slots;
   * all field errors are reported together. A body is accepted exactly when
   * the three strings are given and non-empty and every slot validates; the
   * result keeps the strings and the validated slots, and an omitted schedule
   * list becomes the empty list.
   */
  function ValidateCreate(timeOk: string -> bool, raw: RawCreate): (r: Result<CreatePresenterRequest, seq<RequestError>>)
    ensures r.Ok? <==>
      && raw.name.Given? && raw.name.value != ""
      && raw.voiceId.Given? && raw.voiceId.value != ""
      && raw.modelId.Given? && raw.modelId.value != ""
      && (raw.schedules.Omitted? ||
          (raw.schedules.Given? &&
           forall i :: 0 <= i < |raw.schedules.value| ==> ValidateSlotWith(timeOk, raw.schedules.value[i]).Ok?))
    ensures r.Ok? ==>
      && r.value.name == raw.name.value
      && r.value.voiceId == raw.voiceId.value
      && r.value.modelId == raw.modelId.value
    ensures r.Ok? && raw.schedules.Omitted? ==> r.value.schedules == []
    ensures r.Ok? && raw.schedules.Given? ==>
      && |r.value.schedules| == |raw.schedules.value|
      && forall i :: 0 <= i < |raw.schedules.value| ==>
           ValidateSlotWith(timeOk, raw.schedules.value[i]) == Ok(r.value.schedules[i])
    ensures r.Err? ==> r.error != []
  {
    var name := RequiredText("name", raw.name);
    var voiceId := RequiredText("voice_id", raw.voiceId);
    var modelId := RequiredText("model_id", raw.modelId);
    var schedules := CreateSchedules(timeOk, raw.schedules);
    if name.Ok? && voiceId.Ok? && modelId.Ok? && schedules.Ok? then
      Ok(CreatePresenterRequest(name.value, voiceId.value, modelId.value, schedules.value))
    else
      Err(ErrorsOf(name) + ErrorsOf(voiceId) + ErrorsOf(modelId) + (if schedules.Err? then schedules.error else []))
  }

  /** An optional string field: left out is unset, `null` sets `None`. */
  function OptionalText(v: Json<string>): Supplied<Option<string>> {
    match v
    case Omitted => Unset
    case Null => SetTo(None)
    case Given(s) => SetTo(Some(s))
  }

  /**
   * Validation of an update body, with the time check `timeOk` for its slots.
   * Every field is optional: a body is refused only for a slot that does not
   * validate. A field left out stays unset, `null` sets `None`, and a given
   * value is set.
   */
  function ValidateUpdate(timeOk: string -> bool, raw: RawUpdate): (r: Result<UpdatePresenterRequest, seq<RequestError>>)
    ensures r.Ok? <==>
      !raw.schedules.Given? ||
      forall i :: 0 <= i < |raw.schedules.value| ==> ValidateSlotWith(timeOk, raw.schedules.value[i]).Ok?
    ensures r.Ok? ==>
      && r.value.name == OptionalText(raw.name)
      && r.value.voiceId == OptionalText(raw.voiceId)
      && r.value.modelId == OptionalText(raw.modelId)
    ensures r.Ok? && raw.schedules.Omitted? ==> r.value.schedules == Unset
    ensures r.Ok? && raw.schedules.Null? ==> r.value.schedules == SetTo(None)
    ensures r.Ok? && raw.schedules.Given? ==>
      && r.value.schedules.SetTo? && r.value.schedules.value.Some?
      && |r.value.schedules.value.value| == |raw.schedules.value|
      && forall i :: 0 <= i < |raw.schedules.value| ==>
           ValidateSlotWith(timeOk, raw.schedules.value[i]) == Ok(r.value.schedules.value.value[i])
    ensures r.Err? ==> r.error != []
  {
    var schedules: Result<Supplied<Option<seq<ScheduleSlot>>>, seq<RequestError>> :=
      match raw.schedules
      case Omitted => Ok(Unset)
      case Null => Ok(SetTo(None))
      case Given(raws) =>
        (match ValidateSlots(timeOk, raws, 0)
         case Ok(slots) => Ok(SetTo(Some(slots)))
         case Err(es) => Err(es));
    match schedules
    case Err(es) => Err(es)
    case Ok(s) => Ok(UpdatePresenterRequest(OptionalText(raw.name), OptionalText(raw.voiceId),
                                            OptionalText(raw.modelId), s))
  }

  /** With the strict time check, every slot of an accepted create request is well-formed. */
  lemma CreatedSlotsWellFormed(raw: RawCreate)
    requires ValidateCreate(IsStrictTime, raw).Ok?
    ensures forall s :: s in ValidateCreate(IsStrictTime, raw).value.schedules ==> WellFormedSlot(s)
  {
    var slots := ValidateCreate(IsStrictTime, raw).value.schedules;
    if raw.schedules.Given? {
      var raws := raw.schedules.value;
      forall s | s in slots ensures WellFormedSlot(s) {
        var i :| 0 <= i < |slots| && slots[i] == s;
        assert ValidateSlot(raws[i]) == Ok(s);
      }
    }
  }

  /**
   * With the pattern as written, a create body whose one slot ends at
   * `12:30\n` after starting at `12:30` is accepted; the strict check refuses it.
   */
  lemma CreateAsWrittenAcceptsZeroLengthSlot()
    ensures ValidateCreate(TimeMatches, RawCreate(Given("Rex"), Given("v1"), Given("m1"),
              Given([RawSlot(Some("friday"), Some("12:30"), Some("12:30\n"))]))).Ok?
    ensures ValidateCreate(IsStrictTime, RawCreate(Given("Rex"), Given("v1"), Given("m1"),
              Given([RawSlot(Some("friday"), Some("12:30"), Some("12:30\n"))]))).Err?
  {
    var slot := RawSlot(Some("friday"), Some("12:30"), Some("12:30\n"));
    TrailingNewlineSlotAccepted();
    assert ValidateSlotWith(TimeMatches, [slot][0]).Ok?;
    assert !ValidateSlotWith(IsStrictTime, [slot][0]).Ok?;
  }

  /** An empty name is refused on create but may be set by an update. */
  lemma EmptyNameCreateVersusUpdate(timeOk: string -> bool, raw: RawCreate)
    requires raw.name == Given("")
    ensures ValidateCreate(timeOk, raw).Err? && TooShort("name") in ValidateCreate(timeOk, raw).error
    ensures ValidateUpdate(timeOk, RawUpdate(Given(""), Omitted, Omitted, Omitted)) ==
            Ok(UpdatePresenterRequest(SetTo(Some("")), Unset, Unset, Unset))
  {
  }

  /** Every update field is optional: an empty body is accepted and sets nothing. */
  lemma EmptyUpdateSetsNothing(timeOk: string -> bool)
    ensures ValidateUpdate(timeOk, RawUpdate(Omitted, Omitted, Omitted, Omitted)) ==
            Ok(UpdatePresenterRequest(Unset, Unset, Unset, Unset))
  {
  }

  /** With the strict time check, an accepted update carries only well-formed slots. */
  lemma UpdateSlotsWellFormed(raw: RawUpdate)
    requires ValidateUpdate(IsStrictTime, raw).Ok?
    requires ValidateUpdate(IsStrictTime, raw).value.schedules.SetTo?
    requires ValidateUpdate(IsStrictTime, raw).value.schedules.value.Some?
    ensures forall s :: s in ValidateUpdate(IsStrictTime, raw).value.schedules.value.value ==> WellFormedSlot(s)
  {
    var slots := ValidateUpdate(IsStrictTime, raw).value.schedules.value.value;
    var raws := raw.schedules.value;
    forall s | s in slots ensures WellFormedSlot(s) {
      var i :| 0 <= i < |slots| && slots[i] == s;
      assert ValidateSlot(raws[i]) == Ok(s);
    }
  }
}
