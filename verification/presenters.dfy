/**
 * The stored `Presenter` and the partial merge of `update_presenter`: each
 * field the update sets explicitly is assigned on the object, one after the
 * other, and every other field keeps its value.
 */
module Presenters {
  import opened Wrappers
  import opened Schedule
  import opened PresenterRequests

  /**
   * The value of a presenter's fields. They are optional because an update
   * that sets a field to `null` stores `None` in it.
   */
  datatype PresenterData = PresenterData(
    name: Option<string>, voiceId: Option<string>, modelId: Option<string>,
    schedules: Option<seq<ScheduleSlot>>)

  /** One entry of the dumped update: a field name and the value to store in it. */
  datatype Assignment =
    | SetName(name: Option<string>)
    | SetVoiceId(voiceId: Option<string>)
    | SetModelId(modelId: Option<string>)
    | SetSchedules(schedules: Option<seq<ScheduleSlot>>)

  /** The effect of one attribute assignment. */
  function Assign(p: PresenterData, a: Assignment): PresenterData {
    match a
    case SetName(v) => p.(name := v)
    case SetVoiceId(v) => p.(voiceId := v)
    case SetModelId(v) => p.(modelId := v)
    case SetSchedules(v) => p.(schedules := v)
  }

  /**
   * The effect of a list of assignments performed in order: a field no
   * assignment names keeps its value, and the last assignment is the one
   * that shows.
   */
  function ApplyAll(p: PresenterData, updates: seq<Assignment>): (r: PresenterData)
    ensures (forall a :: a in updates ==> !a.SetName?) ==> r.name == p.name
    ensures (forall a :: a in updates ==> !a.SetVoiceId?) ==> r.voiceId == p.voiceId
    ensures (forall a :: a in updates ==> !a.SetModelId?) ==> r.modelId == p.modelId
    ensures (forall a :: a in updates ==> !a.SetSchedules?) ==> r.schedules == p.schedules
    ensures updates != [] ==> Assign(r, updates[|updates| - 1]) == r
    decreases |updates|
  {
    if updates == [] then p
    else
      var init := updates[..|updates| - 1];
      assert forall a :: a in init ==> a in updates;
      Assign(ApplyAll(p, init), updates[|updates| - 1])
  }

  /**
   * The fields of an update request that were set explicitly, in declaration
   * order, with their values (fields left unset are excluded).
   */
  function Dump(req: UpdatePresenterRequest): (d: seq<Assignment>)
    // every explicitly set field has its entry, carrying the supplied value
    ensures req.name.SetTo? ==> SetName(req.name.value) in d
    ensures req.voiceId.SetTo? ==> SetVoiceId(req.voiceId.value) in d
    ensures req.modelId.SetTo? ==> SetModelId(req.modelId.value) in d
    ensures req.schedules.SetTo? ==> SetSchedules(req.schedules.value) in d
    // and every entry is for a field that was set, with that value
    ensures forall a :: a in d ==>
      && (a.SetName? ==> req.name == SetTo(a.name))
      && (a.SetVoiceId? ==> req.voiceId == SetTo(a.voiceId))
      && (a.SetModelId? ==> req.modelId == SetTo(a.modelId))
      && (a.SetSchedules? ==> req.schedules == SetTo(a.schedules))
    // in declaration order, so at most one entry per field
    ensures forall i, j :: 0 <= i < j < |d| ==> FieldPosition(d[i]) < FieldPosition(d[j])
  {
    (if req.name.SetTo? then [SetName(req.name.value)] else []) +
    (if req.voiceId.SetTo? then [SetVoiceId(req.voiceId.value)] else []) +
    (if req.modelId.SetTo? then [SetModelId(req.modelId.value)] else []) +
    (if req.schedules.SetTo? then [SetSchedules(req.schedules.value)] else [])
  }

  /** The position of an assignment's field in the request's declaration. */
  function FieldPosition(a: Assignment): nat {
    match a
    case SetName(_) => 0
    case SetVoiceId(_) => 1
    case SetModelId(_) => 2
    case SetSchedules(_) => 3
  }

  /** The supplied value, or the current one when the field was not set. */
  function Override<T>(current: T, s: Supplied<T>): T {
    if s.SetTo? then s.value else current
  }

  lemma {:induction false} ApplyAllAppend(p: PresenterData, us: seq<Assignment>, vs: seq<Assignment>)
    ensures ApplyAll(p, us + vs) == ApplyAll(ApplyAll(p, us), vs)
    decreases |vs|
  {
    if vs == [] {
      assert us + vs == us;
    } else {
      var init := vs[..|vs| - 1];
      assert (us + vs)[..|us + vs| - 1] == us + init;
      ApplyAllAppend(p, us, init);
    }
  }

  lemma ApplyOne(p: PresenterData, a: Assignment)
    ensures ApplyAll(p, [a]) == Assign(p, a)
  {
    assert [a][..0] == [];
  }

  /**
   * The merge sets exactly the fields the request set explicitly, to the
   * supplied values (a `null` included), and leaves every other field as it was.
   * A supplied schedule list replaces the whole list.
   */
  lemma UpdateChangesExactlySetFields(p: PresenterData, req: UpdatePresenterRequest)
    ensures ApplyAll(p, Dump(req)) == PresenterData(
      Override(p.name, req.name), Override(p.voiceId, req.voiceId),
      Override(p.modelId, req.modelId), Override(p.schedules, req.schedules))
  {
    var d1 := if req.name.SetTo? then [SetName(req.name.value)] else [];
    var d2 := if req.voiceId.SetTo? then [SetVoiceId(req.voiceId.value)] else [];
    var d3 := if req.modelId.SetTo? then [SetModelId(req.modelId.value)] else [];
    var d4 := if req.schedules.SetTo? then [SetSchedules(req.schedules.value)] else [];
    ApplyAllAppend(p, d1 + d2 + d3, d4);
    ApplyAllAppend(p, d1 + d2, d3);
    ApplyAllAppend(p, d1, d2);
    if req.name.SetTo? { ApplyOne(p, d1[0]); }
    var p1 := ApplyAll(p, d1);
    if req.voiceId.SetTo? { ApplyOne(p1, d2[0]); }
    var p2 := ApplyAll(p1, d2);
    if req.modelId.SetTo? { ApplyOne(p2, d3[0]); }
    var p3 := ApplyAll(p2, d3);
    if req.schedules.SetTo? { ApplyOne(p3, d4[0]); }
  }

  /** Applying the same update twice leaves the presenter as applying it once. */
  lemma UpdateIdempotent(p: PresenterData, req: UpdatePresenterRequest)
    ensures ApplyAll(ApplyAll(p, Dump(req)), Dump(req)) == ApplyAll(p, Dump(req))
  {
    UpdateChangesExactlySetFields(p, req);
    UpdateChangesExactlySetFields(ApplyAll(p, Dump(req)), req);
  }

  class Presenter {
    var name: Option<string>
    var voiceId: Option<string>
    var modelId: Option<string>
    var schedules: Option<seq<ScheduleSlot>>

    function Data(): PresenterData
      reads this
    {
      PresenterData(name, voiceId, modelId, schedules)
    }

    /** A new presenter; a schedule list that is not given defaults to the empty list. */
    constructor (name: string, voiceId: string, modelId: string, schedules: Option<seq<ScheduleSlot>>)
      ensures Data() == PresenterData(Some(name), Some(voiceId), Some(modelId), Some(schedules.GetOr([])))
    {
      this.name := Some(name);
      this.voiceId := Some(voiceId);
      this.modelId := Some(modelId);
      this.schedules := Some(schedules.GetOr([]));
    }

    /** Assigns each entry of `updates` to its attribute, in order. */
    method Update(updates: seq<Assignment>)
      modifies this
      ensures Data() == ApplyAll(old(Data()), updates)
    {
      for i := 0 to |updates|
        invariant Data() == ApplyAll(old(Data()), updates[..i])
      {
        assert updates[..i + 1][..i] == updates[..i];
        match updates[i]
        case SetName(v) => name := v;
        case SetVoiceId(v) => voiceId := v;
        case SetModelId(v) => modelId := v;
        case SetSchedules(v) => schedules := v;
      }
      assert updates[..|updates|] == updates;
    }
  }

  /** The presenter built from a validated create request. */
  method CreatePresenter(req: CreatePresenterRequest) returns (p: Presenter)
    ensures fresh(p)
    ensures p.Data() == PresenterData(Some(req.name), Some(req.voiceId), Some(req.modelId), Some(req.schedules))
  {
    p := new Presenter(req.name, req.voiceId, req.modelId, Some(req.schedules));
  }

  /** The merge step of `update_presenter` on a presenter that was found. */
  method UpdatePresenter(p: Presenter, req: UpdatePresenterRequest)
    modifies p
    ensures p.Data() == PresenterData(
      Override(old(p.name), req.name), Override(old(p.voiceId), req.voiceId),
      Override(old(p.modelId), req.modelId), Override(old(p.schedules), req.schedules))
  {
    UpdateChangesExactlySetFields(p.Data(), req);
    p.Update(Dump(req));
  }
}
