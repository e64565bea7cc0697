/** The dashboard reducer: a state machine over load status, the event list
    and the form's open/mode/editing-id fields, driven by seven actions. */
module DashboardReducer {
  import opened Wrappers
  import opened Contracts

  /** No events, loading, no error, form closed in add mode, nothing being edited. */
  const InitialState: DashboardState := DashboardState([], Loading, None, false, Add, None)

  lemma InitialStateSpec()
    ensures InitialState.events == [] && InitialState.status == Loading && InitialState.error == None
    ensures !InitialState.formOpen && InitialState.formMode == Add && InitialState.editingEventId == None
  {
  }

  /** Every event whose id is `edited.id` is replaced by `edited`. */
  function ReplaceById(events: seq<Event>, edited: Event): (r: seq<Event>)
    ensures |r| == |events|
    ensures forall i :: 0 <= i < |events| ==>
              r[i] == if events[i].id == edited.id then edited else events[i]
  {
    if |events| == 0 then []
    else [if events[0].id == edited.id then edited else events[0]] + ReplaceById(events[1..], edited)
  }

  /** The state after one action. */
  function Reduce(state: DashboardState, action: Action): DashboardState {
    match action
    case LoadStart => state.(error := None, status := Loading)
    case LoadSuccess(records) => state.(status := Ready, events := records)
    case LoadError(message) => state.(error := Some(message), status := Error)
    case OpenForm(mode, eventId) => state.(formOpen := true, formMode := mode, editingEventId := eventId)
    case AddEvent(added) => state.(events := state.events + [added], formOpen := false)
    case CloseForm => state.(formOpen := false, formMode := Add, editingEventId := None)
    case EditEvent(edited) => state.(formOpen := false, events := ReplaceById(state.events, edited))
  }

  /** The form fields are unchanged. */
  predicate SameForm(s: DashboardState, t: DashboardState) {
    s.formOpen == t.formOpen && s.formMode == t.formMode && s.editingEventId == t.editingEventId
  }

  /** `LOAD_START`: loading, error cleared; events and form untouched. */
  lemma LoadStartSpec(s: DashboardState)
    ensures var r := Reduce(s, LoadStart);
            r.status == Loading && r.error == None && r.events == s.events && SameForm(r, s)
  {
  }

  /** `LOAD_SUCCESS`: ready with the loaded records; a previous error is NOT cleared. */
  lemma LoadSuccessSpec(s: DashboardState, records: seq<Event>)
    ensures var r := Reduce(s, LoadSuccess(records));
            r.status == Ready && r.events == records && r.error == s.error && SameForm(r, s)
  {
  }

  /** `LOAD_ERROR`: error status with the message; events and form untouched. */
  lemma LoadErrorSpec(s: DashboardState, message: string)
    ensures var r := Reduce(s, LoadError(message));
            r.status == Error && r.error == Some(message) && r.events == s.events && SameForm(r, s)
  {
  }

  /** `OPEN_FORM`: form open in the given mode, editing the given id or none. */
  lemma OpenFormSpec(s: DashboardState, mode: FormMode, eventId: Option<string>)
    ensures var r := Reduce(s, OpenForm(mode, eventId));
            r.formOpen && r.formMode == mode && r.editingEventId == eventId &&
            r.events == s.events && r.status == s.status && r.error == s.error
  {
  }

  /** `ADD_EVENT`: the record is appended after all existing events and the
      form closes; mode and editing id are left as they were. */
  lemma AddEventSpec(s: DashboardState, added: Event)
    ensures var r := Reduce(s, AddEvent(added));
            |r.events| == |s.events| + 1 &&
            r.events[..|s.events|] == s.events && r.events[|s.events|] == added &&
            !r.formOpen && r.formMode == s.formMode && r.editingEventId == s.editingEventId &&
            r.status == s.status && r.error == s.error
  {
    var r := Reduce(s, AddEvent(added));
    assert r.events[..|s.events|] == s.events;
  }

  /** `CLOSE_FORM`: closed, back to add mode, nothing being edited; events untouched. */
  lemma CloseFormSpec(s: DashboardState)
    ensures var r := Reduce(s, CloseForm);
            !r.formOpen && r.formMode == Add && r.editingEventId == None &&
            r.events == s.events && r.status == s.status && r.error == s.error
  {
  }

  /** `EDIT_EVENT`: same length; each event with the edited id becomes the edited
      record, every other event is unchanged, ids are kept position by position;
      no match leaves the list as it was. The form closes with mode and editing id stale. */
  lemma EditEventSpec(s: DashboardState, edited: Event)
    ensures var r := Reduce(s, EditEvent(edited));
            |r.events| == |s.events| &&
            (forall i :: 0 <= i < |s.events| && s.events[i].id == edited.id ==> r.events[i] == edited) &&
            (forall i :: 0 <= i < |s.events| && s.events[i].id != edited.id ==> r.events[i] == s.events[i]) &&
            (forall i :: 0 <= i < |s.events| ==> r.events[i].id == s.events[i].id) &&
            ((forall i :: 0 <= i < |s.events| ==> s.events[i].id != edited.id) ==> r.events == s.events) &&
            !r.formOpen && r.formMode == s.formMode && r.editingEventId == s.editingEventId &&
            r.status == s.status && r.error == s.error
  {
  }

  /** Applying the same edit twice is the same as applying it once. */
  lemma EditEventIdempotent(s: DashboardState, edited: Event)
    ensures Reduce(Reduce(s, EditEvent(edited)), EditEvent(edited)) == Reduce(s, EditEvent(edited))
  {
    var once := ReplaceById(s.events, edited);
    assert ReplaceById(once, edited) == once;
  }

  /** A reducer run over a sequence of actions. */
  function ReduceAll(s: DashboardState, actions: seq<Action>): DashboardState
    decreases |actions|
  {
    if |actions| == 0 then s else ReduceAll(Reduce(s, actions[0]), actions[1..])
  }

  /** Only loads replace events wholesale: under every other action the list
      never shrinks and each position keeps its id. */
  lemma {:induction false} EventsOnlyGrowWithoutLoads(s: DashboardState, actions: seq<Action>)
    requires forall i :: 0 <= i < |actions| ==> !actions[i].LoadSuccess?
    ensures |ReduceAll(s, actions).events| >= |s.events|
    ensures forall i :: 0 <= i < |s.events| ==> ReduceAll(s, actions).events[i].id == s.events[i].id
    decreases |actions|
  {
    if |actions| > 0 {
      var t := Reduce(s, actions[0]);
      EventsOnlyGrowWithoutLoads(t, actions[1..]);
      if actions[0].AddEvent? {
        AddEventSpec(s, actions[0].added);
      }
    }
  }

  /** The actions as the dashboard dispatches them: add mode never carries an id,
      edit mode always does. */
  predicate DispatchedByDashboard(a: Action) {
    a.OpenForm? ==> (a.mode == Add <==> a.eventId.None?)
  }

  /** An editing id is present only in edit mode. */
  predicate ModeConsistent(s: DashboardState) {
    s.editingEventId.Some? ==> s.formMode == Edit
  }

  /** Every action the dashboard dispatches keeps mode and editing id consistent,
      including the commits that leave both stale behind a closed form. */
  lemma ModeConsistentPreserved(s: DashboardState, a: Action)
    requires ModeConsistent(s) && DispatchedByDashboard(a)
    ensures ModeConsistent(Reduce(s, a))
  {
  }

  /** A commit closes the form but keeps the editing id: an id can be set while the form is closed. */
  lemma EditCommitLeavesIdBehindClosedForm(s: DashboardState, edited: Event)
    requires s.formOpen && s.formMode == Edit && s.editingEventId.Some?
    ensures var r := Reduce(s, EditEvent(edited));
            !r.formOpen && r.formMode == Edit && r.editingEventId == s.editingEventId
  {
  }
}
