/** The dashboard glue: the four grid columns, the load sequence, the handlers
    that turn grid, timeline and form callbacks into reducer actions, the record
    the form is opened with, and which sections the state shows. */
module Dashboard {
  import opened Wrappers
  import opened Seqs
  import opened Text
  import opened Contracts
  import DashboardReducer
  import DataGrid
  import Timeline
  import EventForm

  // ---------------------------------------------------------------------------
  // Columns
  // ---------------------------------------------------------------------------

  /** ID, Title, Date and Status: all sortable and visible; Date is not filterable. */
  const Columns: seq<Column> := [
    Column("id", "ID", IdOf, Some(true), Some(true), Some(true)),
    Column("title", "Title", TitleOf, Some(true), Some(true), Some(true)),
    Column("date", "Date", DateOf, Some(true), Some(false), Some(true)),
    Column("status", "Status", StatusOf, Some(true), Some(true), Some(true))
  ]

  lemma ColumnsSpec()
    ensures |Columns| == 4 && DataGrid.VisibleColumns(Columns) == Columns
    ensures forall i :: 0 <= i < |Columns| ==> IsSortable(Columns[i]) && IsVisible(Columns[i])
    ensures forall i :: 0 <= i < |Columns| ==> (IsFilterable(Columns[i]) <==> Columns[i].key != "date")
    ensures forall i, j :: 0 <= i < j < |Columns| ==> Columns[i].key != Columns[j].key
  {
    forall c | c in Columns
      ensures c in DataGrid.VisibleColumns(Columns)
    {
      DataGrid.VisibleColumnsSpec(Columns, c);
    }
    assert DataGrid.VisibleColumns(Columns) == Columns;
  }

  /** A filter text `key` admits `value`: empty, or found case-insensitively. */
  predicate TextAdmits(filters: map<string, string>, key: string, value: string) {
    var t := DataGrid.FilterText(filters, key);
    t == "" || Contains(Lower(value), Lower(t))
  }

  /** The three filterable columns' tests, one per column. */
  predicate AdmittedByColumns(filters: map<string, string>, e: Event) {
    TextAdmits(filters, "id", e.id) && TextAdmits(filters, "title", e.title) &&
    TextAdmits(filters, "status", StatusText(e.status))
  }

  /** On the dashboard's grid a row passes exactly when its id, title and status
      text each contain their filter text, ignoring ASCII case; the date filter
      never applies. */
  lemma DashboardFilter(data: seq<Event>, filters: map<string, string>, e: Event)
    ensures e in DataGrid.FilterRows(data, Columns, filters) <==> e in data && AdmittedByColumns(filters, e)
  {
    DataGrid.FilterRowsIff(data, Columns, filters, e);
    if DataGrid.PassesActiveFilters(Columns, filters, e) {
      PassesImpliesAdmitted(filters, e);
    }
    if AdmittedByColumns(filters, e) {
      AdmittedImpliesPasses(filters, e);
    }
  }

  lemma PassesImpliesAdmitted(filters: map<string, string>, e: Event)
    requires DataGrid.PassesActiveFilters(Columns, filters, e)
    ensures AdmittedByColumns(filters, e)
  {
    assert Columns[0] in Columns && Columns[1] in Columns && Columns[3] in Columns;
  }

  lemma AdmittedImpliesPasses(filters: map<string, string>, e: Event)
    requires AdmittedByColumns(filters, e)
    ensures DataGrid.PassesActiveFilters(Columns, filters, e)
  {
    forall c | c in Columns && DataGrid.ActiveFilter(c, filters)
      ensures Contains(Lower(DataGrid.DisplayString(Access(c.accessor, e))), Lower(DataGrid.FilterText(filters, c.key)))
    {
      assert c == Columns[0] || c == Columns[1] || c == Columns[2] || c == Columns[3];
    }
  }

  /** Whatever is typed for the date key, the filtered rows are the same. */
  lemma DateFilterIgnored(data: seq<Event>, filters: map<string, string>, text: string)
    ensures DataGrid.FilterRows(data, Columns, filters["date" := text]) == DataGrid.FilterRows(data, Columns, filters)
  {
    DataGrid.FilterRowsOnlyActiveKeysMatter(data, Columns, filters["date" := text], filters);
  }

  // ---------------------------------------------------------------------------
  // Loading
  // ---------------------------------------------------------------------------

  /** The actions dispatched on mount: `LOAD_START`, then success with the
      fetched records or failure with the rejection message. */
  function LoadActions(outcome: Result<seq<Event>, string>): (r: seq<Action>) {
    match outcome
    case Success(records) => [LoadStart, LoadSuccess(records)]
    case Failure(message) => [LoadStart, LoadError(message)]
  }

  /** After the load sequence the error from any earlier run is gone on success
      and replaced on failure; a success installs the records, a failure keeps
      the old events; the form is untouched either way. */
  lemma LoadSpec(s: DashboardState, outcome: Result<seq<Event>, string>)
    ensures var r := DashboardReducer.ReduceAll(s, LoadActions(outcome));
            DashboardReducer.SameForm(r, s) &&
            (outcome.Success? ==> r.status == Ready && r.events == outcome.value && r.error == None) &&
            (outcome.Failure? ==> r.status == Error && r.events == s.events && r.error == Some(outcome.error))
  {
    var acts := LoadActions(outcome);
    var started := DashboardReducer.Reduce(s, LoadStart);
    var finished := DashboardReducer.Reduce(started, acts[1]);
    assert acts[1..] == [acts[1]] && acts[1..][1..] == [];
    assert DashboardReducer.ReduceAll(finished, []) == finished;
    assert DashboardReducer.ReduceAll(started, [acts[1]]) == finished;
    assert DashboardReducer.ReduceAll(s, acts) == finished;
  }

  // ---------------------------------------------------------------------------
  // Handlers
  // ---------------------------------------------------------------------------

  /** The "Add New Event" button. */
  function HandleAddEvent(): Action { OpenForm(Add, None) }

  /** An edit request from a grid row or a timeline entry. */
  function HandleEditEvent(e: Event): Action { OpenForm(Edit, Some(e.id)) }

  /** The form's save callback: append in add mode, replace by id otherwise. */
  function HandleFormSave(s: DashboardState, e: Event): Action {
    if s.formMode == Add then AddEvent(e) else EditEvent(e)
  }

  function HandleFormCancel(): Action { CloseForm }

  /** Every handler dispatches an action that keeps mode and editing id consistent. */
  lemma HandlersKeepModeConsistent(s: DashboardState, e: Event)
    requires DashboardReducer.ModeConsistent(s)
    ensures DashboardReducer.ModeConsistent(DashboardReducer.Reduce(s, HandleAddEvent()))
    ensures DashboardReducer.ModeConsistent(DashboardReducer.Reduce(s, HandleEditEvent(e)))
    ensures DashboardReducer.ModeConsistent(DashboardReducer.Reduce(s, HandleFormSave(s, e)))
    ensures DashboardReducer.ModeConsistent(DashboardReducer.Reduce(s, HandleFormCancel()))
  {
    DashboardReducer.ModeConsistentPreserved(s, HandleAddEvent());
    DashboardReducer.ModeConsistentPreserved(s, HandleEditEvent(e));
    DashboardReducer.ModeConsistentPreserved(s, HandleFormSave(s, e));
    DashboardReducer.ModeConsistentPreserved(s, HandleFormCancel());
  }

  // ---------------------------------------------------------------------------
  // The record the form opens with
  // ---------------------------------------------------------------------------

  /** `find`: the first event with the id. */
  function FindById(events: seq<Event>, id: string): (r: Option<Event>)
    ensures r.Some? ==> r.value in events && r.value.id == id
    ensures r.None? ==> forall i :: 0 <= i < |events| ==> events[i].id != id
  {
    if |events| == 0 then None
    else if events[0].id == id then Some(events[0])
    else FindById(events[1..], id)
  }

  /** It is the FIRST match: the event at index k when no earlier event has the id. */
  lemma {:induction false} FindByIdFirst(events: seq<Event>, id: string, k: nat)
    requires k < |events| && events[k].id == id
    requires forall j :: 0 <= j < k ==> events[j].id != id
    ensures FindById(events, id) == Some(events[k])
    decreases k
  {
    if k > 0 {
      FindByIdFirst(events[1..], id, k - 1);
    }
  }

  /** In edit mode with a non-empty editing id, the first event with that id. */
  function InitialDataForForm(s: DashboardState): Option<Event> {
    if s.formMode == Edit && s.editingEventId.Some? && s.editingEventId.value != ""
    then FindById(s.events, s.editingEventId.value)
    else None
  }

  /** An edit request opens the form on the first event with the requested id;
      an add request opens it blank. */
  lemma OpenedFormData(s: DashboardState, e: Event, k: nat)
    requires k < |s.events| && s.events[k] == e && e.id != ""
    requires forall j :: 0 <= j < k ==> s.events[j].id != e.id
    ensures InitialDataForForm(DashboardReducer.Reduce(s, HandleEditEvent(e))) == Some(e)
    ensures InitialDataForForm(DashboardReducer.Reduce(s, HandleAddEvent())) == None
  {
    FindByIdFirst(s.events, e.id, k);
  }

  /** The dashboard after the open form is submitted with `form`: the form's
      decision, then the save callback's action when it saved a record. */
  function SubmitForm(s: DashboardState, form: EventForm.FormState, freshId: string): DashboardState {
    var sub := EventForm.HandleSubmit(form, InitialDataForForm(s), freshId);
    match sub.saved
    case None => s
    case Some(e) => DashboardReducer.Reduce(s, HandleFormSave(s, e))
  }

  /** The record saved from a valid draft with the given id. */
  function Saved(id: string, d: EventForm.FormData): Event {
    Event(id, d.title, d.date, d.status, Some(d.description))
  }

  /** Adding: a valid draft is appended under the fresh id and the form closes;
      an invalid one changes nothing. */
  lemma AddFlow(s: DashboardState, form: EventForm.FormState, freshId: string)
    ensures var r := SubmitForm(DashboardReducer.Reduce(s, HandleAddEvent()), form, freshId);
            (EventForm.ValidateForm(form).1 ==>
               r.events == s.events + [Saved(freshId, form.data)] && !r.formOpen) &&
            (!EventForm.ValidateForm(form).1 ==> r == DashboardReducer.Reduce(s, HandleAddEvent()))
  {
    var o := DashboardReducer.Reduce(s, HandleAddEvent());
    EventForm.HandleSubmitSpec(form, None, freshId);
    EventForm.ValidateFormSpec(form);
  }

  /** Editing: a valid draft replaces every event sharing the edited id, keeps
      that id, leaves the rest alone and closes the form. */
  lemma EditFlow(s: DashboardState, k: nat, form: EventForm.FormState, freshId: string)
    requires k < |s.events| && s.events[k].id != ""
    requires forall j :: 0 <= j < k ==> s.events[j].id != s.events[k].id
    requires EventForm.ValidateForm(form).1
    ensures var e := s.events[k];
            var r := SubmitForm(DashboardReducer.Reduce(s, HandleEditEvent(e)), form, freshId);
            |r.events| == |s.events| && !r.formOpen &&
            (forall i :: 0 <= i < |s.events| && s.events[i].id == e.id ==> r.events[i] == Saved(e.id, form.data)) &&
            (forall i :: 0 <= i < |s.events| && s.events[i].id != e.id ==> r.events[i] == s.events[i])
  {
    var e := s.events[k];
    var o := DashboardReducer.Reduce(s, HandleEditEvent(e));
    OpenedFormData(s, e, k);
    EventForm.HandleSubmitSpec(form, Some(e), freshId);
    EventForm.ValidateFormSpec(form);
    var saved := Saved(e.id, form.data);
    DashboardReducer.EditEventSpec(o, saved);
  }

  /** An edit whose record is no longer in the list opens a blank form, and its
      save is dispatched as a replace under a fresh id that matches nothing: the
      list is left unchanged and the form closes. */
  lemma EditOfMissingRecordIsDropped(s: DashboardState, form: EventForm.FormState, freshId: string)
    requires s.formMode == Edit && s.editingEventId.Some?
    requires forall i :: 0 <= i < |s.events| ==> s.events[i].id != s.editingEventId.value && s.events[i].id != freshId
    ensures InitialDataForForm(s) == None
    ensures var r := SubmitForm(s, form, freshId);
            r.events == s.events && (EventForm.ValidateForm(form).1 ==> !r.formOpen)
  {
    EventForm.HandleSubmitSpec(form, None, freshId);
    EventForm.ValidateFormSpec(form);
    var sub := EventForm.HandleSubmit(form, None, freshId);
    if sub.saved.Some? {
      DashboardReducer.EditEventSpec(s, sub.saved.value);
    }
  }

  // ---------------------------------------------------------------------------
  // What the state shows
  // ---------------------------------------------------------------------------

  /** The grid section's content. An error without a message renders as empty text. */
  datatype GridSection = LoadingNote | ErrorNote(message: string) | GridShown(rows: seq<Event>)

  function GridSectionOf(s: DashboardState): GridSection {
    match s.status
    case Loading => LoadingNote
    case Error => ErrorNote(s.error.GetOr(""))
    case Ready => GridShown(s.events)
  }

  /** The timeline is mounted (with all events) only once the data is ready. */
  function TimelineSectionOf(s: DashboardState): Option<seq<Timeline.Group>> {
    if s.status == Ready then Some(Timeline.TimelineOf(s.events)) else None
  }

  /** Grid and timeline appear together, exactly when the status is ready, and
      both are fed the full event list; a failed load shows its message. */
  lemma SectionsAgree(s: DashboardState)
    ensures GridSectionOf(s).GridShown? <==> TimelineSectionOf(s).Some?
    ensures GridSectionOf(s).GridShown? ==>
              GridSectionOf(s).rows == s.events &&
              multiset(FlatMap(TimelineSectionOf(s).value, Timeline.EventsOf)) == multiset(s.events)
    ensures s.status == Error && s.error.Some? ==> GridSectionOf(s) == ErrorNote(s.error.value)
  {
    Timeline.TimelineIsPermutation(s.events);
  }

  /** After a successful add, the timeline holds the added record once more and
      nothing else changes in its contents. */
  lemma AddedEventReachesTimeline(s: DashboardState, added: Event)
    requires s.status == Ready
    ensures var r := DashboardReducer.Reduce(s, AddEvent(added));
            TimelineSectionOf(r).Some? &&
            multiset(FlatMap(TimelineSectionOf(r).value, Timeline.EventsOf)) ==
            multiset(FlatMap(TimelineSectionOf(s).value, Timeline.EventsOf)) + multiset{added}
  {
    var r := DashboardReducer.Reduce(s, AddEvent(added));
    assert r.events == s.events + [added] && r.status == Ready;
    assert TimelineSectionOf(r) == Some(Timeline.TimelineOf(s.events + [added]));
    assert TimelineSectionOf(s) == Some(Timeline.TimelineOf(s.events));
    TimelineGains(s.events, added);
  }

  lemma TimelineGains(before: seq<Event>, added: Event)
    ensures multiset(FlatMap(Timeline.TimelineOf(before + [added]), Timeline.EventsOf)) ==
            multiset(FlatMap(Timeline.TimelineOf(before), Timeline.EventsOf)) + multiset{added}
  {
    var after := before + [added];
    assert multiset(after) == multiset(before) + multiset{added};
    Timeline.TimelineIsPermutation(before);
    Timeline.TimelineIsPermutation(after);
  }

  /** The add button shows exactly when the form is closed. */
  predicate ShowsAddButton(s: DashboardState) { !s.formOpen }

  /** Opening the form hides the add button; every commit or cancel brings it back. */
  lemma AddButtonToggles(s: DashboardState, e: Event)
    ensures !ShowsAddButton(DashboardReducer.Reduce(s, HandleAddEvent()))
    ensures !ShowsAddButton(DashboardReducer.Reduce(s, HandleEditEvent(e)))
    ensures ShowsAddButton(DashboardReducer.Reduce(s, HandleFormSave(s, e)))
    ensures ShowsAddButton(DashboardReducer.Reduce(s, HandleFormCancel()))
  {
  }
}
