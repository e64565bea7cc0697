/** The dashboard's shared vocabulary: event records, column descriptors,
    the application state and the closed set of actions that change it. */
module Contracts {
  import opened Wrappers

  /** The three lifecycle states an event can be in. */
  datatype EventStatus = Completed | InProgress | NotStarted

  /** The string form the UI displays and filters on. */
  function StatusText(s: EventStatus): string {
    match s
    case Completed => "completed"
    case InProgress => "in-progress"
    case NotStarted => "not-started"
  }

  /** The status strings are pairwise distinct, so the text determines the status. */
  lemma StatusTextInjective(s: EventStatus, t: EventStatus)
    ensures StatusText(s) == StatusText(t) ==> s == t
  {
  }

  /** An event record. `date` is an ISO `yyyy-mm-dd` string by convention only;
      `description` is present on records saved through the form and absent
      (`undefined`) on records from the data source. */
  datatype Event = Event(
    id: string,
    title: string,
    date: string,
    status: EventStatus,
    description: Option<string>)

  /** Which field a column's accessor reads. */
  datatype Accessor = IdOf | TitleOf | DateOf | StatusOf | DescriptionOf

  /** The accessor's value; `None` is JavaScript's `undefined`. */
  function Access(a: Accessor, e: Event): Option<string> {
    match a
    case IdOf => Some(e.id)
    case TitleOf => Some(e.title)
    case DateOf => Some(e.date)
    case StatusOf => Some(StatusText(e.status))
    case DescriptionOf => e.description
  }

  /** A column descriptor (`caption` is the header label); each flag may be left out (`None`). */
  datatype Column = Column(
    key: string,
    caption: string,
    accessor: Accessor,
    sortable: Option<bool>,
    filterable: Option<bool>,
    visible: Option<bool>)

  /** The grid treats an absent flag as `true`: only an explicit `false` switches a feature off. */
  predicate IsVisible(c: Column) { c.visible != Some(false) }
  predicate IsSortable(c: Column) { c.sortable != Some(false) }
  predicate IsFilterable(c: Column) { c.filterable != Some(false) }

  datatype LoadStatus = Loading | Ready | Error

  datatype FormMode = Add | Edit

  /** The application state owned by the reducer. */
  datatype DashboardState = DashboardState(
    events: seq<Event>,
    status: LoadStatus,
    error: Option<string>,
    formOpen: bool,
    formMode: FormMode,
    editingEventId: Option<string>)

  /** The seven actions the reducer understands. */
  datatype Action =
    | LoadStart
    | LoadSuccess(records: seq<Event>)
    | LoadError(message: string)
    | OpenForm(mode: FormMode, eventId: Option<string>)
    | CloseForm
    | AddEvent(added: Event)
    | EditEvent(edited: Event)
}
