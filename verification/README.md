# Event dashboard — a Dafny model

This project models the logic of a small React event manager. The app keeps a
list of events. Each event has an id, a title, an ISO date and a status
(`completed`, `in-progress` or `not-started`). The app shows the events two ways:

- a data grid with column visibility, case-insensitive substring filters, a
  nulls-last column sort and ten-row pages;
- a timeline that buckets events by date, orders the buckets by date and the
  events in each bucket by title.

A reducer owns the application state: load status, error, events and the form's
open/mode/editing-id fields. A form validates a draft and saves it as a new or
edited event. The dashboard component glues these pieces together.

Everything is modelled as pure functions over immutable datatypes:

| file | module | models |
|---|---|---|
| `wrappers.dfy` | `Wrappers` | `Option` (for `undefined`/`null`) and `Result` |
| `seqs.dfy` | `Seqs` | `Array.prototype.filter`; a flattening of buckets (`FlatMap`) used only to state what a grouping contains; and the stable `Array.prototype.sort` as an insertion sort |
| `text.dfy` | `Text` | `toLowerCase`, `includes`, `trim`, and a string order standing in for `localeCompare` |
| `contracts.dfy` | `Contracts` | event, column, state and action types |
| `data_grid.dfy` | `DataGrid` | the grid's projection and its view state |
| `timeline.dfy` | `Timeline` | grouping by date and the two sorts |
| `dashboard_reducer.dfy` | `DashboardReducer` | the reducer |
| `event_form.dfy` | `EventForm` | the draft, validation, submit and per-field error clearing |
| `dashboard.dfy` | `Dashboard` | the column set, load sequence, handlers, the record the form opens with, and which sections show |

Some things that are opaque in the code become explicit here:

- A column accessor is a selector (`Accessor`) over an event's fields. `None` stands for JavaScript's `undefined`, which `String()` shows as `"undefined"`.
- `crypto.randomUUID()` becomes a `freshId` parameter.
- The outcome of the asynchronous fetch becomes a `Result` parameter.
- `trim` removes the ECMAScript white-space and line-terminator code points (`Text.IsWhitespace`).

## Model

| member | source | states |
|---|---|---|
| Contracts.StatusTextInjective | src/contracts/index.ts:1 | the three status strings are distinct, so a status text determines the status |
| Seqs.FilterCount | src/components/DataGrid/DataGrid.tsx:20-33 | `filter` keeps every element the predicate accepts as often as it occurs and drops the others |
| Seqs.FilterMembership | src/components/DataGrid/DataGrid.tsx:20-33 | an element is in the filtered array iff it is in the input and the predicate accepts it |
| Seqs.FilterIsSubsequence | src/components/DataGrid/DataGrid.tsx:20 | `filter` keeps the input order |
| Seqs.InsertSorted | src/components/DataGrid/DataGrid.tsx:36 | inserting into a sorted array at the first element not before the new one keeps it sorted |
| Seqs.SortBySorted | src/components/DataGrid/DataGrid.tsx:36-55 | for a comparator that is a total preorder, the sorted array is ordered pairwise |
| Seqs.SortByAllEqual | src/components/DataGrid/DataGrid.tsx:37 | a comparator that always returns 0 leaves the array as it was |
| Seqs.SortByStable | src/components/DataGrid/DataGrid.tsx:36 | `sort` is stable: elements the comparator ranks equal keep their relative order |
| Seqs.SortByDistinct | src/components/Timeline/Timeline.tsx:32 | sorting keeps a set of distinct keys distinct |
| Seqs.SortByFlatMap | src/components/Timeline/Timeline.tsx:32 | sorting buckets keeps the multiset of their concatenated contents |
| Text.LowerFacts | src/components/DataGrid/DataGrid.tsx:30-31 | lower-casing keeps the length, changes only upper-case letters, leaves none behind and is idempotent |
| Text.ContainsIff | src/components/DataGrid/DataGrid.tsx:31 | `includes` holds iff the needle occurs at some index of the haystack |
| Text.ContainsEmpty | src/components/DataGrid/DataGrid.tsx:31 | every string includes the empty string |
| Text.TrimStartShape | src/components/EventForm/EventForm.tsx:32 | trimming the start drops only a whitespace prefix and stops at non-whitespace |
| Text.TrimEndShape | src/components/EventForm/EventForm.tsx:32 | trimming the end drops only a whitespace suffix and stops at non-whitespace |
| Text.TrimShape | src/components/EventForm/EventForm.tsx:32 | `trim` yields the slice between a whitespace prefix and a whitespace suffix |
| Text.TrimEmptyIff | src/components/EventForm/EventForm.tsx:32 | a trimmed string is empty iff every character is whitespace |
| Text.CompareZeroIff | src/components/Timeline/Timeline.tsx:29 | the string order ties exactly on equal strings |
| Text.CompareFlip | src/components/Timeline/Timeline.tsx:32 | swapping arguments negates the string order |
| Text.CompareTransitive | src/components/DataGrid/DataGrid.tsx:48 | the string order is transitive |
| DataGrid.VisibleColumnsSpec | src/components/DataGrid/DataGrid.tsx:12 | the visible columns are exactly the given columns not marked `visible: false`, in their given order |
| DataGrid.RowMatchesIff | src/components/DataGrid/DataGrid.tsx:20-33 | a row passes iff every visible, filterable column with a non-empty filter text finds that text, lower-cased, in its lower-cased value |
| DataGrid.FilterRowsIff | src/components/DataGrid/DataGrid.tsx:20-33 | a row is in the filtered data iff it is an input row that passes every filter in force, and as often as it occurs in the input |
| DataGrid.FilterRowsSubsequence | src/components/DataGrid/DataGrid.tsx:20 | filtered rows keep the data order |
| DataGrid.FilterRowsOnlyActiveKeysMatter | src/components/DataGrid/DataGrid.tsx:21-27 | filter texts for hidden or non-filterable columns, or for unknown keys, change nothing |
| DataGrid.ActiveColumn | src/components/DataGrid/DataGrid.tsx:16 | the active column is absent iff no visible column has the sort key, else it is the first that has it |
| DataGrid.NullsLast | src/components/DataGrid/DataGrid.tsx:42-44 | absent values sort after present ones in both directions and tie with each other |
| DataGrid.DescendingNegatesAscending | src/components/DataGrid/DataGrid.tsx:46-54 | for present values, descending is the negation of ascending, which is the string order |
| DataGrid.CompareValuesFlip | src/components/DataGrid/DataGrid.tsx:42-54 | the cell comparator is antisymmetric in sign |
| DataGrid.CompareValuesTransitive | src/components/DataGrid/DataGrid.tsx:42-54 | the cell comparator is transitive in both directions |
| DataGrid.RowOrderIsTotalPreorder | src/components/DataGrid/DataGrid.tsx:36-55 | the row comparator is a consistent total preorder |
| DataGrid.SortRowsSpec | src/components/DataGrid/DataGrid.tsx:36-55 | the sorted rows are a permutation of the filtered rows. With no active column the order is kept. Otherwise absent values come last and present ones are ascending or descending by string |
| DataGrid.SortRowsStable | src/components/DataGrid/DataGrid.tsx:36 | rows with equal sort values keep their filtered order |
| DataGrid.TotalPagesIsCeiling | src/components/DataGrid/DataGrid.tsx:34 | the page count is the least count of 10-row pages that holds every filtered row, and 0 for none |
| DataGrid.ClampIndex | src/components/DataGrid/DataGrid.tsx:57 | a `slice` bound always lands inside the array |
| DataGrid.PageRowsWindow | src/components/DataGrid/DataGrid.tsx:57 | from page 1 on, a page is rows `(p-1)*10` to `p*10` cut at the end. It has at most 10 rows, is non-empty up to the last page and empty after it |
| DataGrid.ConcatPagesPrefix | src/components/DataGrid/DataGrid.tsx:57 | pages 1 to k together are the first `10k` sorted rows |
| DataGrid.PagesReassemble | src/components/DataGrid/DataGrid.tsx:34-57 | reading every page in turn shows each sorted row once, in order |
| DataGrid.HandleSortSpec | src/components/DataGrid/DataGrid.tsx:68-76 | the current key flips direction and keeps the page, another key sorts ascending from page 1, filters are untouched, and a double flip restores the view |
| DataGrid.HandleFilterChangeSpec | src/components/DataGrid/DataGrid.tsx:78-80 | a filter change sets that key's text and nothing else |
| DataGrid.StepKeepsPagePositive | src/components/DataGrid/DataGrid.tsx:143-145 | with Previous disabled on page 1, no user input takes the page below 1 |
| DataGrid.NextEnabledWhenNothingMatches | src/components/DataGrid/DataGrid.tsx:143 | with no matching rows the page count is 0, so Next stays enabled and moves to page 2 |
| DataGrid.ProjectRowsPass | src/components/DataGrid/DataGrid.tsx:57 | every row on the current page is an input row that passes the filters in force |
| DataGrid.ProjectEmptyIff | src/components/DataGrid/DataGrid.tsx:133 | the empty view appears iff no input row passes, which is iff there are 0 pages |
| DataGrid.ProjectSpec | src/components/DataGrid/DataGrid.tsx:133 | every row shown is an input row that passes the filters, a page shows at most 10 rows, and the empty view appears iff no row passes, which is iff there are 0 pages |
| Timeline.AddToGroupsNew | src/components/Timeline/Timeline.tsx:19-20 | a date with no bucket yet opens a new bucket at the end |
| Timeline.AddToGroupsExisting | src/components/Timeline/Timeline.tsx:16-17 | a date with a bucket appends the event to that bucket and changes nothing else |
| Timeline.AddToGroupsFlatMap | src/components/Timeline/Timeline.tsx:15-22 | adding an event adds exactly that event to the buckets' contents |
| Timeline.AddToGroupsDistinct | src/components/Timeline/Timeline.tsx:16-21 | bucket dates stay distinct |
| Timeline.AddToExistingBucket | src/components/Timeline/Timeline.tsx:16-17 | appending to an existing bucket keeps every bucket equal to the events of its date, in input order |
| Timeline.AddToExistingCovers | src/components/Timeline/Timeline.tsx:16-17 | appending to an existing bucket keeps every date covered |
| Timeline.AddNewBucket | src/components/Timeline/Timeline.tsx:19-20 | opening a bucket for a new date keeps every bucket equal to the events of its date |
| Timeline.AddNewCovers | src/components/Timeline/Timeline.tsx:19-20 | opening a bucket for a new date keeps every date covered |
| Timeline.GroupEventsDistinct | src/components/Timeline/Timeline.tsx:13-24 | grouping never repeats a date key |
| Timeline.GroupEventsExact | src/components/Timeline/Timeline.tsx:13-24 | after grouping, each bucket is non-empty and holds exactly its date's events in input order, and every event's date has a bucket |
| Timeline.GroupEventsFlatMap | src/components/Timeline/Timeline.tsx:13-24 | grouping neither drops nor duplicates an event |
| Timeline.GroupEventsIsGrouping | src/components/Timeline/Timeline.tsx:13-24 | grouping gives one non-empty bucket per date that occurs. Each bucket holds exactly that date's events in input order, and together the buckets hold every event |
| Timeline.ByTitleIsTotalPreorder | src/components/Timeline/Timeline.tsx:29 | the by-title comparator is a total preorder |
| Timeline.ByDateIsTotalPreorder | src/components/Timeline/Timeline.tsx:32 | the by-date comparator is a total preorder |
| Timeline.SortEachDayFlatMap | src/components/Timeline/Timeline.tsx:28-31 | sorting inside each bucket keeps the buckets' contents |
| Timeline.TimelineBucketOrigin | src/components/Timeline/Timeline.tsx:26-35 | every displayed bucket is a grouped bucket sorted by title |
| Timeline.TimelineDatesAscending | src/components/Timeline/Timeline.tsx:32-34 | displayed dates are strictly ascending, hence distinct |
| Timeline.TimelineBucketSorted | src/components/Timeline/Timeline.tsx:29 | every displayed bucket is sorted by title |
| Timeline.TimelineBucket | src/components/Timeline/Timeline.tsx:29 | one displayed bucket is non-empty and holds exactly the events of its date, stably sorted by title |
| Timeline.TimelineBuckets | src/components/Timeline/Timeline.tsx:26-35 | the same for every displayed bucket |
| Timeline.TimelineKeySound | src/components/Timeline/Timeline.tsx:66 | every displayed date is the date of some event |
| Timeline.TimelineHasDay | src/components/Timeline/Timeline.tsx:26-35 | every grouped bucket's date is displayed |
| Timeline.TimelineKeyComplete | src/components/Timeline/Timeline.tsx:66 | every event's date is displayed |
| Timeline.TimelineKeys | src/components/Timeline/Timeline.tsx:66 | the displayed dates are exactly the dates occurring among the events |
| Timeline.TimelineIsPermutation | src/components/Timeline/Timeline.tsx:26-36 | read bucket by bucket, the timeline shows every event exactly as often as the input has it |
| Timeline.TimelineEmptyIff | src/components/Timeline/Timeline.tsx:70 | the empty view shows iff there are no events |
| DashboardReducer.InitialStateSpec | src/reducers/dashboardReducer.ts:3-10 | no events, loading, no error, form closed in add mode, no editing id |
| DashboardReducer.ReplaceById | src/reducers/dashboardReducer.ts:50 | same length; each event with the edited id becomes the edited record, the rest are unchanged |
| DashboardReducer.LoadStartSpec | src/reducers/dashboardReducer.ts:15-19 | loading with the error cleared; events and form untouched |
| DashboardReducer.LoadSuccessSpec | src/reducers/dashboardReducer.ts:20-24 | ready with the loaded records; the previous error is kept |
| DashboardReducer.LoadErrorSpec | src/reducers/dashboardReducer.ts:25-29 | error status with the message; events and form untouched |
| DashboardReducer.OpenFormSpec | src/reducers/dashboardReducer.ts:30-35 | form open in the given mode with the given id or none; data untouched |
| DashboardReducer.AddEventSpec | src/reducers/dashboardReducer.ts:36-40 | the record is appended after the unchanged existing events and the form closes |
| DashboardReducer.CloseFormSpec | src/reducers/dashboardReducer.ts:41-46 | form closed, add mode, no editing id; data untouched |
| DashboardReducer.EditEventSpec | src/reducers/dashboardReducer.ts:47-51 | events with the edited id are replaced, others and all ids keep their place, no match changes nothing, and the form closes with mode and id left stale |
| DashboardReducer.EditEventIdempotent | src/reducers/dashboardReducer.ts:47-51 | applying the same edit twice equals applying it once |
| DashboardReducer.EventsOnlyGrowWithoutLoads | src/reducers/dashboardReducer.ts:13-54 | with no load success, any run of actions never shrinks the event list and keeps each position's id |
| DashboardReducer.ModeConsistentPreserved | src/reducers/dashboardReducer.ts:30-51 | for actions as the dashboard dispatches them, an editing id stays present only in edit mode |
| DashboardReducer.EditCommitLeavesIdBehindClosedForm | src/reducers/dashboardReducer.ts:47-51 | after an edit commit the form is closed but still in edit mode with the old editing id |
| EventForm.InitialFormSpec | src/components/EventForm/EventForm.tsx:20-26 | a blank draft with status `not-started` for a new event, or a copy of the record's fields with a missing description read as `""`, and no errors |
| EventForm.ValidateFormSpec | src/components/EventForm/EventForm.tsx:29-42 | a title error iff the title is all whitespace, a date error iff the date is empty, and valid iff neither. Earlier errors are discarded |
| EventForm.HandleSubmitSpec | src/components/EventForm/EventForm.tsx:44-58 | an invalid draft saves nothing. A valid one saves the draft's fields under the record's non-empty id or a fresh id |
| EventForm.UntouchedEditRoundTrip | src/components/EventForm/EventForm.tsx:20-54 | submitting an untouched edit form saves the record back, with an absent description turned into the empty one |
| EventForm.EditClearsOnlyOwnError | src/components/EventForm/EventForm.tsx:75-95 | each field edit changes only its own field. Title and date edits clear only their own error |
| EventForm.BlankTitleScenario | src/components/EventForm/EventForm.tsx:29-49 | a blank title with a date records only the title error and saves nothing |
| Dashboard.ColumnsSpec | src/Dashboard.tsx:13-46 | four visible, sortable columns with distinct keys; only the date column is not filterable |
| Dashboard.DashboardFilter | src/Dashboard.tsx:13-46 | a grid row passes iff its id, title and status text each contain their filter text, ignoring ASCII case |
| Dashboard.DateFilterIgnored | src/Dashboard.tsx:30-37 | a filter text for the date key changes no result |
| Dashboard.LoadSpec | src/Dashboard.tsx:48-56 | after the load sequence, success installs the records with no error. Failure keeps the events and records the message |
| Dashboard.HandlersKeepModeConsistent | src/Dashboard.tsx:58-76 | every handler's action keeps the editing id confined to edit mode |
| Dashboard.FindById | src/Dashboard.tsx:80 | `find` returns an event from the list with the id, or none when no event has it |
| Dashboard.FindByIdFirst | src/Dashboard.tsx:80 | `find` returns the first event with the id |
| Dashboard.OpenedFormData | src/Dashboard.tsx:78-83 | an edit request opens the form on the first event with that id; an add request opens it blank |
| Dashboard.AddFlow | src/Dashboard.tsx:66-72 | add then valid submit appends the draft under the fresh id and closes the form; an invalid submit changes nothing |
| Dashboard.EditFlow | src/Dashboard.tsx:62-72 | edit then valid submit replaces every event with that id by the draft under the same id and leaves the rest |
| Dashboard.EditOfMissingRecordIsDropped | src/Dashboard.tsx:78-83 | editing an id no longer in the list opens a blank form whose save changes no event |
| Dashboard.SectionsAgree | src/Dashboard.tsx:109-127 | grid and timeline show together exactly when ready, both on the full event list; an error shows its message |
| Dashboard.AddedEventReachesTimeline | src/Dashboard.tsx:122-127 | after an add, the timeline holds the added record once more and otherwise the same events |
| Dashboard.AddButtonToggles | src/Dashboard.tsx:100-104 | opening the form hides the add button; saving or cancelling shows it again |

## Left out

- Rendering: JSX markup, CSS, arrow glyphs, the "Select status" placeholder text and the success message with its 5-second timer are not modelled. The focus effect that moves focus to the first field with an error (EventForm lines 60-69) is not modelled either. React hooks become explicit state values passed in and returned.
- The mock data generator is not part of this model, and neither is the one-second fetch delay. The fetch outcome is a `Result` parameter to `Dashboard.LoadActions`, and only the order of dispatched actions is modelled.
- `crypto.randomUUID()` is an input (`freshId`). Its uniqueness is a precondition where a lemma needs it.
- `localeCompare` is modelled as code-point lexicographic order (`Text.Compare`). Locale collation is not modelled. The sort proofs assume only that the order is a total order.
- `toLowerCase` is modelled for ASCII letters only. Unicode case mapping is not modelled.
- DataGrid.CompareValues: the `>`/`<` branch for non-string values is not modelled, because every accessor here yields a string or `undefined`.
- Timeline: plain-object key quirks are not modelled. `Object.keys` lists integer-like keys first. Keys such as `"constructor"` collide with inherited properties. Dates are treated as ordinary ISO strings.
- DataGrid.FilterText: the grid keeps filter texts in a plain object, and a missing key reads as `""`. A key inherited from `Object.prototype` (`"constructor"`, `"toString"`, `"__proto__"`, …) on a visible, filterable column with no typed text reads in the code as a function. The code then calls `toLowerCase` on it and the render throws. The model does not capture this crash, and `DataGrid.RowMatchesIff` and `DataGrid.FilterRowsOnlyActiveKeysMatter` are stated for every key. The dashboard's column keys are not such names.
- The status select's empty option (value `""`) would set a status outside the three values. It is left out; status edits take an `EventStatus`.
- EventForm.EditTitle and EventForm.EditDate clear an error when it is present. The code tests the message for truthiness. The two agree because error messages are never empty.
- EventForm's state is initialised when the form mounts. Changing the edited record while the form stays open does not re-initialise it in the code. The model always opens the form fresh from the dashboard state.
- The DataGrid and Timeline `loading`/`error` props are never passed by the dashboard, so their loading and error views are not modelled. The dashboard's own status messages are modelled instead.
- The dashboard passes an `onEditEvent` callback that neither component declares, so no row or timeline entry actually requests an edit. `Dashboard.HandleEditEvent` is modelled as written.
- A load rejection arrives as whatever value the promise rejects with. It is modelled as a message string, as the action type declares.
- The event type in the contracts has no `description`, but the form reads and saves one. `Event.description` is therefore an optional field.
- A floor of 1 on the page count and a sliding carousel window over the timeline's dates do not exist in the code, so neither is modelled. With nothing matching, the page count is 0.
