/** The event form: its draft fields and field errors, required-field
    validation, the record a valid submit saves, and clear-on-edit errors. */
module EventForm {
  import opened Wrappers
  import opened Text
  import opened Contracts

  /** The draft being edited. */
  datatype FormData = FormData(title: string, date: string, status: EventStatus, description: string)

  /** The recorded field errors; `None` is an absent (or cleared) message. */
  datatype FormErrors = FormErrors(title: Option<string>, date: Option<string>)

  datatype FormState = FormState(data: FormData, errors: FormErrors)

  const TitleRequired: string := "Title is required"
  const DateRequired: string := "Date is required"

  /** The draft a form opens with: blank when creating, a copy of the record when editing. */
  function InitialFormData(initial: Option<Event>): FormData {
    match initial
    case None => FormData("", "", NotStarted, "")
    case Some(e) => FormData(e.title, e.date, e.status, e.description.GetOr(""))
  }

  function InitialForm(initial: Option<Event>): FormState {
    FormState(InitialFormData(initial), FormErrors(None, None))
  }

  /** Opening with no record gives empty title, date and description and status
      `not-started`; opening with a record copies its fields, a missing
      description becoming the empty one. No error is shown. */
  lemma InitialFormSpec(initial: Option<Event>)
    ensures var f := InitialForm(initial);
            f.errors.title.None? && f.errors.date.None? &&
            (initial.None? ==> f.data.title == "" && f.data.date == "" &&
                               f.data.status == NotStarted && f.data.description == "") &&
            (initial.Some? ==> f.data.title == initial.value.title && f.data.date == initial.value.date &&
                               f.data.status == initial.value.status &&
                               f.data.description == initial.value.description.GetOr(""))
  {
  }

  /** The errors a validation records for a draft. */
  function Validate(data: FormData): FormErrors {
    FormErrors(
      if Trim(data.title) == "" then Some(TitleRequired) else None,
      if data.date == "" then Some(DateRequired) else None)
  }

  /** No error key was recorded. */
  predicate NoErrors(errors: FormErrors) {
    errors.title.None? && errors.date.None?
  }

  /** `validateForm`: replaces the recorded errors and reports whether there are none. */
  function ValidateForm(form: FormState): (FormState, bool) {
    var errors := Validate(form.data);
    (form.(errors := errors), NoErrors(errors))
  }

  /** A title error exactly when the title is all whitespace (or empty), a date
      error exactly when the date is empty; the verdict is true exactly when
      neither applies; earlier errors are discarded, the draft is kept. */
  lemma ValidateFormSpec(form: FormState)
    ensures var (checked, ok) := ValidateForm(form);
            checked.data == form.data &&
            (checked.errors.title.Some? <==> AllWhitespace(form.data.title)) &&
            (checked.errors.date.Some? <==> form.data.date == "") &&
            (ok <==> !AllWhitespace(form.data.title) && form.data.date != "") &&
            checked.errors == ValidateForm(FormState(form.data, FormErrors(None, None))).0.errors
  {
    TrimEmptyIff(form.data.title);
  }

  /** The id a saved record carries: the edited record's id when it has a
      non-empty one, otherwise the freshly generated id. */
  function SavedId(initial: Option<Event>, freshId: string): string {
    if initial.Some? && initial.value.id != "" then initial.value.id else freshId
  }

  /** The form after a submit, and the record handed to the save callback, if any. */
  datatype Submission = Submission(form: FormState, saved: Option<Event>)

  /** `handleSubmit`; `freshId` stands for the generated UUID. */
  function HandleSubmit(form: FormState, initial: Option<Event>, freshId: string): Submission {
    var (checked, ok) := ValidateForm(form);
    if !ok then Submission(checked, None)
    else
      var d := form.data;
      Submission(checked, Some(Event(SavedId(initial, freshId), d.title, d.date, d.status, Some(d.description))))
  }

  /** An invalid draft is never saved; a valid one is saved with the kept or
      fresh id and every other field taken from the draft. */
  lemma HandleSubmitSpec(form: FormState, initial: Option<Event>, freshId: string)
    ensures var sub := HandleSubmit(form, initial, freshId);
            sub.form == ValidateForm(form).0 &&
            (sub.saved.None? <==> AllWhitespace(form.data.title) || form.data.date == "") &&
            (sub.saved.Some? ==>
               sub.saved.value.id == (if initial.Some? && initial.value.id != "" then initial.value.id else freshId) &&
               sub.saved.value.title == form.data.title &&
               sub.saved.value.date == form.data.date &&
               sub.saved.value.status == form.data.status &&
               sub.saved.value.description == Some(form.data.description))
  {
    ValidateFormSpec(form);
  }

  /** Submitting an untouched edit form saves the record back unchanged, except
      that an absent description becomes the empty one. */
  lemma UntouchedEditRoundTrip(e: Event, freshId: string)
    requires e.id != "" && !AllWhitespace(e.title) && e.date != ""
    ensures HandleSubmit(InitialForm(Some(e)), Some(e), freshId).saved ==
            Some(e.(description := Some(e.description.GetOr(""))))
  {
    HandleSubmitSpec(InitialForm(Some(e)), Some(e), freshId);
  }

  /** Editing the title field. */
  function EditTitle(form: FormState, value: string): FormState {
    var f := form.(data := form.data.(title := value));
    if form.errors.title.Some? then f.(errors := f.errors.(title := None)) else f
  }

  /** Editing the date field. */
  function EditDate(form: FormState, value: string): FormState {
    var f := form.(data := form.data.(date := value));
    if form.errors.date.Some? then f.(errors := f.errors.(date := None)) else f
  }

  function EditStatus(form: FormState, status: EventStatus): FormState {
    form.(data := form.data.(status := status))
  }

  function EditDescription(form: FormState, value: string): FormState {
    form.(data := form.data.(description := value))
  }

  /** Editing a field changes only that field of the draft; editing the title
      clears only the title error and editing the date only the date error;
      status and description edits leave both errors alone. */
  lemma EditClearsOnlyOwnError(form: FormState, text: string, status: EventStatus)
    ensures EditTitle(form, text).data == form.data.(title := text)
    ensures EditTitle(form, text).errors == FormErrors(None, form.errors.date)
    ensures EditDate(form, text).data == form.data.(date := text)
    ensures EditDate(form, text).errors == FormErrors(form.errors.title, None)
    ensures EditStatus(form, status) == FormState(form.data.(status := status), form.errors)
    ensures EditDescription(form, text) == FormState(form.data.(description := text), form.errors)
  {
  }

  /** Submitting a blank title with a date records only the title error and saves nothing. */
  lemma BlankTitleScenario(date: string, status: EventStatus, description: string, freshId: string)
    requires date != ""
    ensures var sub := HandleSubmit(FormState(FormData("", date, status, description), FormErrors(None, None)), None, freshId);
            sub.saved.None? && sub.form.errors == FormErrors(Some(TitleRequired), None)
  {
    assert Trim("") == "";
  }
}
