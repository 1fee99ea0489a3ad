/**
 * The project editor form: its state variables, the edit-mode prefill, the
 * file picker, and what pressing "submit" or "delete" makes the form do. A
 * handler is modelled as a function from the form state to the next state, or
 * to the sequence of effects it performs: the callbacks it calls, then `Close`.
 */
module ProjectModal {
  import opened JsString
  import opened TagCodec

  datatype Option<T> = None | Some(value: T)

  /** A file picked in the image input; only which file it is matters here. */
  datatype LocalFile = LocalFile(name: string)

  /** The fields of `editingProject` the form reads; each may be absent. */
  datatype ProjectRecord = ProjectRecord(title: Option<string>, tags: Option<seq<string>>, imgUrl: Option<string>)

  /** The form's state variables: title, tag text, picked file, password, preview URL. */
  datatype FormState = FormState(title: string, tagInput: string, file: Option<LocalFile>, password: string, previewImg: string)

  /** The state of a freshly opened form. */
  const InitialForm: FormState := FormState("", "", None, "", "")

  /** What the form hands to the add or update callback. */
  datatype Payload = Payload(title: string, tags: seq<string>, file: Option<LocalFile>)

  /** One observable step of a handler, in the order it happens. */
  datatype Effect = CallAdd(payload: Payload) | CallUpdate(payload: Payload) | CallDelete | Close

  /** Effects that call one of the parent's project callbacks. */
  predicate IsCallback(e: Effect) {
    e.CallAdd? || e.CallUpdate? || e.CallDelete?
  }

  /** `x || ""` on an optional string: an absent value shows as the empty string. */
  function OrEmpty(x: Option<string>): (s: string)
    ensures x.None? ==> s == ""
    ensures x.Some? ==> s == x.value
  {
    if x.Some? then x.value else ""
  }

  /**
   * `editingProject.tags?.join("/") || ""`: the tag text shown for a record.
   * Absent tags show as "", and well-formed tags show as a text that parses
   * back to exactly those tags.
   */
  function TagText(tags: Option<seq<string>>): (text: string)
    ensures tags.None? ==> text == ""
    ensures tags.Some? && AllTags(tags.value) ==> ExtractTags(text) == tags.value
  {
    if tags.None? then ""
    else
      var text := JoinTags(tags.value);
      assert AllTags(tags.value) ==> ExtractTags(text) == tags.value by {
        if AllTags(tags.value) {
          ExtractJoinRoundTrip(tags.value);
        }
      }
      text
  }

  /**
   * The edit-mode prefill: when a record is being edited, its title, tag text
   * and image URL replace the form's; the picked file and the password are
   * left as they are. Without a record the form is untouched.
   */
  function Prefill(editing: Option<ProjectRecord>, form: FormState): (r: FormState)
    ensures editing.None? ==> r == form
    ensures editing.Some? ==> r.file == form.file && r.password == form.password
    ensures editing.Some? ==> r.title == OrEmpty(editing.value.title)
    ensures editing.Some? ==> r.previewImg == OrEmpty(editing.value.imgUrl)
    ensures editing.Some? ==> r.tagInput == TagText(editing.value.tags)
  {
    match editing
    case None => form
    case Some(p) => form.(title := OrEmpty(p.title), tagInput := TagText(p.tags), previewImg := OrEmpty(p.imgUrl))
  }

  /**
   * The file picker's change handler: no file picked leaves the form alone;
   * otherwise the file is kept and the preview shows `objectUrl`, the URL the
   * browser made for it.
   */
  function FileChange(form: FormState, picked: Option<LocalFile>, objectUrl: string): (r: FormState)
    ensures picked.None? ==> r == form
    ensures picked.Some? ==> r.file == picked && r.previewImg == objectUrl
    ensures r.title == form.title && r.tagInput == form.tagInput && r.password == form.password
  {
    if picked.None? then form else form.(file := picked, previewImg := objectUrl)
  }

  /** The payload built from the form: its title, its parsed tags, its file. */
  function SubmitPayload(form: FormState): (p: Payload)
    ensures p.title == form.title && p.file == form.file
    ensures p.tags == ExtractTags(form.tagInput)
    ensures AllTags(p.tags)
    ensures |p.tags| <= Occurrences(form.tagInput, Separator) + 1
  {
    Payload(form.title, ExtractTags(form.tagInput), form.file)
  }

  /**
   * The submit handler, with the update sent for the record under edit. An
   * empty title does nothing at all. Otherwise exactly one callback runs, the
   * update one in edit mode and the add one otherwise, with the form's
   * payload, and then the form closes.
   */
  function Submit(form: FormState, isEdit: bool): (effects: seq<Effect>)
    ensures form.title == "" <==> effects == []
    ensures form.title != "" ==> |effects| == 2 && IsCallback(effects[0]) && effects[1] == Close
    ensures forall k :: 0 <= k < |effects| ==> !effects[k].CallDelete?
    ensures forall k :: 0 <= k < |effects| ==> (effects[k].CallUpdate? <==> isEdit && k == 0)
    ensures forall k :: 0 <= k < |effects| && (effects[k].CallAdd? || effects[k].CallUpdate?) ==>
      effects[k].payload == SubmitPayload(form)
  {
    if form.title == "" then []
    else if isEdit then [CallUpdate(SubmitPayload(form)), Close]
    else [CallAdd(SubmitPayload(form)), Close]
  }

  /** The password the form collects plays no part in what it submits. */
  lemma SubmitIgnoresPassword(form: FormState, password: string, isEdit: bool)
    ensures Submit(form.(password := password), isEdit) == Submit(form, isEdit)
  {
  }

  /**
   * A freshly opened form in new mode: the prefill does nothing without a
   * record, and submitting before a title is typed has no effect at all.
   */
  lemma InitialFormSubmitsNothing(isEdit: bool)
    ensures Prefill(None, InitialForm) == InitialForm
    ensures Submit(InitialForm, isEdit) == []
  {
  }

  /**
   * Opening the form on a record with a title and well-formed tags and
   * submitting it unchanged sends an update carrying the record's own title
   * and tags and no new file, and then closes.
   */
  lemma PrefillThenSubmit(p: ProjectRecord)
    requires p.title.Some? && p.title.value != ""
    requires p.tags.Some? ==> AllTags(p.tags.value)
    ensures Submit(Prefill(Some(p), InitialForm), true) ==
      [CallUpdate(Payload(p.title.value, if p.tags.Some? then p.tags.value else [], None)), Close]
  {
    var form := Prefill(Some(p), InitialForm);
    if p.tags.None? {
      ExtractTagsSegment("");
    }
    assert SubmitPayload(form) == Payload(p.title.value, if p.tags.Some? then p.tags.value else [], None);
  }

  /** The delete handler, with the delete sent for the record under edit, once confirmed. */
  function Delete(confirmed: bool): (effects: seq<Effect>)
    ensures !confirmed <==> effects == []
    ensures confirmed ==> |effects| == 2 && effects[0].CallDelete? && effects[1] == Close
  {
    if confirmed then [CallDelete, Close] else []
  }

  /** How a handler as written ends: normally, after its effects, or by throwing. */
  datatype Outcome = Completed(effects: seq<Effect>) | Threw(error: string)

  /** The error JavaScript raises on reading the undeclared name `project`. */
  const ProjectUndefined: string := "ReferenceError: project is not defined"

  /**
   * The submit handler as written: in edit mode it reads `project.id`, but no
   * `project` is in scope, so it throws before calling the update callback
   * and before closing.
   */
  function SubmitAsWritten(form: FormState, isEdit: bool): (o: Outcome)
    ensures form.title == "" ==> o == Completed([])
    ensures form.title != "" && isEdit ==> o == Threw(ProjectUndefined)
    ensures !isEdit ==> o == Completed(Submit(form, false))
  {
    if form.title == "" then Completed([])
    else if isEdit then Threw(ProjectUndefined)
    else Completed([CallAdd(SubmitPayload(form)), Close])
  }

  /** As written, a non-empty edit never reaches the update callback nor closes the form. */
  lemma SubmitAsWrittenEditThrows(form: FormState)
    requires form.title != ""
    ensures SubmitAsWritten(form, true).Threw?
    ensures Submit(form, true) == [CallUpdate(SubmitPayload(form)), Close]
  {
  }

  /** The delete handler as written: once confirmed it reads `project.id` and throws. */
  function DeleteAsWritten(confirmed: bool): (o: Outcome)
    ensures !confirmed ==> o == Completed(Delete(false))
    ensures confirmed ==> o == Threw(ProjectUndefined)
  {
    if confirmed then Threw(ProjectUndefined) else Completed([])
  }

  /** As written, a confirmed delete never reaches the delete callback nor closes the form. */
  lemma DeleteAsWrittenThrows()
    ensures DeleteAsWritten(true).Threw?
    ensures Delete(true) == [CallDelete, Close]
  {
  }
}
