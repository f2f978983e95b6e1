/**
 * The page's mutable state, `classes` and `selectedClassId`, together with
 * whether the add-class dialog is open, and the handlers that change them:
 * opening and closing the dialog, Focus, Remove, saving notes and
 * submitting the add-class form.
 */
module Store {
  import opened Wrappers
  import opened Clock
  import opened Schedule

  /** `MAX_CLASSES`: the dialog will not open once this many entries exist. */
  const MaxClasses: nat := 8

  class AppState {
    /** The stored entries, in insertion order. */
    var classes: seq<Entry>
    /** `selectedClassId`; `None` is `null`. */
    var selectedClassId: Option<Id>
    /** Whether the add-class dialog is showing. */
    var dialogOpen: bool

    /** Page load: the entries read from storage, nothing selected, the dialog closed. */
    constructor (stored: seq<Entry>)
      ensures classes == stored && selectedClassId == None && !dialogOpen
    {
      classes := stored;
      selectedClassId := None;
      dialogOpen := false;
    }

    /** The cap: at most `MaxClasses` entries, and fewer while the dialog is open. */
    ghost predicate WithinCap()
      reads this
    {
      |classes| <= MaxClasses && (dialogOpen ==> |classes| < MaxClasses)
    }

    /** `openModal`: refuses (with an alert) once the list holds `MaxClasses` entries. */
    method OpenModal() returns (shown: bool)
      modifies this`dialogOpen
      ensures shown <==> |classes| < MaxClasses
      ensures dialogOpen == (old(dialogOpen) || shown)
      ensures old(WithinCap()) ==> WithinCap()
    {
      if |classes| >= MaxClasses {
        shown := false;
        return;
      }
      dialogOpen := true;
      shown := true;
    }

    /** `closeModal`: hides the dialog. */
    method CloseModal()
      modifies this`dialogOpen
      ensures !dialogOpen
      ensures old(WithinCap()) ==> WithinCap()
    {
      dialogOpen := false;
    }

    /** The Focus button: selects the entry's id. */
    method Focus(id: Id)
      modifies this`selectedClassId
      ensures selectedClassId == Some(id)
    {
      selectedClassId := Some(id);
    }

    /** The Remove button: drops every entry with the id and clears the selection if it was that id. */
    method Remove(id: Id)
      modifies this`classes, this`selectedClassId
      ensures classes == WithoutId(old(classes), id)
      ensures selectedClassId == if old(selectedClassId) == Some(id) then None else old(selectedClassId)
      ensures old(WithinCap()) ==> WithinCap()
      ensures old(DistinctIds(classes)) ==> DistinctIds(classes)
      ensures old(AllComplete(classes)) ==> AllComplete(classes)
    {
      ghost var before := classes;
      classes := WithoutId(classes, id);
      if selectedClassId == Some(id) {
        selectedClassId := None;
      }
      if DistinctIds(before) {
        WithoutIdKeepsDistinctIds(before, id);
      }
      if AllComplete(before) {
        WithoutIdKeepsComplete(before, id);
      }
    }

    /**
     * `saveNotes`: with no selection (null or the empty string) nothing
     * changes and an alert is shown; otherwise the selected entry's notes
     * become `html`.
     */
    method SaveNotes(html: string) returns (saved: bool)
      modifies this`classes
      ensures saved <==> selectedClassId.Some? && selectedClassId.value != ""
      ensures classes == if saved then WithNotes(old(classes), selectedClassId.value, html) else old(classes)
      ensures |classes| == |old(classes)|
      ensures forall i :: 0 <= i < |classes| ==> classes[i].id == old(classes)[i].id
      ensures old(DistinctIds(classes)) ==> DistinctIds(classes)
      ensures old(AllComplete(classes)) ==> AllComplete(classes)
    {
      if selectedClassId.None? || selectedClassId.value == "" {
        saved := false;
        return;
      }
      if AllComplete(classes) {
        WithNotesKeepsComplete(classes, selectedClassId.value, html);
      }
      classes := WithNotes(classes, selectedClassId.value, html);
      saved := true;
    }

    /**
     * The add-class form's submit handler: the checks and the new entry are
     * `PrepareEntry`'s; on success the entry is appended and selected, and
     * the dialog closes.
     */
    method Submit(form: Form, today: string, freshId: Id) returns (outcome: Result<Entry, SubmitError>)
      modifies this
      ensures outcome == PrepareEntry(form, today, freshId)
      ensures outcome.Success? ==>
                && classes == old(classes) + [outcome.value]
                && selectedClassId == Some(freshId) && !dialogOpen
      ensures outcome.Failure? ==> unchanged(this)
      ensures old(WithinCap()) && old(dialogOpen) ==> WithinCap()
      ensures old(DistinctIds(classes)) && !HasId(old(classes), freshId) ==> DistinctIds(classes)
      ensures old(AllComplete(classes)) ==> AllComplete(classes)
    {
      outcome := PrepareEntry(form, today, freshId);
      if outcome.Failure? {
        return;
      }
      var entry := outcome.value;
      if DistinctIds(classes) && !HasId(classes, freshId) {
        AppendKeepsDistinctIds(classes, entry);
      }
      if AllComplete(classes) {
        AppendKeepsComplete(classes, entry);
      }
      classes := classes + [entry];
      selectedClassId := Some(entry.id);
      dialogOpen := false;
    }
  }
}
