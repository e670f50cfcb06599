/** The state of the contact manager component and its five event handlers,
    each a pure transition from one state to the next. */
module ContactManager {
  import opened Options
  import opened Contacts
  import JsArrays

  /** `contacts` is the list shown in the table, `draft` the form's contents, and
      `editIndex` the row being edited (`None` while the form adds a new contact). */
  datatype State = State(contacts: seq<Contact>, draft: Contact, editIndex: Option<nat>)

  /** The state on mount: no contacts, a cleared form, not editing. */
  const Init: State := State([], Blank, None)

  /** Typing into one input: that field of the draft takes the typed value. */
  function HandleChange(s: State, f: Field, v: string): (r: State)
    ensures Get(r.draft, f) == v
    ensures forall g :: g != f ==> Get(r.draft, g) == Get(s.draft, g)
    ensures r.contacts == s.contacts && r.editIndex == s.editIndex
  {
    s.(draft := Set(s.draft, f, v))
  }

  /** Adding: a draft with no empty field goes to the end of the list and the
      form is cleared; any empty field makes the handler return without effect. */
  function HandleAdd(s: State): (r: State)
    ensures Filled(s.draft) ==>
      && |r.contacts| == |s.contacts| + 1
      && r.contacts[..|s.contacts|] == s.contacts
      && r.contacts[|s.contacts|] == s.draft
      && r.draft == Blank
      && r.editIndex == s.editIndex
    ensures !Filled(s.draft) ==> r == s
  {
    if !Filled(s.draft) then s
    else s.(contacts := s.contacts + [s.draft], draft := Blank)
  }

  /** Editing row `i`: the form is loaded with that contact and remembers `i`. */
  function HandleEdit(s: State, i: nat): (r: State)
    requires i < |s.contacts|
    ensures r.editIndex.Some? && r.editIndex.value == i
    ensures r.draft == s.contacts[i]
    ensures r.contacts == s.contacts
  {
    s.(editIndex := Some(i), draft := s.contacts[i])
  }

  /** Saving: the draft is written at `editIndex` without any emptiness check,
      the form is cleared and edit mode ends. An index equal to the length (left
      behind by deletions) appends, as a JavaScript array write at `length` does. */
  function HandleSave(s: State): (r: State)
    requires s.editIndex.Some? && s.editIndex.value <= |s.contacts|
    ensures var i := s.editIndex.value;
      && |r.contacts| == (if i < |s.contacts| then |s.contacts| else |s.contacts| + 1)
      && r.contacts[i] == s.draft
      && (forall j :: 0 <= j < |s.contacts| && j != i ==> r.contacts[j] == s.contacts[j])
    ensures r.editIndex.None? && r.draft == Blank
  {
    s.(contacts := JsArrays.Assign(s.contacts, s.editIndex.value, s.draft),
       editIndex := None, draft := Blank)
  }

  /** Deleting row `index`: that row leaves the list and the rest keep their
      order; an index outside the list removes nothing. The draft and `editIndex`
      are left alone, even when a row at or before `editIndex` goes. */
  function HandleDelete(s: State, index: int): (r: State)
    ensures 0 <= index < |s.contacts| ==>
      && |r.contacts| == |s.contacts| - 1
      && r.contacts == s.contacts[..index] + s.contacts[index + 1..]
    ensures !(0 <= index < |s.contacts|) ==> r.contacts == s.contacts
    ensures r.draft == s.draft && r.editIndex == s.editIndex
  {
    JsArrays.FilterIndexSlices(s.contacts, index);
    s.(contacts := JsArrays.FilterIndex(s.contacts, index))
  }

  /** The change handler's contract pins down its result: any state with the
      typed value in the named field, the other fields, the list and the edit
      index as before, is the handler's result. */
  lemma ChangeDeterminedByContract(s: State, f: Field, v: string, r: State)
    requires Get(r.draft, f) == v
    requires forall g :: g != f ==> Get(r.draft, g) == Get(s.draft, g)
    requires r.contacts == s.contacts && r.editIndex == s.editIndex
    ensures r == HandleChange(s, f, v)
  {
    FieldsDetermineContact(r.draft, HandleChange(s, f, v).draft);
  }

  /** Typing a field's old value back undoes a change. */
  lemma ChangeUndone(s: State, f: Field, v: string)
    ensures HandleChange(HandleChange(s, f, v), f, Get(s.draft, f)) == s
  {
  }

  /** The add guard tests only for the empty string: a blank name and a blank
      phone number pass it, and the draft is stored unchanged. */
  lemma AddAcceptsWhitespace(s: State)
    requires s.draft.name == " " && s.draft.phone == " " && s.draft.email != ""
    ensures HandleAdd(s).contacts == s.contacts + [s.draft]
  {
  }

  /** Adding does not check for duplicates: a contact already in the list is stored
      once more. */
  lemma AddAllowsDuplicates(s: State)
    requires Filled(s.draft)
    ensures multiset(HandleAdd(s).contacts)[s.draft] == multiset(s.contacts)[s.draft] + 1
  {
  }

  /** Deleting the row just added restores the list. */
  lemma AddThenDeleteLast(s: State)
    ensures HandleDelete(HandleAdd(s), |s.contacts|).contacts == s.contacts
  {
  }

  /** Opening a row for editing and saving it untouched leaves the list as it was. */
  lemma EditThenSaveKeepsList(s: State, i: nat)
    requires i < |s.contacts|
    ensures HandleSave(HandleEdit(s, i)).contacts == s.contacts
  {
  }

  /** Deleting row `i` takes away one occurrence of that contact and nothing else. */
  lemma DeleteRemovesOneOccurrence(s: State, i: nat)
    requires i < |s.contacts|
    ensures multiset(HandleDelete(s, i).contacts) == multiset(s.contacts) - multiset{s.contacts[i]}
  {
    JsArrays.FilterIndexMultiset(s.contacts, i);
  }

  /** Deleting with the same row number twice removes two rows, the second being
      whichever contact moved up into that position. */
  lemma DeleteTwiceShifts(s: State, i: nat)
    requires i + 1 < |s.contacts|
    ensures HandleDelete(HandleDelete(s, i), i).contacts == s.contacts[..i] + s.contacts[i + 2..]
  {
  }
}
