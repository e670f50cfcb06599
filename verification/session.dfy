/** The component as the rendered page drives it: which handler each user
    action reaches, which actions the page offers at all, and what runs of
    actions do to the add/edit mode. */
module Session {
  import opened Options
  import opened Contacts
  import opened ContactManager

  /** A user action on the page. */
  datatype Event =
    | Change(field: Field, value: string)  // typing into one of the three inputs
    | Submit                               // the single button beside the form
    | EditRow(row: nat)                    // the edit button of one table row
    | DeleteRow(row: nat)                  // the delete button of one table row

  /** What an action does: move to a next state; be impossible because the page
      shows no such button; or write past the end of the list, which would leave
      holes in the JavaScript array (not part of this model). */
  datatype Outcome = Moved(next: State) | NotOffered | SparseWrite

  /** The save button is shown exactly while a row is being edited. */
  predicate SaveOffered(s: State) {
    s.editIndex.Some?
  }

  /** The add button is shown exactly while no row is being edited. */
  predicate AddOffered(s: State) {
    s.editIndex.None?
  }

  /** A state whose edit index, if any, names an existing row. */
  predicate EditTargetExists(s: State) {
    s.editIndex.None? || s.editIndex.value < |s.contacts|
  }

  /** One user action. The button beside the form runs the save handler while
      editing and the add handler otherwise; row buttons exist only for the rows
      of the list. */
  function Step(s: State, e: Event): (o: Outcome)
    ensures o.NotOffered? <==> (e.EditRow? || e.DeleteRow?) && e.row >= |s.contacts|
    ensures o.SparseWrite? <==> e.Submit? && s.editIndex.Some? && s.editIndex.value > |s.contacts|
    ensures o.Moved? && AddOffered(s) && SaveOffered(o.next) ==> e.EditRow?
    ensures o.Moved? && SaveOffered(s) && AddOffered(o.next) ==> e.Submit?
    ensures o.Moved? && e.Submit? ==> AddOffered(o.next)
    ensures o.Moved? && e.EditRow? ==> SaveOffered(o.next)
    ensures e.Change? ==> o == Moved(HandleChange(s, e.field, e.value))
    ensures e.Submit? && AddOffered(s) ==> o == Moved(HandleAdd(s))
    ensures e.Submit? && SaveOffered(s) && s.editIndex.value <= |s.contacts| ==> o == Moved(HandleSave(s))
    ensures e.EditRow? && e.row < |s.contacts| ==> o == Moved(HandleEdit(s, e.row))
    ensures e.DeleteRow? && e.row < |s.contacts| ==> o == Moved(HandleDelete(s, e.row))
  {
    match e
    case Change(f, v) => Moved(HandleChange(s, f, v))
    case Submit =>
      if s.editIndex.None? then Moved(HandleAdd(s))
      else if s.editIndex.value <= |s.contacts| then Moved(HandleSave(s))
      else SparseWrite
    case EditRow(i) => if i < |s.contacts| then Moved(HandleEdit(s, i)) else NotOffered
    case DeleteRow(i) => if i < |s.contacts| then Moved(HandleDelete(s, i)) else NotOffered
  }

  /** A run of actions from `s`, stopping at the first one that does not move. */
  function Run(s: State, evs: seq<Event>): Outcome
    decreases |evs|
  {
    if |evs| == 0 then Moved(s)
    else
      match Step(s, evs[0])
      case Moved(t) => Run(t, evs[1..])
      case other => other
  }

  /** Running two lists of actions one after the other is running their
      concatenation: the second list starts where the first one stopped. */
  lemma {:induction false} RunAppend(s: State, a: seq<Event>, b: seq<Event>)
    ensures Run(s, a + b) == if Run(s, a).Moved? then Run(Run(s, a).next, b) else Run(s, a)
    decreases |a|
  {
    if |a| == 0 {
      assert a + b == b;
    } else {
      assert (a + b)[0] == a[0];
      assert (a + b)[1..] == a[1..] + b;
      if Step(s, a[0]).Moved? {
        RunAppend(Step(s, a[0]).next, a[1..], b);
      }
    }
  }

  /** The edit index after a run, read off the actions alone: the row of the last
      edit action, unless a submit came after it; `current` when neither occurs. */
  function LastEditTarget(evs: seq<Event>, current: Option<nat>): Option<nat>
    decreases |evs|
  {
    if |evs| == 0 then current
    else
      var next := match evs[0]
        case EditRow(i) => Some(i)
        case Submit => None
        case _ => current;
      LastEditTarget(evs[1..], next)
  }

  /** Only edit and submit actions move the edit index, and deletions never
      adjust it: after any completed run it is the row last opened for editing,
      or none if a submit followed. */
  lemma {:induction false} RunEditIndexIsLastEdit(s: State, evs: seq<Event>)
    requires Run(s, evs).Moved?
    ensures Run(s, evs).next.editIndex == LastEditTarget(evs, s.editIndex)
    decreases |evs|
  {
    if |evs| > 0 {
      var t := Step(s, evs[0]).next;
      RunEditIndexIsLastEdit(t, evs[1..]);
    }
  }

  /** From the initial state the page is in add mode after a completed run
      exactly when no edit action is left unanswered by a later submit. */
  lemma AddModeAfterRun(evs: seq<Event>)
    requires Run(Init, evs).Moved?
    ensures AddOffered(Run(Init, evs).next) <==> LastEditTarget(evs, None).None?
  {
    RunEditIndexIsLastEdit(Init, evs);
  }

  /** Every action but a deletion keeps the edit index pointing at an existing row. */
  lemma StepKeepsEditTarget(s: State, e: Event)
    requires EditTargetExists(s) && !e.DeleteRow? && Step(s, e).Moved?
    ensures EditTargetExists(Step(s, e).next)
  {
  }

  /** Without deletions a run never writes past the end of the list and never
      stops on a sparse write; the edit index keeps naming an existing row. */
  lemma {:induction false} RunWithoutDeleteKeepsEditTarget(s: State, evs: seq<Event>)
    requires EditTargetExists(s)
    requires forall k :: 0 <= k < |evs| ==> !evs[k].DeleteRow?
    ensures !Run(s, evs).SparseWrite?
    ensures Run(s, evs).Moved? ==> EditTargetExists(Run(s, evs).next)
    decreases |evs|
  {
    if |evs| > 0 {
      assert !evs[0].DeleteRow?;
      var o := Step(s, evs[0]);
      if o.Moved? {
        StepKeepsEditTarget(s, evs[0]);
        assert forall k :: 0 <= k < |evs[1..]| ==> !evs[1..][k].DeleteRow? by {
          forall k | 0 <= k < |evs[1..]| ensures !evs[1..][k].DeleteRow? {
            assert evs[1..][k] == evs[k + 1];
          }
        }
        RunWithoutDeleteKeepsEditTarget(o.next, evs[1..]);
      }
    }
  }

  /** Deleting a row above the one being edited, then saving, overwrites the
      contact that moved into the edited row's old position; the contact that was
      opened for editing stays in the list, one row higher and unchanged. */
  lemma SaveAfterDeletingEarlierRow(s: State, j: nat)
    requires s.editIndex.Some? && j < s.editIndex.value && s.editIndex.value + 1 < |s.contacts|
    ensures var i := s.editIndex.value;
      var t := HandleSave(HandleDelete(s, j));
      && |t.contacts| == |s.contacts| - 1
      && t.contacts[i - 1] == s.contacts[i]
      && t.contacts[i] == s.draft
      && (forall k :: i < k < |t.contacts| ==> t.contacts[k] == s.contacts[k + 1])
  {
  }

  /** Deleting the last row while it is being edited, then saving, puts the
      draft back at the end: the deletion is undone by the save. */
  lemma SaveAfterDeletingEditedLastRow(s: State)
    requires |s.contacts| > 0 && s.editIndex == Some(|s.contacts| - 1)
    ensures HandleSave(HandleDelete(s, |s.contacts| - 1)).contacts
            == s.contacts[..|s.contacts| - 1] + [s.draft]
  {
  }

  /** Saving performs no emptiness check: from the initial state, add a contact,
      open it, clear its name and save, and the list holds a nameless contact. */
  lemma SaveStoresEmptyName()
    ensures var evs := [Change(Name, "a"), Change(Email, "b"), Change(Phone, "c"), Submit,
                        EditRow(0), Change(Name, ""), Submit];
      && Run(Init, evs).Moved?
      && Run(Init, evs).next.contacts == [Contact("", "b", "c")]
  {
  }

  /** Typing a contact's three fields into the form, then pressing the button. */
  function TypeAndSubmit(c: Contact): seq<Event> {
    [Change(Name, c.name), Change(Email, c.email), Change(Phone, c.phone), Submit]
  }

  /** In add mode with a cleared form, typing a contact with no empty field and
      pressing the button appends that contact and clears the form again. */
  lemma TypeAndAdd(s: State, c: Contact)
    requires s.editIndex.None? && s.draft == Blank && Filled(c)
    ensures Run(s, TypeAndSubmit(c)) == Moved(State(s.contacts + [c], Blank, None))
  {
    var evs := TypeAndSubmit(c);
    var s1 := HandleChange(s, Name, c.name);
    var s2 := HandleChange(s1, Email, c.email);
    var s3 := HandleChange(s2, Phone, c.phone);
    assert s3.draft == c;
    assert Run(s3, evs[3..]) == Moved(HandleAdd(s3));
    assert Run(s2, evs[2..]) == Run(s3, evs[3..]);
    assert Run(s1, evs[1..]) == Run(s2, evs[2..]);
  }

  /** From any state with three rows, opening the last row and deleting the
      first row twice leaves an edit index past the end of the one remaining
      row, so the save that follows would write beyond the list. */
  lemma StaleTailPastEnd(s: State)
    requires |s.contacts| == 3
    ensures Run(s, [EditRow(2), DeleteRow(0), DeleteRow(0), Submit]).SparseWrite?
  {
  }

  /** The stale edit index can run past the end: from the initial state add any
      three contacts with no empty field, open the last, delete the first row
      twice, and the save would write beyond the list. */
  lemma StaleIndexPastEnd(a: Contact, b: Contact, c: Contact)
    requires Filled(a) && Filled(b) && Filled(c)
    ensures Run(Init, TypeAndSubmit(a) + TypeAndSubmit(b) + TypeAndSubmit(c)
                      + [EditRow(2), DeleteRow(0), DeleteRow(0), Submit]).SparseWrite?
  {
    var tail := [EditRow(2), DeleteRow(0), DeleteRow(0), Submit];
    var ta, tb, tc := TypeAndSubmit(a), TypeAndSubmit(b), TypeAndSubmit(c);
    TypeAndAdd(Init, a);
    assert Run(Init, ta) == Moved(State([a], Blank, None));
    TypeAndAdd(State([a], Blank, None), b);
    assert [a] + [b] == [a, b];
    RunAppend(Init, ta, tb);
    assert Run(Init, ta + tb) == Moved(State([a, b], Blank, None));
    TypeAndAdd(State([a, b], Blank, None), c);
    assert [a, b] + [c] == [a, b, c];
    RunAppend(Init, ta + tb, tc);
    assert Run(Init, ta + tb + tc) == Moved(State([a, b, c], Blank, None));
    StaleTailPastEnd(State([a, b, c], Blank, None));
    RunAppend(Init, ta + tb + tc, tail);
  }
}
