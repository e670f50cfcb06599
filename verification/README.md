# Contact manager state machine

A Dafny model of the contact-list component of the Contact-Manager web
application (`src/components/ContactManager.jsx`). The component keeps three
pieces of React state: the list of contacts (`name`, `email`, `phone`
records), the form draft `newContact`, and `editIndex`, which is `null` while
the form adds a contact and a row number while it edits one. Five handlers
change that state: typing into an input, adding the draft, opening a row for
editing, saving the draft over the edited row, and deleting a row. A single
button beside the form runs save while a row is being edited and add
otherwise.

The model has one immutable `State` value and one pure function per handler
(`ContactManager`), the two JavaScript array operations they rely on
(`JsArrays`: `filter` by index, and an index write that appends at
`length`), the record and its fields (`Contacts`), and the page's event
dispatch with lemmas about runs of user actions (`Session`).

The component has no ids, timestamps, format validation, search or
persistence, so none are modelled. Adding checks only that no field is the
empty string, and saving checks nothing.

A deletion does not adjust `editIndex`. After deleting a row above the one
being edited, save overwrites the wrong contact
(`Session.SaveAfterDeletingEarlierRow`). When the stale index equals the
new length, the write appends; that is modelled (`HandleSave` requires
`editIndex <= |contacts|`). When it is beyond the length, the JavaScript
write would leave holes in the array. `Session.Step` reports that case as the
outcome `SparseWrite` instead of modelling holes, and
`Session.StaleIndexPastEnd` shows that it is reachable from the initial state.

## Model

| member | source | states |
|---|---|---|
| Contacts.Set | src/components/ContactManager.jsx:12 | the spread `{...draft, [name]: value}` gives the named field the new value and keeps the other two |
| Contacts.FieldsDetermineContact | src/components/ContactManager.jsx:12 | two records with equal name, email and phone are the same record |
| Contacts.SetOwnValue | src/components/ContactManager.jsx:12 | writing a field's current value back leaves the record unchanged |
| Contacts.SetTwice | src/components/ContactManager.jsx:12 | of two writes to the same field only the later one matters |
| Contacts.FilledIffNoEmptyField | src/components/ContactManager.jsx:16 | the add guard passes exactly when none of the three fields is the empty string (JavaScript falsiness of strings) |
| Contacts.BlankNotFilled | src/components/ContactManager.jsx:16-18 | the cleared form never passes the add guard |
| JsArrays.KeepOthers | src/components/ContactManager.jsx:35 | filtering by position from a starting point drops one element when the excluded position lies ahead, otherwise none |
| JsArrays.FilterIndex | src/components/ContactManager.jsx:35 | `filter((_, i) => i !== index)` shortens the list by one for an in-range index and keeps its length otherwise |
| JsArrays.KeepOthersSlices | src/components/ContactManager.jsx:35 | the filter scan keeps every element except the one at the excluded position, in order |
| JsArrays.FilterIndexSlices | src/components/ContactManager.jsx:35 | filtering out an in-range index equals the list with that element cut out; an out-of-range index (negative or too large) leaves the list as is |
| JsArrays.FilterIndexMultiset | src/components/ContactManager.jsx:35 | filtering out position k removes one occurrence of the element at k and nothing else |
| JsArrays.Assign | src/components/ContactManager.jsx:27-28 | copying the array and writing index i puts the value at i and keeps every other element; i equal to the length appends |
| JsArrays.AssignOwnValue | src/components/ContactManager.jsx:27-28 | writing an element back at its own index leaves the array equal to the original |
| ContactManager.HandleChange | src/components/ContactManager.jsx:11-13 | typing sets exactly the named draft field; the other two fields, the list and the edit index are unchanged |
| ContactManager.HandleAdd | src/components/ContactManager.jsx:15-19 | with no empty field the draft becomes the new last element, earlier elements and the edit index are kept and the form is cleared; with any empty field nothing changes |
| ContactManager.HandleEdit | src/components/ContactManager.jsx:21-24 | opening row i loads that contact into the form and records i as the edit index; the list is unchanged |
| ContactManager.HandleSave | src/components/ContactManager.jsx:26-32 | the draft lands at the edit index whatever its contents, every other position keeps its contact, the length is kept (grows by one for an index equal to the length), edit mode ends and the form is cleared |
| ContactManager.HandleDelete | src/components/ContactManager.jsx:34-36 | an in-range row is cut out with the others kept in order and the length one less; an out-of-range index changes nothing; the draft and edit index are never touched |
| ContactManager.ChangeDeterminedByContract | src/components/ContactManager.jsx:11-13 | a state that differs from the old one only in the named draft field, which holds the typed value, is exactly the change handler's result |
| ContactManager.ChangeUndone | src/components/ContactManager.jsx:11-13 | typing a field's previous value back restores the whole state |
| ContactManager.AddAcceptsWhitespace | src/components/ContactManager.jsx:16-17 | a draft with a blank name and a blank phone number passes the add guard and is appended unchanged |
| ContactManager.AddAllowsDuplicates | src/components/ContactManager.jsx:16-17 | adding a contact already in the list stores one more copy of it |
| ContactManager.AddThenDeleteLast | src/components/ContactManager.jsx:15-36 | deleting the row just added restores the list |
| ContactManager.EditThenSaveKeepsList | src/components/ContactManager.jsx:21-32 | opening a row and saving it untouched leaves the list unchanged |
| ContactManager.DeleteRemovesOneOccurrence | src/components/ContactManager.jsx:34-36 | deleting a row removes one occurrence of its contact and keeps all others |
| ContactManager.DeleteTwiceShifts | src/components/ContactManager.jsx:34-36 | deleting the same row number twice removes that row and the one that moved up into it |
| Session.Step | src/components/ContactManager.jsx:76-124 | typing runs the change handler; the form button runs add in add mode and save while editing; the row buttons run edit and delete and exist only for listed rows; only an edit action enters edit mode, only a submit leaves it, and a submit always leaves it; a submit past the end of the list is reported as a sparse write |
| Session.RunAppend | src/components/ContactManager.jsx:11-36 | handlers run one after another on the state the previous one left: a run of two action lists is the second run started where the first stopped |
| Session.TypeAndAdd | src/components/ContactManager.jsx:11-19 | in add mode with a cleared form, typing any contact with no empty field and pressing the button appends that contact and clears the form |
| Session.StaleTailPastEnd | src/components/ContactManager.jsx:21-36 | from any state with three rows, opening the last row and deleting the first row twice makes the next save write beyond the end of the list |
| Session.RunEditIndexIsLastEdit | src/components/ContactManager.jsx:21-35 | after any completed run the edit index is the row of the last edit action, or none if a submit came after it; deletions never move it |
| Session.AddModeAfterRun | src/components/ContactManager.jsx:76-84 | starting from mount, the add button is shown after a run exactly when every edit action was followed by a submit |
| Session.StepKeepsEditTarget | src/components/ContactManager.jsx:15-32 | every action other than a deletion keeps the edit index on an existing row |
| Session.RunWithoutDeleteKeepsEditTarget | src/components/ContactManager.jsx:21-36 | a run without deletions keeps the edit index on an existing row and never writes past the end of the list |
| Session.SaveAfterDeletingEarlierRow | src/components/ContactManager.jsx:26-36 | after deleting a row above the edited one, save overwrites the contact that moved into the edited position while the opened contact survives one row higher |
| Session.SaveAfterDeletingEditedLastRow | src/components/ContactManager.jsx:26-36 | deleting the edited last row and then saving appends the draft, so the row comes back |
| Session.SaveStoresEmptyName | src/components/ContactManager.jsx:26-32 | save performs no emptiness check: a reachable run leaves a contact with an empty name in the list |
| Session.StaleIndexPastEnd | src/components/ContactManager.jsx:26-36 | from mount, adding any three contacts with no empty field, opening the last and deleting the first row twice makes the next save write beyond the end of the list |

## Left out

- Rendering of the form and the table (JSX, Bootstrap and Font Awesome classes): presentation only, no state logic.
- `src/components/LandingPage.jsx`: scroll, animation and navbar effects and an SDK hook; browser side effects with no stateable logic.
- `src/App.jsx` and `src/main.jsx`: the route table and React bootstrapping, thin wrappers over libraries whose code is not part of this model.
- React's asynchronous state batching: each handler is modelled as an atomic step that reads the state of the last render, which is how the handlers use it (none of them calls two setters that depend on each other).
- Sparse arrays: a save whose stale edit index is beyond the list length would create holes in the JavaScript array; `Session.Step` reports it as `SparseWrite` and the run stops there.
- ContactManager.HandleEdit: requires a row that exists, because the page only offers edit buttons for rendered rows; an out-of-range index would load `undefined` into the form and crash the next render, which is not modelled.
- JsArrays.Assign: requires an index at most the array length; a write further out would leave holes in the JavaScript array, which are not modelled (the sparse write above).
- ContactManager.HandleSave: requires an edit index at most the list length; the beyond-the-end case is the sparse write above.
- Ids, creation timestamps, email and phone format validation, search and local-storage persistence: the component has none of them.
