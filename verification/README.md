# To-do list page, modelled in Dafny

A model of the task list in `script.js`: a text field and an "Add Task"
button create list rows. Each row has a "Remove" button. The list is kept
in the browser's local storage under the key `"tasks"` as a JSON array of
strings, and it is replayed into the page when the page loads.

The DOM and `localStorage` are replaced by one immutable value, `TaskList.Page`:

- `stored`: the array under `"tasks"`, or `None` while the key is absent;
- `rows`: the rendered `<li>` elements in display order;
- `input`: the text in the field;
- `alerts`: how many "Please enter a task." alerts have been shown;
- `nextId`: a counter that gives each created row its own identity. Two rows
  with the same text are still two elements, and each remove button is bound
  to its own row.

Every handler is a pure function from page to page:

- `AddTask` models `addTask(param, save)`. `Param` records what
  `typeof taskTextParam` distinguishes: `Undefined`, `Str(s)`, or `Obj`
  (the `MouseEvent` the click listener passes).
- `Remove` models the per-row remove closure.
- `LoadTasks` models `loadTasks`. `LoadTasksForEach` models its `forEach` loop.
- `OnAddClick`, `OnKeyPress` and `OnPageLoad` model the event listeners.
- `Step` and `Run` replay a session of user actions.

`Text.Trim` is `String.prototype.trim` over ECMAScript's WhiteSpace and
LineTerminator characters. `Seqs.RemoveAll` is the `filter(task => task !== taskText)` of the
remove closure.

### Where the behaviour is not what one might expect

One might expect a remove button to take out one stored entry, the one its
row came from, and to leave storage alone when nothing matches. The code at
`script.js:39-40` instead filters out every stored copy of the row's text,
and it always writes the key back. The model follows the code:

- `DuplicateRemovalDiverges` proves that when a text is stored twice,
  removing one of its rows wipes every stored copy while the other rows
  stay on screen.
- `RemoveKeepsMirrorIffUnique` proves that storage and display stay in step
  exactly when the removed text was stored once.

One might also expect every blank submission to alert.
In the code only the Enter key alerts. The click listener hands its event
object to `addTask`, so a blank click is ignored silently.
`ClickAndEnterAgreeIffNotBlank` states this.

Rows show the trimmed text, but storage keeps whatever was stored, and the
remove button filters by the trimmed text. So a stored entry with white
space around it survives the removal of its row and comes back on the next
load. `UntrimmedEntryOutlivesRemoval` states this. The entries the page
itself saves are always trimmed, so only a list written by other means is
affected.

A successful `addTask` clears the field even when its text came from a
string argument. So a page load that renders at least one row also empties
the field. `Replay` states this.

## Model

| member | source | states |
|---|---|---|
| Text.IsWs | script.js:12-14 | the characters `trim` strips: within ASCII exactly TAB, LF, VT, FF, CR and space, and nothing beyond the Basic Multilingual Plane |
| Text.Trim | script.js:12-14 | the trimmed text neither starts nor ends with white space, and it is empty exactly when the input is all white space |
| Text.TrimIsCore | script.js:12-14 | any slice of the input that is itself trimmed and has only white space around it is the trim |
| Text.TrimIdempotent | script.js:12-14 | trimming an already trimmed text changes nothing |
| Text.TrimmedIsFixed | script.js:12-14 | a text with no white space at either end is its own trim |
| Seqs.RemoveAll | script.js:39 | the filtered array is never longer than the input; what it keeps is stated by RemoveAllCounts and RemoveAllIsSubsequence |
| Seqs.RemoveAllCounts | script.js:39 | the filtered array has no copy of the removed text, every other text keeps its number of occurrences, and the array shrinks by exactly the number of copies removed |
| Seqs.RemoveAllIsSubsequence | script.js:39 | the surviving entries keep their relative order |
| Seqs.RemoveAllAppend | script.js:39 | filtering handles each element on its own, so it distributes over concatenation |
| Seqs.RemoveAllAbsent | script.js:39 | filtering a text that is not stored leaves the array unchanged |
| Seqs.RemoveAllIdempotent | script.js:39 | filtering the same text twice is the same as filtering it once |
| Seqs.RemoveAllSingle | script.js:39 | when the text occurs once, filtering deletes just that position |
| TaskList.Submitted | script.js:12-14 | the text `addTask` works with is trimmed, and it is empty exactly when the string argument, or the field when there is no string argument, is all white space |
| TaskList.Tasks | script.js:60 | the stored array as the page reads it (the same read as at lines 38 and 49): the stored value, or [] while the key is absent |
| TaskList.Opened | script.js:2-7 | the page the handlers first find: storage as given, no rows, an empty field, no alerts, and distinct identities |
| TaskList.AddTask | script.js:10-56 | blank text: nothing changes except one alert, and only when the argument was undefined; otherwise one fresh row with the trimmed text is appended, the field is cleared, and with save the trimmed text becomes the last stored entry while earlier entries stay as they were; without save, storage is untouched |
| TaskList.OnAddClick | script.js:65 | a click reads the field; a blank field leaves the page exactly as it was, with no alert; otherwise the trimmed field is appended to both rows and storage |
| TaskList.OnKeyPress | script.js:66-70 | keys other than Enter do nothing; Enter on a blank field only alerts; otherwise it adds like a click |
| TaskList.ClickAndEnterAgreeIffNotBlank | script.js:65-69 | click and Enter give the same page exactly when the field is not blank, and on a blank field Enter alerts once more than click |
| TaskList.FindRow | script.js:36 | finds the position of the row with the given identity, or reports that no rendered row has it |
| TaskList.Remove | script.js:35-41 | fails exactly when the row is not rendered; otherwise it cuts exactly that row out of the display and stores the old array filtered of the row's text, with field, alerts and counter unchanged |
| TaskList.RemoveRowAt | script.js:35-41 | with distinct identities, the remove button of the row at k removes the row at k |
| TaskList.RemoveDropsEveryCopy | script.js:36-40 | after removal the row's text is not stored at all, other texts keep their counts and order, one fewer row shows that text, and the row's identity is gone |
| TaskList.RemoveSameTextTwice | script.js:38-40 | removing a second row with the same text rewrites storage unchanged |
| TaskList.RemoveAbsentText | script.js:36-40 | removing a row whose text is no longer stored succeeds and writes back the stored list unchanged |
| TaskList.RemoveKeepsWellFormed | script.js:36 | after removal, row identities are still distinct and below the counter |
| TaskList.RemoveKeepsMirrorIffUnique | script.js:36-40 | from mirrored state, storage and display stay mirrored after a removal exactly when the text was stored once |
| TaskList.DuplicateRemovalDiverges | script.js:36-39 | with the text stored at least twice, removal leaves no stored copy, still shows a row with that text, and breaks the mirror |
| TaskList.RemoveAllKeepsClean | script.js:39-40 | filtering an array of non-empty trimmed entries leaves only such entries |
| TaskList.AddTaskKeepsMirror | script.js:44-52 | a saved submission keeps rows and storage mirrored |
| TaskList.AddTaskKeepsClean | script.js:12-52 | every stored entry stays non-empty and trimmed |
| TaskList.AddTaskKeepsWellFormed | script.js:25-45 | a new row gets an identity no other row has |
| TaskList.Rendered | script.js:59-61 | loading renders at most one row per stored entry; which rows, for every list, is stated by RenderedOne and RenderedAppend |
| TaskList.RenderedOne | script.js:12-21 | one stored entry renders as its trimmed text, or as nothing when it is blank |
| TaskList.RenderedAppend | script.js:61 | each entry is rendered on its own, so rendering distributes over concatenation |
| TaskList.RenderedIsClean | script.js:59-61 | every row that loading renders carries a non-empty trimmed text |
| TaskList.RenderedClean | script.js:59-61 | a stored array of non-empty trimmed texts renders as itself |
| TaskList.Replay | script.js:61 | replaying entries without saving appends one fresh row per non-blank entry, in order, after the existing rows; it leaves storage and alerts untouched and clears the field if it rendered anything |
| TaskList.ReplaySnoc | script.js:61 | replaying one more entry is one more `addTask(entry, false)` |
| TaskList.LoadTasks | script.js:59-62 | loading never writes storage, so an absent key stays absent; it never alerts, renders the trimmed non-blank stored entries after the existing rows, and keeps identities distinct |
| TaskList.LoadTasksForEach | script.js:59-62 | the `forEach` loop computes the same page as the replay |
| TaskList.OnPageLoad | script.js:72-73 | a freshly opened page renders exactly the trimmed non-blank stored entries, with identities 0, 1, …, and neither alerts nor writes |
| TaskList.ReloadRendersStorage | script.js:48-61 | reloading a clean stored array renders exactly that array, so storage and display are mirrored |
| TaskList.StepKeepsInvariant | script.js:10-70 | each handler keeps row identities distinct and stored entries non-empty and trimmed |
| TaskList.RunKeepsInvariant | script.js:65-70 | any sequence of handled events keeps that invariant |
| TaskList.Step | script.js:35-70 | one handled event alerts only when it is Enter, and then once; it adds or removes at most one row; the identity counter never goes back |
| TaskList.Run | script.js:65-70 | a session of n events shows at most n alerts, changes the number of rows by at most n, and never reuses an identity counter value |
| TaskList.SessionThenReload | script.js:48-73 | after any session that began with a page load on a stored list of non-empty trimmed texts, reopening the page renders exactly what is stored |
| TaskList.FirstVisitThenReload | script.js:48-73 | after any session that began with the key absent, reopening the page renders exactly what is stored |
| TaskList.LoadOne | script.js:59-61 | opening the page on one non-blank entry renders its trimmed text as row 0 and leaves storage as it was |
| TaskList.UntrimmedEntryOutlivesRemoval | script.js:12-61 | a stored entry with white space around it is shown trimmed; removing its row rewrites storage unchanged, so storage and display disagree |
| Scenarios.BlankSubmissions | script.js:17-21 | on a page loaded with ["A"], a blank field gives exactly one alert on Enter and leaves the page unchanged on click |
| Scenarios.LoadTwo | script.js:59-61 | opening the page on two non-empty trimmed entries renders them as rows 0 and 1 and leaves storage as it was |
| Scenarios.RemoveDuplicate | script.js:35-41 | removing the first "A" of the rows A, B, A leaves rows B, A but storage ["B"] |

## Left out

- Seqs.RemoveAll: its own contract states only that the result is no longer than the input. Its counts and order are stated by the lemmas RemoveAllCounts and RemoveAllIsSubsequence, kept apart so that proofs which unfold the filter stay cheap.
- TaskList.Rendered: its own contract states only the length bound. What it renders is stated for every list by RenderedOne and RenderedAppend, for the same reason.
- TaskList.SessionThenReload: holds only when the list stored at the start is clean. For other lists, UntrimmedEntryOutlivesRemoval shows that a reload need not match storage.

- Other tabs and scripts are not modelled. `localStorage` is shared by every tab of the origin, and the code re-reads the key on each add (script.js:49) and each remove (script.js:38), so writes by another tab get merged in. No `Action` writes `stored` from outside. `Step`, `Run`, `RunKeepsInvariant`, `SessionThenReload`, `FirstVisitThenReload` and the `Mirror` lemmas therefore assume this page is the only writer of `"tasks"`.
- The HTML markup is not part of this model. `Opened` assumes the page starts with an empty list and an empty input field.
- DOM plumbing is left out: `createElement`, `appendChild`, `classList`, the button label and the listener wiring. Its effects appear only as changes to `rows` and `alerts`.
- `localStorage` and JSON are left out. The stored array is modelled directly as `Option<seq<string>>`. Malformed stored JSON makes `JSON.parse` throw, and that path is not modelled. Stored values that are not strings cannot occur in this model.
- Storage failures are left out: a full quota or disabled storage would make `setItem` throw.
- Typing into the field is the browser's doing, not the script's. It appears only as the `Type` action of a session.
- JavaScript strings are UTF-16 code units, while Dafny's `char` is a Unicode scalar value. Lone surrogates are not modelled.
- The white-space set follows the Unicode Zs category as of Unicode 15. Later Unicode versions could change it.
- Calling a remove button whose row is already detached cannot happen through the page, because the button is no longer in the document. `Remove` models `removeChild` throwing `NotFoundError`, and `Step` then leaves the page as it was.
