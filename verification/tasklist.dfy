/**
  The task list of script.js with the DOM and `localStorage` stripped away.

  A page holds the stored JSON array under key "tasks" (absent until first
  written), the rendered `<li>` rows in display order, the text of the input
  field, and a count of the alerts shown so far. Each rendered row carries an
  identity, because two rows with the same text are still two elements and
  each remove button is bound to its own row.
 */
module TaskList {
  import opened Wrappers
  import opened Text
  import opened Seqs

  /** One rendered `<li>`: `id` is the element's identity, `text` its label
      (the trimmed text the row was created with, which its remove button
      also captured). */
  datatype Row = Row(id: nat, text: string)

  /** What `typeof taskTextParam` distinguishes: no argument, a string, or
      anything else (the `MouseEvent` the click listener passes). */
  datatype Param = Undefined | Str(s: string) | Obj

  /** `removeChild` on an element that is not a child of the list. */
  datatype DomError = NotFoundError

  datatype Page = Page(
    stored: Option<seq<string>>,  // value under key "tasks"; None when the key is absent
    rows: seq<Row>,               // children of the task list, in display order
    input: string,                // value of the task input field
    alerts: nat,                  // "Please enter a task." alerts shown so far
    nextId: nat                   // identity the next created row will get
  )

  /** The stored array as the page reads it: an absent key reads as `[]`. */
  function Tasks(p: Page): (r: seq<string>)
    ensures p.stored.None? ==> r == []
    ensures p.stored.Some? ==> r == p.stored.value
  {
    p.stored.GetOr([])
  }

  /** The labels of the rendered rows, in display order. */
  function Texts(rows: seq<Row>): seq<string> {
    seq(|rows|, i requires 0 <= i < |rows| => rows[i].text)
  }

  /** Appending a row appends its label. */
  lemma TextsSnoc(rows: seq<Row>, row: Row)
    ensures Texts(rows + [row]) == Texts(rows) + [row.text]
  {
  }

  /** Stored list and rendered rows carry the same texts in the same order. */
  predicate Mirror(p: Page) {
    Texts(p.rows) == Tasks(p)
  }

  /** Every entry is a non-empty, already trimmed text, as `addTask` stores them. */
  predicate Clean(s: seq<string>) {
    forall i :: 0 <= i < |s| ==> s[i] != [] && Trimmed(s[i])
  }

  /** Joining two clean lists gives a clean list. */
  lemma CleanAppend(a: seq<string>, b: seq<string>)
    requires Clean(a) && Clean(b)
    ensures Clean(a + b)
  {
    forall i | 0 <= i < |a + b| ensures (a + b)[i] != [] && Trimmed((a + b)[i]) {
      if i < |a| {
        assert (a + b)[i] == a[i];
      } else {
        assert (a + b)[i] == b[i - |a|];
      }
    }
  }

  /** Filtering a clean list leaves a clean list. */
  lemma RemoveAllKeepsClean(s: seq<string>, t: string)
    requires Clean(s)
    ensures Clean(RemoveAll(s, t))
  {
    var r := RemoveAll(s, t);
    RemoveAllCounts(s, t);
    forall i | 0 <= i < |r| ensures r[i] != [] && Trimmed(r[i]) {
      assert r[i] in multiset(r);
      assert r[i] in s;
    }
  }

  /** Row identities are distinct and all below the next identity to hand out. */
  predicate WellFormed(p: Page) {
    && (forall i :: 0 <= i < |p.rows| ==> p.rows[i].id < p.nextId)
    && (forall i, j :: 0 <= i < j < |p.rows| ==> p.rows[i].id != p.rows[j].id)
  }

  /** The text `addTask` works with: the string argument trimmed, or else the
      input field trimmed. */
  function Submitted(p: Page, param: Param): (r: string)
    ensures Trimmed(r)
    ensures r == [] <==> AllWs(if param.Str? then param.s else p.input)
  {
    match param
    case Str(s) => Trim(s)
    case _ => Trim(p.input)
  }

  /** `addTask(param, save)`. */
  function AddTask(p: Page, param: Param, save: bool): (r: Page)
    // a blank submission changes nothing but, for a missing argument, the alert count
    ensures Submitted(p, param) == [] ==>
      r.stored == p.stored && r.rows == p.rows && r.input == p.input && r.nextId == p.nextId
    ensures r.alerts == p.alerts + 1 <==> Submitted(p, param) == [] && param.Undefined?
    ensures r.alerts == p.alerts || r.alerts == p.alerts + 1
    // a real submission renders one new row at the end and clears the field
    ensures Submitted(p, param) != [] ==>
      && r.rows == p.rows + [Row(p.nextId, Submitted(p, param))]
      && r.nextId == p.nextId + 1
      && r.input == ""
    // and, when saving, appends exactly that text to the stored list
    ensures Submitted(p, param) != [] && save ==> r.stored == Some(Tasks(p) + [Submitted(p, param)])
    ensures !save ==> r.stored == p.stored
  {
    var t := Submitted(p, param);
    if t == [] then
      if param.Undefined? then p.(alerts := p.alerts + 1) else p
    else
      p.(rows := p.rows + [Row(p.nextId, t)],
         nextId := p.nextId + 1,
         stored := if save then Some(Tasks(p) + [t]) else p.stored,
         input := "")
  }

  /** The add button's click listener: `addTask(event)`, so the field is read
      and an empty field is ignored without an alert. */
  function OnAddClick(p: Page): (r: Page)
    ensures Trim(p.input) == [] ==> r == p
    ensures Trim(p.input) != [] ==>
      && Texts(r.rows) == Texts(p.rows) + [Trim(p.input)]
      && Tasks(r) == Tasks(p) + [Trim(p.input)]
      && r.input == ""
      && r.alerts == p.alerts
  {
    TextsSnoc(p.rows, Row(p.nextId, Trim(p.input)));
    AddTask(p, Obj, true)
  }

  /** The input's keypress listener: `addTask()` on Enter, nothing otherwise. */
  function OnKeyPress(p: Page, key: string): (r: Page)
    ensures key != "Enter" ==> r == p
    ensures key == "Enter" && Trim(p.input) == [] ==> r == p.(alerts := p.alerts + 1)
    ensures key == "Enter" && Trim(p.input) != [] ==>
      && Texts(r.rows) == Texts(p.rows) + [Trim(p.input)]
      && Tasks(r) == Tasks(p) + [Trim(p.input)]
      && r.input == ""
      && r.alerts == p.alerts
  {
    TextsSnoc(p.rows, Row(p.nextId, Trim(p.input)));
    if key == "Enter" then AddTask(p, Undefined, true) else p
  }

  /** Click and Enter do the same thing exactly when the field is not blank;
      on a blank field only Enter alerts. */
  lemma ClickAndEnterAgreeIffNotBlank(p: Page)
    ensures OnKeyPress(p, "Enter") == OnAddClick(p) <==> Trim(p.input) != []
    ensures Trim(p.input) == [] ==> OnKeyPress(p, "Enter").alerts == OnAddClick(p).alerts + 1
  {
  }

  /** Position of the row with identity `id`, if it is rendered. */
  function FindRow(rows: seq<Row>, id: nat): (r: Option<nat>)
    ensures r.Some? ==> r.value < |rows| && rows[r.value].id == id
    ensures r.None? <==> forall i :: 0 <= i < |rows| ==> rows[i].id != id
    decreases |rows|
  {
    if rows == [] then None
    else if rows[0].id == id then Some(0)
    else
      match FindRow(rows[1..], id)
      case None => None
      case Some(k) => Some(k + 1)
  }

  /** The remove button of row `id`: detach the row, then rewrite the stored
      list without any entry equal to the row's text. Detaching a row that is
      not rendered throws before storage is touched. */
  function Remove(p: Page, id: nat): (r: Result<Page, DomError>)
    ensures r.Failure? <==> forall i :: 0 <= i < |p.rows| ==> p.rows[i].id != id
    ensures r.Success? ==>
      exists k :: (&& 0 <= k < |p.rows| && p.rows[k].id == id
                   && r.value.rows == p.rows[..k] + p.rows[k + 1..]
                   && Tasks(r.value) == RemoveAll(Tasks(p), p.rows[k].text))
    ensures r.Success? ==>
      && r.value.stored.Some?
      && r.value.input == p.input
      && r.value.alerts == p.alerts
      && r.value.nextId == p.nextId
  {
    match FindRow(p.rows, id)
    case None => Failure(NotFoundError)
    case Some(k) =>
      Success(p.(rows := p.rows[..k] + p.rows[k + 1..],
                 stored := Some(RemoveAll(Tasks(p), p.rows[k].text))))
  }

  /** With distinct identities, the remove button of the row at `k` removes
      that row. */
  lemma RemoveRowAt(p: Page, k: nat)
    requires WellFormed(p) && k < |p.rows|
    ensures Remove(p, p.rows[k].id) == Success(p.(rows := p.rows[..k] + p.rows[k + 1..],
                                                  stored := Some(RemoveAll(Tasks(p), p.rows[k].text))))
  {
    var f := FindRow(p.rows, p.rows[k].id);
    assert f.Some?;
    assert f.value == k;
  }

  /** Texts of a row sequence with one row cut out. */
  lemma TextsWithout(rows: seq<Row>, k: nat)
    requires k < |rows|
    ensures Texts(rows[..k] + rows[k + 1..]) == Texts(rows)[..k] + Texts(rows)[k + 1..]
  {
  }

  /** Removing a row: every stored copy of its text disappears, other stored
      entries keep their multiplicity and their relative order, one fewer row
      shows that text, and the row's identity is no longer rendered. */
  lemma RemoveDropsEveryCopy(p: Page, k: nat)
    requires WellFormed(p) && k < |p.rows|
    ensures var r := Remove(p, p.rows[k].id).value;
      && p.rows[k].text !in Tasks(r)
      && (forall u :: u != p.rows[k].text ==> Count(Tasks(r), u) == Count(Tasks(p), u))
      && IsSubsequence(Tasks(r), Tasks(p))
      && Count(Texts(r.rows), p.rows[k].text) == Count(Texts(p.rows), p.rows[k].text) - 1
      && (forall i :: 0 <= i < |r.rows| ==> r.rows[i].id != p.rows[k].id)
  {
    var t := p.rows[k].text;
    RemoveRowAt(p, k);
    var r := Remove(p, p.rows[k].id).value;
    assert Tasks(r) == RemoveAll(Tasks(p), t);
    RemoveAllCounts(Tasks(p), t);
    assert multiset(Tasks(r))[t] == 0;
    assert r.rows == p.rows[..k] + p.rows[k + 1..];
    RemoveAllIsSubsequence(Tasks(p), t);
    RemovedRowCount(p.rows, k);
    RemovedRowGone(p, k);
  }

  /** Cutting out the row at `k` lowers the count of its text by one. */
  lemma RemovedRowCount(rows: seq<Row>, k: nat)
    requires k < |rows|
    ensures Count(Texts(rows[..k] + rows[k + 1..]), rows[k].text) == Count(Texts(rows), rows[k].text) - 1
  {
    var t := rows[k].text;
    TextsWithout(rows, k);
    var ts := Texts(rows);
    assert ts == ts[..k] + [t] + ts[k + 1..];
    assert multiset(ts) == multiset(ts[..k]) + multiset{t} + multiset(ts[k + 1..]);
  }

  /** With distinct identities, the removed row's identity is not rendered any more. */
  lemma RemovedRowGone(p: Page, k: nat)
    requires WellFormed(p) && k < |p.rows|
    ensures var rest := Remove(p, p.rows[k].id).value.rows;
      forall i :: 0 <= i < |rest| ==> rest[i].id != p.rows[k].id
  {
    RemoveRowAt(p, k);
    var rest := p.rows[..k] + p.rows[k + 1..];
    forall i | 0 <= i < |rest| ensures rest[i].id != p.rows[k].id {
      if i < k {
        assert rest[i] == p.rows[i];
      } else {
        assert rest[i] == p.rows[i + 1];
      }
    }
  }

  /** Removal is idempotent on storage: removing a second row with the same
      text rewrites the stored list unchanged. */
  lemma RemoveSameTextTwice(p: Page, i: nat, j: nat)
    requires WellFormed(p) && i < |p.rows| && j < |p.rows| && i != j
    requires p.rows[i].text == p.rows[j].text
    ensures Remove(p, p.rows[i].id).Success?
    ensures var p1 := Remove(p, p.rows[i].id).value;
      && Remove(p1, p.rows[j].id).Success?
      && Tasks(Remove(p1, p.rows[j].id).value) == Tasks(p1)
  {
    RemoveRowAt(p, i);
    var p1 := Remove(p, p.rows[i].id).value;
    var j1 := if j < i then j else j - 1;
    assert p1.rows[j1] == p.rows[j];
    RemoveKeepsWellFormed(p, i);
    RemoveDropsEveryCopy(p, i);
    RemoveAbsentText(p1, j1);
  }

  /** Removing a row whose text is no longer stored leaves storage as it was
      (an absent key becomes an empty list). */
  lemma RemoveAbsentText(p: Page, k: nat)
    requires WellFormed(p) && k < |p.rows|
    requires p.rows[k].text !in Tasks(p)
    ensures Remove(p, p.rows[k].id).Success?
    ensures Tasks(Remove(p, p.rows[k].id).value) == Tasks(p)
  {
    RemoveRowAt(p, k);
    RemoveAllAbsent(Tasks(p), p.rows[k].text);
  }

  /** Removing a row keeps identities distinct and fresh. */
  lemma RemoveKeepsWellFormed(p: Page, k: nat)
    requires WellFormed(p) && k < |p.rows|
    ensures WellFormed(Remove(p, p.rows[k].id).value)
  {
    RemoveRowAt(p, k);
    CutKeepsWellFormed(p, k);
  }

  /** Cutting one row out keeps identities distinct and below the counter. */
  lemma CutKeepsWellFormed(p: Page, k: nat)
    requires WellFormed(p) && k < |p.rows|
    ensures WellFormed(p.(rows := p.rows[..k] + p.rows[k + 1..]))
  {
    var rows := p.rows[..k] + p.rows[k + 1..];
    forall a | 0 <= a < |rows| ensures rows[a] == p.rows[if a < k then a else a + 1] {
    }
  }

  /** Starting from mirrored state, a removal keeps storage and display
      mirrored exactly when the removed text was stored once. */
  lemma RemoveKeepsMirrorIffUnique(p: Page, k: nat)
    requires WellFormed(p) && Mirror(p) && k < |p.rows|
    ensures Mirror(Remove(p, p.rows[k].id).value) <==> Count(Tasks(p), p.rows[k].text) == 1
  {
    var t := p.rows[k].text;
    var ts := Texts(p.rows);
    RemoveRowAt(p, k);
    var r := Remove(p, p.rows[k].id).value;
    TextsWithout(p.rows, k);
    assert ts[k] == t;
    if Count(ts, t) == 1 {
      RemoveAllSingle(ts, t, k);
    } else {
      assert t in multiset(ts);
      RemoveAllCounts(ts, t);
      assert |Tasks(r)| < |Texts(r.rows)|;
    }
  }

  /** With duplicate texts, removing one of their rows wipes every stored copy
      while the other rows stay on screen: storage and display diverge. */
  lemma DuplicateRemovalDiverges(p: Page, k: nat)
    requires WellFormed(p) && Mirror(p) && k < |p.rows|
    requires Count(Tasks(p), p.rows[k].text) >= 2
    ensures var r := Remove(p, p.rows[k].id).value;
      && p.rows[k].text !in Tasks(r)
      && p.rows[k].text in Texts(r.rows)
      && !Mirror(r)
  {
    var t := p.rows[k].text;
    RemoveDropsEveryCopy(p, k);
    RemoveKeepsMirrorIffUnique(p, k);
    var r := Remove(p, p.rows[k].id).value;
    assert multiset(Texts(r.rows))[t] >= 1;
  }

  /** A saved submission keeps storage and display mirrored. */
  lemma AddTaskKeepsMirror(p: Page, param: Param)
    requires Mirror(p)
    ensures Mirror(AddTask(p, param, true))
  {
    var t := Submitted(p, param);
    if t != [] {
      var r := AddTask(p, param, true);
      assert r.rows == p.rows + [Row(p.nextId, t)];
      assert Tasks(r) == Tasks(p) + [t];
      TextsSnoc(p.rows, Row(p.nextId, t));
    }
  }

  /** Whatever `addTask` stores is non-empty and trimmed. */
  lemma AddTaskKeepsClean(p: Page, param: Param, save: bool)
    requires Clean(Tasks(p))
    ensures Clean(Tasks(AddTask(p, param, save)))
  {
    var t := Submitted(p, param);
    if t != [] && save {
      assert Tasks(AddTask(p, param, save)) == Tasks(p) + [t];
      CleanAppend(Tasks(p), [t]);
    }
  }

  /** A new row gets a fresh identity. */
  lemma AddTaskKeepsWellFormed(p: Page, param: Param, save: bool)
    requires WellFormed(p)
    ensures WellFormed(AddTask(p, param, save))
  {
  }

  /** The rows `loadTasks` renders for a stored list: one per entry that is
      not blank once trimmed, labelled with the trimmed entry, in stored order. */
  function Rendered(entries: seq<string>): (r: seq<string>)
    ensures |r| <= |entries|
    decreases |entries|
  {
    if entries == [] then []
    else
      var t := Trim(entries[0]);
      (if t == [] then [] else [t]) + Rendered(entries[1..])
  }

  /** Whatever `loadTasks` renders is non-empty and trimmed. */
  lemma {:induction false} RenderedIsClean(entries: seq<string>)
    ensures Clean(Rendered(entries))
    decreases |entries|
  {
    if entries != [] {
      var t := Trim(entries[0]);
      var head := if t == [] then [] else [t];
      assert Rendered(entries) == head + Rendered(entries[1..]);
      RenderedIsClean(entries[1..]);
      CleanAppend(head, Rendered(entries[1..]));
    }
  }

  /** A clean stored list renders as itself. */
  lemma {:induction false} RenderedClean(entries: seq<string>)
    requires Clean(entries)
    ensures Rendered(entries) == entries
    decreases |entries|
  {
    if entries != [] {
      var e, rest := entries[0], entries[1..];
      assert entries == [e] + rest;
      assert Clean(rest) by {
        forall i | 0 <= i < |rest| ensures rest[i] != [] && Trimmed(rest[i]) {
          assert rest[i] == entries[i + 1];
        }
      }
      RenderedClean(rest);
      RenderedCons(e, rest);
    }
  }

  /** One entry renders as its trimmed text, or as nothing when blank. */
  lemma RenderedOne(e: string)
    ensures Rendered([e]) == if Trim(e) == [] then [] else [Trim(e)]
  {
    assert [e][1..] == [];
  }

  /** Rendering treats each entry on its own, so it distributes over
      concatenation; with `RenderedOne` this fixes `Rendered` on every list. */
  lemma {:induction false} RenderedAppend(a: seq<string>, b: seq<string>)
    ensures Rendered(a + b) == Rendered(a) + Rendered(b)
    decreases |a|
  {
    if a == [] {
      assert a + b == b;
    } else {
      var t := Trim(a[0]);
      var head := if t == [] then [] else [t];
      assert (a + b)[0] == a[0] && (a + b)[1..] == a[1..] + b;
      RenderedAppend(a[1..], b);
      assert head + (Rendered(a[1..]) + Rendered(b)) == (head + Rendered(a[1..])) + Rendered(b);
    }
  }

  /** A clean head is rendered as itself in front of the rest. */
  lemma RenderedCons(e: string, rest: seq<string>)
    requires e != [] && Trimmed(e)
    ensures Rendered([e] + rest) == [e] + Rendered(rest)
  {
    TrimmedIsFixed(e);
    assert ([e] + rest)[1..] == rest;
  }

  /** `r` is `p` with one fresh row per text of `added` rendered after the
      existing rows, in order; storage and alerts untouched, and the field
      cleared if anything was added. */
  predicate AppendsRows(p: Page, added: seq<string>, r: Page) {
    && r.stored == p.stored
    && r.alerts == p.alerts
    && |r.rows| == |p.rows| + |added|
    && r.rows[..|p.rows|] == p.rows
    && (forall i :: 0 <= i < |added| ==> r.rows[|p.rows| + i] == Row(p.nextId + i, added[i]))
    && r.nextId == p.nextId + |added|
    && r.input == if added == [] then p.input else ""
  }

  /** Appending rows twice is appending both batches. */
  lemma AppendsRowsCompose(p: Page, a: seq<string>, q: Page, b: seq<string>, r: Page)
    requires AppendsRows(p, a, q) && AppendsRows(q, b, r)
    ensures AppendsRows(p, a + b, r)
  {
    assert r.rows[..|p.rows|] == r.rows[..|q.rows|][..|p.rows|];
    forall i | 0 <= i < |a + b| ensures r.rows[|p.rows| + i] == Row(p.nextId + i, (a + b)[i]) {
      if i < |a| {
        assert r.rows[|p.rows| + i] == r.rows[..|q.rows|][|p.rows| + i];
      } else {
        assert r.rows[|p.rows| + i] == r.rows[|q.rows| + (i - |a|)];
      }
    }
  }

  /** The labels of appended rows are the appended texts. */
  lemma AppendsRowsTexts(p: Page, added: seq<string>, r: Page)
    requires AppendsRows(p, added, r)
    ensures Texts(r.rows) == Texts(p.rows) + added
  {
    forall i | 0 <= i < |p.rows| ensures r.rows[i] == p.rows[i] {
      assert r.rows[..|p.rows|][i] == r.rows[i];
    }
    forall i | 0 <= i < |added| ensures r.rows[|p.rows| + i].text == added[i] {
    }
  }

  /** Appending fresh rows keeps identities distinct and fresh. */
  lemma AppendsRowsWellFormed(p: Page, added: seq<string>, r: Page)
    requires WellFormed(p) && AppendsRows(p, added, r)
    ensures WellFormed(r)
  {
    forall i | 0 <= i < |p.rows| ensures r.rows[i] == p.rows[i] {
      assert r.rows[..|p.rows|][i] == r.rows[i];
    }
    forall i | |p.rows| <= i < |r.rows| ensures r.rows[i].id == p.nextId + (i - |p.rows|) {
      assert r.rows[|p.rows| + (i - |p.rows|)] == Row(p.nextId + (i - |p.rows|), added[i - |p.rows|]);
    }
  }

  /** `entries.forEach(task => addTask(task, false))`. */
  function Replay(p: Page, entries: seq<string>): (r: Page)
    ensures AppendsRows(p, Rendered(entries), r)
    decreases |entries|
  {
    if entries == [] then p
    else
      var t := Trim(entries[0]);
      var head := if t == [] then [] else [t];
      var q := AddTask(p, Str(entries[0]), false);
      AddTaskAppendsRow(p, entries[0]);
      var r := Replay(q, entries[1..]);
      AppendsRowsCompose(p, head, q, Rendered(entries[1..]), r);
      r
  }

  /** A replayed entry appends its trimmed text as one row, or nothing when blank. */
  lemma AddTaskAppendsRow(p: Page, e: string)
    ensures AppendsRows(p, if Trim(e) == [] then [] else [Trim(e)], AddTask(p, Str(e), false))
  {
    if Trim(e) == [] {
      assert AddTask(p, Str(e), false) == p;
    } else {
      AddTaskAppendsOne(p, e, Trim(e));
    }
  }

  /** A non-blank replayed entry appends exactly one row. */
  lemma AddTaskAppendsOne(p: Page, e: string, t: string)
    requires t == Trim(e) && t != []
    ensures AppendsRows(p, [t], AddTask(p, Str(e), false))
  {
    var q := AddTask(p, Str(e), false);
    assert q.stored == p.stored && q.alerts == p.alerts;
    assert q.rows == p.rows + [Row(p.nextId, t)];
    assert q.rows[..|p.rows|] == p.rows;
    assert q.rows[|p.rows| + 0] == Row(p.nextId + 0, [t][0]);
  }

  /** One more entry replayed is one more `addTask(entry, false)`. */
  lemma {:induction false} ReplaySnoc(p: Page, entries: seq<string>, e: string)
    ensures Replay(p, entries + [e]) == AddTask(Replay(p, entries), Str(e), false)
    decreases |entries|
  {
    if entries == [] {
      assert [e][1..] == [];
    } else {
      assert (entries + [e])[1..] == entries[1..] + [e];
      ReplaySnoc(AddTask(p, Str(entries[0]), false), entries[1..], e);
    }
  }

  /** `loadTasks()`: replay the stored list without saving. */
  function LoadTasks(p: Page): (r: Page)
    ensures AppendsRows(p, Rendered(Tasks(p)), r)
    ensures r.stored == p.stored
    ensures r.alerts == p.alerts
    ensures Texts(r.rows) == Texts(p.rows) + Rendered(Tasks(p))
    ensures WellFormed(p) ==> WellFormed(r)
  {
    var r := Replay(p, Tasks(p));
    AppendsRowsTexts(p, Rendered(Tasks(p)), r);
    if WellFormed(p) then
      AppendsRowsWellFormed(p, Rendered(Tasks(p)), r);
      r
    else r
  }

  /** Replaying one more entry of a prefix. */
  lemma ReplayPrefix(p: Page, entries: seq<string>, i: nat)
    requires i < |entries|
    ensures Replay(p, entries[..i + 1]) == AddTask(Replay(p, entries[..i]), Str(entries[i]), false)
  {
    assert entries[..i + 1] == entries[..i] + [entries[i]];
    ReplaySnoc(p, entries[..i], entries[i]);
  }

  /** `loadTasks()` as the source writes it, a loop over the parsed array. */
  method LoadTasksForEach(p: Page) returns (r: Page)
    ensures r == LoadTasks(p)
  {
    var entries := Tasks(p);
    r := p;
    var i := 0;
    assert entries[..0] == [];
    while i < |entries|
      invariant 0 <= i <= |entries|
      invariant r == Replay(p, entries[..i])
    {
      ReplayPrefix(p, entries, i);
      r := AddTask(r, Str(entries[i]), false);
      i := i + 1;
    }
    assert entries[..i] == entries;
    assert r == Replay(p, Tasks(p));
  }

  /** The page as the document first shows it: no rows, an empty field, no
      alerts, and `stored` under the key. */
  function Opened(stored: Option<seq<string>>): (r: Page)
    ensures r.stored == stored && Tasks(r) == stored.GetOr([])
    ensures r.rows == [] && r.input == [] && r.alerts == 0
    ensures WellFormed(r)
  {
    Page(stored, [], "", 0, 0)
  }

  /** The page as `DOMContentLoaded` leaves it: an empty list and field, then
      `loadTasks()`. */
  function OnPageLoad(stored: Option<seq<string>>): (r: Page)
    ensures r.stored == stored
    ensures r.alerts == 0
    ensures |r.rows| == |Rendered(Tasks(r))|
    ensures forall i :: 0 <= i < |r.rows| ==> r.rows[i] == Row(i, Rendered(Tasks(r))[i])
  {
    var p := Opened(stored);
    var r := LoadTasks(p);
    assert forall i :: 0 <= i < |r.rows| ==> r.rows[0 + i] == Row(0 + i, Rendered(Tasks(p))[i]);
    r
  }

  /** A freshly opened page has distinct row identities. */
  lemma OnPageLoadWellFormed(stored: Option<seq<string>>)
    ensures WellFormed(OnPageLoad(stored))
  {
  }

  /** Reloading a clean stored list renders exactly that list, in order, and
      leaves storage and display mirrored. */
  lemma ReloadRendersStorage(p: Page)
    requires Clean(Tasks(p))
    ensures Texts(OnPageLoad(p.stored).rows) == Tasks(p)
    ensures Mirror(OnPageLoad(p.stored))
  {
    RenderedClean(Tasks(p));
  }

  /** A user action on the page. `Type` is the browser editing the field. */
  datatype Action = Type(value: string) | ClickAdd | KeyPress(key: string) | ClickRemove(id: nat)

  /** One event handled to completion. A throwing handler leaves the page as it was. */
  function Step(p: Page, a: Action): (r: Page)
    // only Enter can alert, and at most once
    ensures r.alerts == p.alerts || (a == KeyPress("Enter") && r.alerts == p.alerts + 1)
    // one event adds or removes at most one row, and identities are never reused
    ensures |p.rows| - 1 <= |r.rows| <= |p.rows| + 1
    ensures r.nextId >= p.nextId
  {
    match a
    case Type(v) => p.(input := v)
    case ClickAdd => OnAddClick(p)
    case KeyPress(k) => OnKeyPress(p, k)
    case ClickRemove(id) =>
      match Remove(p, id)
      case Success(q) => q
      case Failure(_) => p
  }

  /** Events handled one after another. */
  function Run(p: Page, actions: seq<Action>): (r: Page)
    ensures r.alerts <= p.alerts + |actions|
    ensures |p.rows| - |actions| <= |r.rows| <= |p.rows| + |actions|
    ensures r.nextId >= p.nextId
    decreases |actions|
  {
    if actions == [] then p else Run(Step(p, actions[0]), actions[1..])
  }

  /** What every handler preserves. */
  predicate Invariant(p: Page) {
    WellFormed(p) && Clean(Tasks(p))
  }

  /** Each handler preserves the invariant. */
  lemma StepKeepsInvariant(p: Page, a: Action)
    requires Invariant(p)
    ensures Invariant(Step(p, a))
  {
    match a
    case Type(v) =>
    case ClickAdd =>
      AddTaskKeepsWellFormed(p, Obj, true);
      AddTaskKeepsClean(p, Obj, true);
    case KeyPress(k) =>
      AddTaskKeepsWellFormed(p, Undefined, true);
      AddTaskKeepsClean(p, Undefined, true);
    case ClickRemove(id) =>
      var f := FindRow(p.rows, id);
      if f.Some? {
        RemoveKeepsWellFormed(p, f.value);
        RemoveAllKeepsClean(Tasks(p), p.rows[f.value].text);
      }
  }

  /** Any session of events preserves the invariant. */
  lemma {:induction false} RunKeepsInvariant(p: Page, actions: seq<Action>)
    requires Invariant(p)
    ensures Invariant(Run(p, actions))
    decreases |actions|
  {
    if actions != [] {
      StepKeepsInvariant(p, actions[0]);
      RunKeepsInvariant(Step(p, actions[0]), actions[1..]);
    }
  }

  /** Round trip across a reload: after any session that began with a page
      load on a clean stored list, reopening the page renders exactly what is
      stored. */
  lemma SessionThenReload(stored: Option<seq<string>>, actions: seq<Action>)
    requires Clean(stored.GetOr([]))
    ensures var q := Run(OnPageLoad(stored), actions);
      Texts(OnPageLoad(q.stored).rows) == Tasks(q)
  {
    OnPageLoadWellFormed(stored);
    RunKeepsInvariant(OnPageLoad(stored), actions);
    ReloadRendersStorage(Run(OnPageLoad(stored), actions));
  }

  /** A first visit starts with the key absent, so after any session a reload
      renders exactly what is stored. */
  lemma FirstVisitThenReload(actions: seq<Action>)
    ensures var q := Run(OnPageLoad(None), actions);
      Texts(OnPageLoad(q.stored).rows) == Tasks(q)
  {
    SessionThenReload(None, actions);
  }

  /** An entry stored with surrounding white space is rendered trimmed, so its
      remove button filters the trimmed text, the stored entry survives, and
      the next load shows the row again. */
  lemma UntrimmedEntryOutlivesRemoval(e: string)
    requires Trim(e) != [] && Trim(e) != e
    ensures OnPageLoad(Some([e])).rows == [Row(0, Trim(e))]
    ensures Remove(OnPageLoad(Some([e])), 0) == Success(Page(Some([e]), [], "", 0, 1))
    ensures Texts(OnPageLoad(Some([e])).rows) != [e]
  {
    LoadOne(e);
    var p := Page(Some([e]), [Row(0, Trim(e))], "", 0, 1);
    assert WellFormed(p);
    RemoveRowAt(p, 0);
    RemoveAllAbsent([e], Trim(e));
    assert Texts(p.rows)[0] == Trim(e);
  }

  /** Opening the page on one non-blank entry renders its trimmed text as row 0. */
  lemma LoadOne(e: string)
    requires Trim(e) != []
    ensures OnPageLoad(Some([e])) == Page(Some([e]), [Row(0, Trim(e))], "", 0, 1)
  {
    RenderedOne(e);
  }
}
