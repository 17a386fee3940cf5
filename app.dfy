/**
 The app's state and one run of its script. The CSV file is a `Store`;
 the DataFrame `df` is a `TaskTable` whose methods change it in place and
 write it back to the store, as every callback does with `save_tasks`.
 A run reads the store, then either adds a task or shows the page's view
 and reacts to the one user event of this run on a displayed row
 (`st.rerun()` ends the run after any change, so there is at most one).
 */
module App {
  import opened Tasks
  import opened Views

  /** The file tasks.csv: whether it exists, and the rows it holds. */
  class Store {
    var present: bool
    var saved: seq<Task>

    /** The file as it is found when the app starts. */
    constructor (present: bool, saved: seq<Task>)
      ensures this.present == present && this.saved == saved
    {
      this.present := present;
      this.saved := saved;
    }

    /** A missing file is created holding an empty table; an existing one is kept. */
    method Initialise()
      modifies this
      ensures present
      ensures saved == if old(present) then old(saved) else []
    {
      if !present {
        present := true;
        saved := [];
      }
    }

    /** `load_tasks`: the rows the file holds. */
    method Load() returns (rows: seq<Task>)
      requires present
      ensures rows == saved
    {
      rows := saved;
    }

    /** `save_tasks`: the whole file is replaced by `rows`. */
    method Save(rows: seq<Task>)
      modifies this
      ensures present && saved == rows
    {
      present := true;
      saved := rows;
    }
  }

  /** The user event of one run. Positions count the rows of the displayed view. */
  datatype Event =
    | Idle
    | AddClicked(text: string, deadline: Option<string>)
    | Ticked(pos: nat)
    | DeleteClicked(pos: nat)
    | EditSaved(pos: nat, text: string, deadline: Option<string>)

  /**
   The table after the display loop over `view` meets `event`. The change is
   made at the index label of the entry the event was on: a tick marks a
   displayed row that is not yet Completed, the delete button drops the
   row, a saved edit form overwrites its text and deadline.
   */
  function Act(rows: seq<Task>, view: seq<Entry>, event: Event): seq<Task>
    requires ShowsBacking(view, rows)
  {
    match event
    case Ticked(p) =>
      if p < |view| && view[p].row.status != Completed then MarkedCompleted(rows, view[p].index) else rows
    case DeleteClicked(p) =>
      if p < |view| then Removed(rows, view[p].index) else rows
    case EditSaved(p, text, deadline) =>
      if p < |view| then Edited(rows, view[p].index, text, deadline) else rows
    case _ => rows
  }

  /** The table after one run of the script on `page` with search text `query`. */
  function Rerun(rows: seq<Task>, page: Page, query: string, event: Event): seq<Task>
  {
    if page != SearchTasks && event.AddClicked? && event.text != [] then
      Added(rows, event.text, event.deadline, page)
    else
      Act(rows, PageView(page, rows, query), event)
  }

  /** The in-memory table `df`, backed by the store it was loaded from. */
  class TaskTable {
    var rows: seq<Task>
    const store: Store

    /** The table is what the store holds: every change is saved at once. */
    ghost predicate Saved()
      reads this, store
    {
      store.present && store.saved == rows
    }

    /** `df = load_tasks()`. */
    constructor (store: Store)
      requires store.present
      ensures this.store == store && rows == store.saved && Saved()
    {
      var loaded := store.Load();
      this.store := store;
      rows := loaded;
    }

    /** The "Add Task" button on `page`. */
    method Add(text: string, deadline: Option<string>, page: Page)
      requires Saved()
      modifies this, store
      ensures Saved()
      ensures rows == Added(old(rows), text, deadline, page)
    {
      if page != SearchTasks && text != [] {
        var assignee, assigner;
        if page == SohaTasks {
          assignee, assigner := Soha, Soha;
        } else if page == AlexTasks {
          assignee, assigner := Alex, Alex;
        } else {
          assignee, assigner := Soha, Alex;
        }
        var deadlineCell := if deadline.Some? then deadline.value else "";
        rows := rows + [Task(text, assignee, Pending, deadlineCell, assigner)];
        store.Save(rows);
      }
    }

    /** The Status cell of row `index` is set to Completed. */
    method MarkCompleted(index: nat)
      requires Saved() && index < |rows|
      modifies this, store
      ensures Saved()
      ensures rows == MarkedCompleted(old(rows), index)
    {
      rows := rows[index := rows[index].(status := Completed)];
      store.Save(rows);
    }

    /** Row `index` is dropped and the index relabelled 0..n-2. */
    method Delete(index: nat)
      requires Saved() && index < |rows|
      modifies this, store
      ensures Saved()
      ensures rows == Removed(old(rows), index)
    {
      rows := rows[..index] + rows[index + 1..];
      store.Save(rows);
    }

    /** The Task and Deadline cells of row `index` are overwritten. */
    method Edit(index: nat, text: string, deadline: Option<string>)
      requires Saved() && index < |rows|
      modifies this, store
      ensures Saved()
      ensures rows == Edited(old(rows), index, text, deadline)
    {
      var deadlineCell := if deadline.Some? then deadline.value else "";
      rows := rows[index := rows[index].(text := text, deadline := deadlineCell)];
      store.Save(rows);
    }

    /**
     `display_tasks`: the loop over the entries of `view`, each with its
     checkbox, delete button and edit form. The first entry the event acts
     on is changed through its index label and the run ends there.
     */
    method Display(view: seq<Entry>, event: Event)
      requires Saved() && ShowsBacking(view, rows)
      modifies this, store
      ensures Saved()
      ensures rows == Act(old(rows), view, event)
    {
      var pos := 0;
      while pos < |view|
        invariant pos <= |view|
        invariant rows == old(rows) && Saved()
        invariant !event.Idle? && !event.AddClicked? && event.pos < pos ==> Act(rows, view, event) == rows
      {
        var entry := view[pos];
        var completed := entry.row.status == Completed || event == Ticked(pos);
        if completed && entry.row.status != Completed {
          MarkCompleted(entry.index);
          return;
        }
        if event == DeleteClicked(pos) {
          Delete(entry.index);
          return;
        }
        if event.EditSaved? && event.pos == pos {
          Edit(entry.index, event.text, event.deadline);
          return;
        }
        pos := pos + 1;
      }
    }
  }

  /**
   One run of the script: the store is initialised if the file is missing,
   the table is loaded, and the event is applied. Returns the table as the
   run leaves it, which is also what the store now holds.
   */
  method RunScript(store: Store, page: Page, query: string, event: Event) returns (table: TaskTable)
    modifies store
    ensures fresh(table) && table.store == store && table.Saved()
    ensures table.rows == Rerun(if old(store.present) then old(store.saved) else [], page, query, event)
  {
    store.Initialise();
    table := new TaskTable(store);
    if page != SearchTasks && event.AddClicked? && event.text != [] {
      table.Add(event.text, event.deadline, page);
      return;
    }
    PageViewCorrect(page, table.rows, query);
    var view := PageView(page, table.rows, query);
    table.Display(view, event);
  }

  /**
   The delete button of the entry at position `p` of a page's view removes
   exactly the task that entry displays: the row at the entry's index label
   is the displayed one, the table loses that row and no other, and the
   rows around it keep their order, whichever rows the view left out.
   */
  lemma DeleteHitsDisplayed(rows: seq<Task>, page: Page, query: string, p: nat)
    requires p < |PageView(page, rows, query)|
    ensures var e := PageView(page, rows, query)[p];
      && e.index < |rows| && rows[e.index] == e.row
      && Rerun(rows, page, query, DeleteClicked(p)) == rows[..e.index] + rows[e.index + 1..]
    ensures |Rerun(rows, page, query, DeleteClicked(p))| == |rows| - 1
    ensures multiset(Rerun(rows, page, query, DeleteClicked(p))) + multiset{PageView(page, rows, query)[p].row}
      == multiset(rows)
  {
    PageViewCorrect(page, rows, query);
  }

  /**
   Ticking the entry at position `p` completes the task that entry displays
   (found at its index label) and changes no other row.
   */
  lemma TickHitsDisplayed(rows: seq<Task>, page: Page, query: string, p: nat)
    requires p < |PageView(page, rows, query)|
    ensures var e := PageView(page, rows, query)[p];
      && var r := Rerun(rows, page, query, Ticked(p));
      && |r| == |rows| && e.index < |rows|
      && r[e.index] == e.row.(status := Completed)
      && forall j :: 0 <= j < |rows| && j != e.index ==> r[j] == rows[j]
  {
    PageViewCorrect(page, rows, query);
  }

  /**
   Saving the edit form of the entry at position `p` rewrites the text and
   deadline of the task that entry displays and changes no other row.
   */
  lemma EditHitsDisplayed(rows: seq<Task>, page: Page, query: string, p: nat, text: string, deadline: Option<string>)
    requires p < |PageView(page, rows, query)|
    ensures var e := PageView(page, rows, query)[p];
      && var r := Rerun(rows, page, query, EditSaved(p, text, deadline));
      && |r| == |rows| && e.index < |rows|
      && r[e.index] == e.row.(text := text, deadline := DeadlineCell(deadline))
      && forall j :: 0 <= j < |rows| && j != e.index ==> r[j] == rows[j]
  {
    PageViewCorrect(page, rows, query);
  }

  /**
   The worked case of the lemmas below: a table of three rows, Soha's own
   task, Alex's own task, and a task Alex gave Soha.
   */
  ghost predicate WorkedTable(rows: seq<Task>)
  {
    && |rows| == 3
    && rows[0].assignedTo == Soha && rows[0].assignedBy == Soha
    && rows[1].assignedTo == Alex && rows[1].assignedBy == Alex
    && rows[2].assignedTo == Soha && rows[2].assignedBy == Alex
  }

  /** `Select` with an assignee mask on a three-row table, unfolded row by row. */
  lemma SelectThree(rows: seq<Task>, c: Criterion)
    requires |rows| == 3 && !c.Mentions?
    ensures Select(rows, c) ==
      (if Keeps(c, rows[0]) then [Entry(0, rows[0])] else [])
      + (if Keeps(c, rows[1]) then [Entry(1, rows[1])] else [])
      + (if Keeps(c, rows[2]) then [Entry(2, rows[2])] else [])
  {
    var two, one := rows[..2], rows[..1];
    assert two[..1] == one && one[..0] == [] && one[0] == rows[0] && two[1] == rows[1];
    assert Select(one, c) == if Keeps(c, rows[0]) then [Entry(0, rows[0])] else [];
    assert Select(two, c) == Select(one, c) + if Keeps(c, rows[1]) then [Entry(1, rows[1])] else [];
  }

  /** On Soha's page the worked table shows its first and third rows, at their own indices. */
  lemma SohaPageExample(rows: seq<Task>)
    requires WorkedTable(rows)
    ensures PageView(SohaTasks, rows, "") == [Entry(0, rows[0]), Entry(2, rows[2])]
  {
    assert Soha != Alex by { assert Soha[0] != Alex[0]; }
    SelectThree(rows, AssignedTo(Soha));
  }

  /** On the Soha-by-Alex page the worked table shows only its third row. */
  lemma SohaByAlexPageExample(rows: seq<Task>)
    requires WorkedTable(rows)
    ensures PageView(SohaByAlex, rows, "") == [Entry(2, rows[2])]
  {
    assert Soha != Alex by { assert Soha[0] != Alex[0]; }
    SelectThree(rows, AssignedToBy(Soha, Alex));
  }

  /**
   On Alex's page the worked table shows only its second row, so deleting
   the first displayed entry removes that row, not the table's first row.
   */
  lemma FilteredDeleteExample(rows: seq<Task>)
    requires WorkedTable(rows)
    ensures Rerun(rows, AlexTasks, "", DeleteClicked(0)) == [rows[0], rows[2]]
  {
    assert Soha != Alex by { assert Soha[0] != Alex[0]; }
    SelectThree(rows, AssignedTo(Alex));
    var view := PageView(AlexTasks, rows, "");
    assert view == [Entry(1, rows[1])];
    var r := Removed(rows, 1);
    assert |r| == 2 && r[0] == rows[0] && r[1] == rows[2];
  }
}
