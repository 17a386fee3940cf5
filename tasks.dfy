/**
 The task record and the changes the app's callbacks make to its task table.

 The table is the DataFrame `df`, one row per task with the columns Task,
 Assigned_To, Status, Deadline and Assigned_By. Here it is a `seq<Task>`
 and a row's position in the sequence is its index label: the app rebuilds
 the labels as 0..n-1 after every change that could disturb them (the add
 concatenates with `ignore_index`, the delete calls `reset_index`).
 Each function below gives the table after one operation; the methods of
 `App.TaskTable` perform the same operations in place and are proved
 against these functions.
 */
module Tasks {

  datatype Option<T> = None | Some(value: T)

  /** One row of the table. Every cell is text, as the CSV file holds it. */
  datatype Task = Task(
    text: string,
    assignedTo: string,
    status: string,
    deadline: string,
    assignedBy: string)

  /** The two statuses the app writes. */
  const Pending: string := "Pending"
  const Completed: string := "Completed"

  /** The two users the pages know. */
  const Soha: string := "Soha"
  const Alex: string := "Alex"

  /** The pages of the sidebar's navigation. */
  datatype Page = SohaTasks | AlexTasks | SohaByAlex | SearchTasks

  /**
   The (assignee, assigner) pair of a task added on `page`: the if/elif/else
   over the page name. The search page shows no add form, so it has none.
   */
  function Assignment(page: Page): Option<(string, string)>
  {
    match page
    case SohaTasks => Some((Soha, Soha))
    case AlexTasks => Some((Alex, Alex))
    case SohaByAlex => Some((Soha, Alex))
    case SearchTasks => None
  }

  /** The Deadline cell for an optional date picked in a date widget: the date, or "" when none. */
  function DeadlineCell(deadline: Option<string>): string
  {
    match deadline
    case Some(d) => d
    case None => ""
  }

  /**
   The table after "Add Task" is pressed on `page` with `text` and `deadline`.
   An empty text adds nothing (only emptiness is tested: blank text is
   accepted), and neither does the search page, which has no add form.
   Otherwise one Pending row is appended and every earlier row is kept.
   */
  function Added(rows: seq<Task>, text: string, deadline: Option<string>, page: Page): (r: seq<Task>)
    ensures text == [] || page == SearchTasks ==> r == rows
    ensures text != [] && page != SearchTasks ==>
      && |r| == |rows| + 1
      && r[..|rows|] == rows
      && r[|rows|].text == text
      && r[|rows|].status == Pending
      && r[|rows|].deadline == DeadlineCell(deadline)
      && (r[|rows|].assignedTo, r[|rows|].assignedBy) == Assignment(page).value
  {
    if text == [] then rows
    else match Assignment(page)
      case None => rows
      case Some((assignee, assigner)) =>
        rows + [Task(text, assignee, Pending, DeadlineCell(deadline), assigner)]
  }

  /**
   The table after row `i` is marked completed: that row's Status becomes
   Completed and nothing else changes. A row that is already Completed is
   left as it is, so marking is idempotent.
   */
  function MarkedCompleted(rows: seq<Task>, i: nat): (r: seq<Task>)
    requires i < |rows|
    ensures |r| == |rows|
    ensures r[i].status == Completed
    ensures r[i].text == rows[i].text && r[i].assignedTo == rows[i].assignedTo
    ensures r[i].deadline == rows[i].deadline && r[i].assignedBy == rows[i].assignedBy
    ensures forall j :: 0 <= j < |rows| && j != i ==> r[j] == rows[j]
    ensures rows[i].status == Completed ==> r == rows
  {
    rows[i := rows[i].(status := Completed)]
  }

  /**
   The table after row `i` is dropped and the rest renumbered: one row
   fewer, the rows before `i` at their places, the rows after it one place
   earlier, so their order is kept and exactly that row is gone.
   */
  function Removed(rows: seq<Task>, i: nat): (r: seq<Task>)
    requires i < |rows|
    ensures |r| == |rows| - 1
    ensures forall j :: 0 <= j < i ==> r[j] == rows[j]
    ensures forall j :: i <= j < |r| ==> r[j] == rows[j + 1]
    ensures multiset(r) + multiset{rows[i]} == multiset(rows)
  {
    assert rows == rows[..i] + [rows[i]] + rows[i + 1..];
    rows[..i] + rows[i + 1..]
  }

  /**
   The table after the edit form of row `i` is saved with `text` and
   `deadline`: the Task and Deadline cells of that row are overwritten
   (the text is not checked, an empty one included), its assignee, status
   and assigner stay, and so do all other rows.
   */
  function Edited(rows: seq<Task>, i: nat, text: string, deadline: Option<string>): (r: seq<Task>)
    requires i < |rows|
    ensures |r| == |rows|
    ensures r[i].text == text && r[i].deadline == DeadlineCell(deadline)
    ensures r[i].assignedTo == rows[i].assignedTo && r[i].status == rows[i].status
    ensures r[i].assignedBy == rows[i].assignedBy
    ensures forall j :: 0 <= j < |rows| && j != i ==> r[j] == rows[j]
  {
    rows[i := rows[i].(text := text, deadline := DeadlineCell(deadline))]
  }

  /** Marking the same row completed twice gives the table marking it once gives. */
  lemma MarkCompletedIdempotent(rows: seq<Task>, i: nat)
    requires i < |rows|
    ensures MarkedCompleted(MarkedCompleted(rows, i), i) == MarkedCompleted(rows, i)
  {
  }

  /**
   No operation reopens a task: a row that is Completed before marking or
   editing another or the same row is still Completed afterwards.
   */
  lemma CompletedStaysCompleted(rows: seq<Task>, i: nat, j: nat, text: string, deadline: Option<string>)
    requires i < |rows| && j < |rows| && rows[j].status == Completed
    ensures MarkedCompleted(rows, i)[j].status == Completed
    ensures Edited(rows, i, text, deadline)[j].status == Completed
  {
  }

  /** Adding never changes the rows already in the table, whatever the page and text. */
  lemma AddKeepsRows(rows: seq<Task>, text: string, deadline: Option<string>, page: Page)
    ensures Added(rows, text, deadline, page)[..|rows|] == rows
  {
  }
}
