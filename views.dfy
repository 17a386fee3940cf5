/**
 The views the pages display: boolean-mask selections of the task table.
 A pandas selection keeps the index labels of the rows it keeps, and the
 display loop later uses those labels to change the table. So a view here
 is a sequence of entries, each a backing index together with the row shown.
 */
module Views {
  import opened Text
  import opened Tasks

  /** One displayed row and its index label in the full table. */
  datatype Entry = Entry(index: nat, row: Task)

  /** The condition a page's mask tests on each row. */
  datatype Criterion =
    | AssignedTo(assignee: string)
    | AssignedToBy(assignee: string, assigner: string)
    | Mentions(query: string)

  /**
   The text of a row as `row.to_string()` gives it: one line per column,
   the column label followed by the cell.
   */
  function RowText(t: Task): string
  {
    "Task " + t.text
    + "\nAssigned_To " + t.assignedTo
    + "\nStatus " + t.status
    + "\nDeadline " + t.deadline
    + "\nAssigned_By " + t.assignedBy
  }

  /** Whether a row passes the mask; the search compares lower-cased text. */
  predicate Keeps(c: Criterion, t: Task)
  {
    match c
    case AssignedTo(a) => t.assignedTo == a
    case AssignedToBy(a, b) => t.assignedTo == a && t.assignedBy == b
    case Mentions(q) => Contains(Lower(RowText(t)), Lower(q))
  }

  /** `view` shows rows of `rows` only, each with the index it has there. */
  ghost predicate ShowsBacking(view: seq<Entry>, rows: seq<Task>)
  {
    forall k :: 0 <= k < |view| ==> view[k].index < |rows| && rows[view[k].index] == view[k].row
  }

  /** `view` lists its rows in table order, each at most once. */
  ghost predicate InTableOrder(view: seq<Entry>)
  {
    forall k, l :: 0 <= k < l < |view| ==> view[k].index < view[l].index
  }

  /**
   `rows[mask]`: the entries of the rows that pass `c`, in table order,
   each with its backing index, and every such row among them.
   */
  function Select(rows: seq<Task>, c: Criterion): (view: seq<Entry>)
    ensures ShowsBacking(view, rows)
    ensures InTableOrder(view)
    ensures forall k :: 0 <= k < |view| ==> Keeps(c, view[k].row)
    ensures forall i :: 0 <= i < |rows| && Keeps(c, rows[i]) ==> Displayed(view, i)
  {
    if rows == [] then []
    else
      var n := |rows| - 1;
      var front := Select(rows[..n], c);
      var last := if Keeps(c, rows[n]) then [Entry(n, rows[n])] else [];
      SelectStep(rows, front, last, c);
      front + last
  }

  /** The step of `Select`: the entries of the table without its last row, extended by that row's. */
  lemma SelectStep(rows: seq<Task>, front: seq<Entry>, last: seq<Entry>, c: Criterion)
    requires rows != []
    requires ShowsBacking(front, rows[..|rows| - 1]) && InTableOrder(front)
    requires forall k :: 0 <= k < |front| ==> Keeps(c, front[k].row)
    requires forall i :: 0 <= i < |rows| - 1 && Keeps(c, rows[..|rows| - 1][i]) ==> Displayed(front, i)
    requires last == if Keeps(c, rows[|rows| - 1]) then [Entry(|rows| - 1, rows[|rows| - 1])] else []
    ensures ShowsBacking(front + last, rows)
    ensures InTableOrder(front + last)
    ensures forall k :: 0 <= k < |front + last| ==> Keeps(c, (front + last)[k].row)
    ensures forall i :: 0 <= i < |rows| && Keeps(c, rows[i]) ==> Displayed(front + last, i)
  {
    SelectStepShown(rows, front, last, c);
    SelectStepComplete(rows, front, last, c);
  }

  /** The extended view shows rows of the table at their index, in order, all passing the mask. */
  lemma SelectStepShown(rows: seq<Task>, front: seq<Entry>, last: seq<Entry>, c: Criterion)
    requires rows != []
    requires ShowsBacking(front, rows[..|rows| - 1]) && InTableOrder(front)
    requires forall k :: 0 <= k < |front| ==> Keeps(c, front[k].row)
    requires last == if Keeps(c, rows[|rows| - 1]) then [Entry(|rows| - 1, rows[|rows| - 1])] else []
    ensures ShowsBacking(front + last, rows)
    ensures InTableOrder(front + last)
    ensures forall k :: 0 <= k < |front + last| ==> Keeps(c, (front + last)[k].row)
  {
    var n := |rows| - 1;
    var view := front + last;
    assert forall k :: 0 <= k < |front| ==> view[k] == front[k];
    assert forall k :: 0 <= k < |front| ==> front[k].index < n && rows[front[k].index] == front[k].row by {
      forall k | 0 <= k < |front| ensures front[k].index < n && rows[front[k].index] == front[k].row {
        assert rows[..n][front[k].index] == rows[front[k].index];
      }
    }
    if last != [] {
      assert view[|front|] == Entry(n, rows[n]);
    }
  }

  /** Every row that passes the mask is in the extended view. */
  lemma SelectStepComplete(rows: seq<Task>, front: seq<Entry>, last: seq<Entry>, c: Criterion)
    requires rows != []
    requires forall i :: 0 <= i < |rows| - 1 && Keeps(c, rows[..|rows| - 1][i]) ==> Displayed(front, i)
    requires last == if Keeps(c, rows[|rows| - 1]) then [Entry(|rows| - 1, rows[|rows| - 1])] else []
    ensures forall i :: 0 <= i < |rows| && Keeps(c, rows[i]) ==> Displayed(front + last, i)
  {
    var n := |rows| - 1;
    var view := front + last;
    forall i | 0 <= i < |rows| && Keeps(c, rows[i]) ensures Displayed(view, i) {
      if i < n {
        assert rows[..n][i] == rows[i];
        assert Displayed(front, i);
        var k :| 0 <= k < |front| && front[k].index == i;
        assert view[k] == front[k];
      } else {
        assert view[|front|].index == n;
      }
    }
  }

  /** The search results: nothing for an empty query, else the rows whose text mentions it. */
  function Search(rows: seq<Task>, query: string): seq<Entry>
  {
    if query == [] then [] else Select(rows, Mentions(query))
  }

  /** The rows a page displays, with `query` the text of the search box. */
  function PageView(page: Page, rows: seq<Task>, query: string): seq<Entry>
  {
    match page
    case SohaTasks => Select(rows, AssignedTo(Soha))
    case AlexTasks => Select(rows, AssignedTo(Alex))
    case SohaByAlex => Select(rows, AssignedToBy(Soha, Alex))
    case SearchTasks => Search(rows, query)
  }

  /** Row `i` is displayed in `view`. */
  ghost predicate Displayed(view: seq<Entry>, i: nat)
  {
    exists k :: 0 <= k < |view| && view[k].index == i
  }

  /**
   Every page shows rows of the table in table order with their own index,
   and a row is shown exactly when it satisfies the page's condition.
   */
  lemma PageViewCorrect(page: Page, rows: seq<Task>, query: string)
    ensures ShowsBacking(PageView(page, rows, query), rows)
    ensures InTableOrder(PageView(page, rows, query))
    ensures forall i :: 0 <= i < |rows| ==>
      (Displayed(PageView(page, rows, query), i) <==>
        match page
        case SohaTasks => rows[i].assignedTo == Soha
        case AlexTasks => rows[i].assignedTo == Alex
        case SohaByAlex => rows[i].assignedTo == Soha && rows[i].assignedBy == Alex
        case SearchTasks => query != [] && Contains(Lower(RowText(rows[i])), Lower(query)))
  {
  }

  /** Search ignores case in the query: a query and its lower-cased form show the same rows. */
  lemma {:induction false} SearchIgnoresCase(rows: seq<Task>, query: string)
    ensures Search(rows, query) == Search(rows, Lower(query))
  {
    if query != [] {
      LowerIdempotent(query);
      SelectSameMask(rows, Mentions(query), Mentions(Lower(query)));
    }
  }

  /** Two masks that agree on every row select the same view. */
  lemma {:induction false} SelectSameMask(rows: seq<Task>, c: Criterion, d: Criterion)
    requires forall t :: Keeps(c, t) == Keeps(d, t)
    ensures Select(rows, c) == Select(rows, d)
  {
    if rows != [] {
      SelectSameMask(rows[..|rows| - 1], c, d);
    }
  }

  /** The text of every row starts with the label "Task", so its lower-cased form holds "task". */
  lemma TaskLabelMentioned(t: Task)
    ensures Contains(Lower(RowText(t)), "task")
  {
    var line := "Task " + t.text;
    assert "Task" <= line;
    assert line <= RowText(t);
    PrefixFoundIgnoringCase("Task", RowText(t));
    assert Lower("Task") == "task";
  }

  /**
   The row text carries the column labels, so a query that lower-cases to
   "task" (or to any other part of a label) matches every row in the table.
   */
  lemma SearchLabelMatchesAll(rows: seq<Task>, query: string)
    requires Lower(query) == "task"
    ensures |Search(rows, query)| == |rows|
    ensures forall i :: 0 <= i < |rows| ==> Search(rows, query)[i] == Entry(i, rows[i])
  {
    assert query != [];
    forall t: Task ensures Keeps(Mentions(query), t) {
      TaskLabelMentioned(t);
    }
    SelectAll(rows, Mentions(query));
  }

  /** A mask every row passes selects the whole table, each row with its own index. */
  lemma {:induction false} SelectAll(rows: seq<Task>, c: Criterion)
    requires forall t :: Keeps(c, t)
    ensures |Select(rows, c)| == |rows|
    ensures forall i :: 0 <= i < |rows| ==> Select(rows, c)[i] == Entry(i, rows[i])
  {
    if rows != [] {
      SelectAll(rows[..|rows| - 1], c);
    }
  }
}
