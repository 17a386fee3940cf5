# PM - PMO Tasks: a verified model of the task table

The app is a small Streamlit tracker for two users, Soha and Alex. It keeps
one table of tasks, `df`, loaded from `tasks.csv`. Each row holds the columns
Task, Assigned_To, Status, Deadline and Assigned_By. There are four pages:
Soha's tasks, Alex's tasks, tasks Alex gave Soha, and a search page. The first
three pages show a form that adds a task. Every page shows its rows with a
checkbox that marks the row completed, a delete button and an edit form.
Each of these writes the whole table back to the file.

This project models that table and the operations on it:

- `text.dfy` (module `Text`): ASCII lower-casing and Python's substring test
  `needle in hay`. The substring test is proved equal to its positional
  definition.
- `tasks.dfy` (module `Tasks`): the task record and the pages. It also has
  one function per change to the table (add, mark completed, delete, edit).
  Each function's contract states exactly which cells change.
- `views.dfy` (module `Views`): the boolean-mask views as sequences of
  entries. Each entry pairs a backing index label with the row shown. The
  contracts prove that every view lists exactly the rows satisfying its
  page's condition, in table order, each with its own index.
- `app.dfy` (module `App`): the CSV file as a `Store` class and `df` as a
  `TaskTable` class, whose methods change the table in place and save it.
  `Display` is the `display_tasks` loop. `RunScript` is one run of the
  script. The lemmas show that a row event fired from a view acts on the row
  that was displayed.

Behaviour of the code worth knowing:

- The add rejects only empty text. Text made only of blanks is accepted.
- The edit accepts any text, including empty text.
- Rows are addressed by their index label, not by a stable identifier.
  Within one run this is sound: every event is applied to the view computed
  in that run, and `st.rerun()` ends the run after the first change. The
  `*HitsDisplayed` lemmas prove that this lands on the displayed row.
- An empty search query shows nothing.

## Model

| member | source | states |
|---|---|---|
| `Text.Lower` | task.py:143 | `.lower()` keeps the length, maps each character through ASCII lower-casing, and leaves no upper-case ASCII letter |
| `Text.LowerIdempotent` | task.py:143 | lower-casing an already lower-cased text changes nothing |
| `Text.Contains` | task.py:143 | Python's `in` on strings; its meaning is stated by `Text.ContainsIff`: true exactly when the query occurs at some position of the text |
| `Text.ContainsAt` | task.py:143 | if the query occurs at some position of the text, `in` finds it |
| `Text.ContainsWitness` | task.py:143 | if `in` succeeds, it yields a position where the query occurs |
| `Text.ContainsIff` | task.py:143 | `in` holds exactly when the query occurs at some position of the text |
| `Text.PrefixFoundIgnoringCase` | task.py:143 | a prefix of a text is found in it after both are lower-cased |
| `Tasks.Assignment` | task.py:68-73 | the (assignee, assigner) pair of an add on each page, none on the search page; what it puts in the new row is stated by `Tasks.Added` |
| `Tasks.DeadlineCell` | task.py:79 | the Deadline cell for a picked date or none, used by the add (line 79) and the edit (line 122); stated by `Tasks.Added` and `Tasks.Edited`: the picked date, or "" when none |
| `Tasks.Added` | task.py:63-83 | an empty text or the search page leaves the table as it was; otherwise exactly one row is appended and every earlier row is kept; the new row has the given text, status Pending, the picked date or "" as deadline, and the page's pair: (Soha, Soha), (Alex, Alex) or (Soha, Alex) |
| `Tasks.AddKeepsRows` | task.py:82 | whatever the page and text, the rows already in the table are unchanged by an add |
| `Tasks.MarkedCompleted` | task.py:103-104 | only row `i` changes; its status becomes Completed and its other four cells stay; the length is kept; a row already Completed leaves the table unchanged |
| `Tasks.MarkCompletedIdempotent` | task.py:103-104 | marking the same row twice gives the table that marking it once gives |
| `Tasks.CompletedStaysCompleted` | task.py:103-122 | neither marking nor editing any row turns a Completed row back to another status |
| `Tasks.Removed` | task.py:109-111 | the table loses exactly one row, the one at `i`; rows before it keep their index; rows after it move one index down in the same order; the multiset of rows loses exactly that row |
| `Tasks.Edited` | task.py:120-122 | only the Task and Deadline cells of row `i` change, to the new text (unchecked) and to the picked date or ""; Assigned_To, Status, Assigned_By and every other row are unchanged |
| `Views.RowText` | task.py:143 | the text of `row.to_string()`, one labelled line per column; `Views.TaskLabelMentioned` and `Views.SearchLabelMatchesAll` state what the labels in it mean for search |
| `Views.Keeps` | task.py:128-143 | the mask of each page: assignee; assignee and assigner; or query found in the lower-cased row text; `Views.Select` and `Views.PageViewCorrect` state that a row is shown exactly when it passes |
| `Views.Search` | task.py:141-143 | the search page's view; `Views.PageViewCorrect` states it is empty for an empty query and otherwise holds exactly the rows whose lower-cased text contains the lower-cased query, and `Views.SearchIgnoresCase` that the query's case does not matter |
| `Views.PageView` | task.py:128-143 | the view each page displays; its properties are stated by `Views.PageViewCorrect` |
| `Views.Select` | task.py:128-138 | the view's entries are rows of the table at their own index; the indices strictly increase; every entry passes the mask; every row that passes the mask is in the view |
| `Views.PageViewCorrect` | task.py:128-143 | on every page, a row is displayed exactly when it satisfies that page's condition: Assigned_To is Soha; Assigned_To is Alex; Assigned_To is Soha and Assigned_By is Alex; or, on the search page, the query is non-empty and its lower-case form occurs in the lower-cased row text. Entries keep table order and show their backing row |
| `Views.SearchIgnoresCase` | task.py:143 | a query and its lower-cased form show the same search results |
| `Views.TaskLabelMentioned` | task.py:143 | the lower-cased text of every row contains "task", from the column label |
| `Views.SearchLabelMatchesAll` | task.py:143 | because `row.to_string()` includes the column labels, a query that lower-cases to "task" shows every row of the table, each at its own index |
| `App.Store.constructor` | task.py:7 | the store starts as the file is found: present or missing, with the rows it holds |
| `App.Store.Initialise` | task.py:9-11 | a missing file is created holding an empty table; an existing file is left as it is |
| `App.Store.Load` | task.py:13-14 | loading returns exactly the rows the file holds |
| `App.Store.Save` | task.py:16-17 | saving replaces the whole file content with the given rows |
| `App.TaskTable.constructor` | task.py:57 | the table starts as the rows the store holds |
| `App.TaskTable.Add` | task.py:62-86 | the table becomes `Added` of the old table, and the store holds the new table |
| `App.TaskTable.MarkCompleted` | task.py:103-105 | the table becomes `MarkedCompleted` of the old table at that index, and the store holds the new table |
| `App.TaskTable.Delete` | task.py:109-112 | the table becomes `Removed` of the old table at that index (renumbered 0..n-2), and the store holds the new table |
| `App.TaskTable.Edit` | task.py:116-123 | the table becomes `Edited` of the old table at that index, and the store holds the new table |
| `App.Act` | task.py:92-125 | the table after the display loop meets one event, changed at the index label of the entry the event was on; `App.TaskTable.Display` is proved equal to it, and `App.DeleteHitsDisplayed`, `App.TickHitsDisplayed` and `App.EditHitsDisplayed` state that the displayed row is the one changed |
| `App.Rerun` | task.py:63-144 | the table after one run of the script; `App.RunScript` is proved equal to it, and the `*HitsDisplayed` lemmas and `App.FilteredDeleteExample` state what it does to the displayed rows |
| `App.TaskTable.Display` | task.py:89-125 | for a view whose entries show their backing rows, the loop applies the event at the index label of the entry it was fired on: a tick completes a row not yet Completed, a delete drops it, a saved edit rewrites it. Any other event changes nothing. The store is kept equal to the table |
| `App.RunScript` | task.py:9-144 | one run initialises and loads the store. It then either adds the task or displays the page's view and applies the event. The resulting table, also saved in the store, is the one the specification function `Rerun` gives |
| `App.DeleteHitsDisplayed` | task.py:92-111 | for the entry at a position of any page's view, the row at the entry's index label is the displayed row, and deleting the entry yields the table with exactly that row removed and the others in order; one row fewer |
| `App.TickHitsDisplayed` | task.py:92-105 | ticking the entry at a position of any page's view completes the row that entry displayed, at its backing index, and no other row changes |
| `App.EditHitsDisplayed` | task.py:92-122 | saving the edit form of an entry of any page's view rewrites the text and deadline of the row that entry displayed, and no other row changes |
| `App.SohaPageExample` | task.py:128-130 | on any three-row table whose rows are Soha's own, Alex's own and one Alex gave Soha, Soha's page shows rows 0 and 2 at their own indices |
| `App.SohaByAlexPageExample` | task.py:136-138 | on such a table, the Soha-by-Alex page shows only row 2 |
| `App.FilteredDeleteExample` | task.py:109-134 | on such a table, deleting the first entry of Alex's page removes row 1, not row 0, and leaves rows 0 and 2 in order |

## Left out

- The Streamlit interface is not modelled: titles, CSS, sidebar, widgets, balloons, toasts, `time.sleep` and `st.rerun`. A run is modelled as one user event (`App.Event`), and `st.rerun()` as the end of the run.
- Widget state that Streamlit keeps between runs is not modelled. This includes checkbox values keyed by `chk_{index}`, which can stay attached to an index label after a delete renumbers the rows. A tick is modelled as the checkbox of that entry reading ticked in this run.
- The edit form is nested inside the edit button's branch (task.py:116-120). Streamlit's button reads True only in the run right after its click. So when "Save Changes" is submitted, `st.button("✏️ Edit")` presumably reads False, and the save branch at task.py:120-125 may never run in the real app. The model does not capture this: it treats a saved edit (`EditSaved`) as a reachable event on one entry.
- The CSV format is not modelled: the store holds the rows exactly. Empty cells read back as NaN are not modelled either, so `if row['Deadline']` and the search text see "" where pandas would see `nan`.
- File errors are not modelled. A file that cannot be read or written raises a pandas exception, and the store never fails.
- Several sessions against one file are not modelled; the last writer wins.
- Dates are opaque strings. The `pd.to_datetime` and date-widget conversions are not modelled.
- `Views.RowText` gives one line per column: the label, one space, then the cell. The column padding of `row.to_string()` is not modelled.
- Lower-casing covers ASCII letters only. Unicode case mapping is not modelled.
