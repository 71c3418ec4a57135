/** getTodoistEntriesFromCSV (src/commands/todoist.ts:85-104): folding the parsed CSV rows
    into tasks. Each row maps column names to cell text; the kind column's name starts with
    U+FEFF, as in the files Todoist exports. A "task" row opens a task, a "note" row is
    appended to the notes of the last task opened, and any other row is skipped. */
module Assembler {
  import opened Wrappers

  /** One parsed CSV row: column name to cell text. */
  type Row = map<string, string>

  /** The kind column, with the invisible U+FEFF that precedes its name in the header. */
  const TypeKey: string := "\U{FEFF}TYPE"

  /** A note; the date is opaque text, never parsed. A missing column is `undefined`. */
  datatype Note = Note(content: Option<string>, date: Option<string>)

  datatype Task = Task(title: Option<string>, description: Option<string>, notes: seq<Note>)

  /** Reading `.notes` of the element before the first of an empty array throws. */
  datatype AssemblyError = NoteBeforeTask

  /** `row[column]`: undefined when the row has no such column. */
  function Cell(row: Row, column: string): Option<string>
  {
    if column in row then Some(row[column]) else None
  }

  predicate IsTaskRow(row: Row)
  {
    Cell(row, TypeKey) == Some("task")
  }

  predicate IsNoteRow(row: Row)
  {
    Cell(row, TypeKey) == Some("note")
  }

  function NewTask(row: Row): Task
  {
    Task(Cell(row, "CONTENT"), Cell(row, "DESCRIPTION"), [])
  }

  function NoteOf(row: Row): Note
  {
    Note(Cell(row, "CONTENT"), Cell(row, "DATE"))
  }

  /** One iteration of the loop over rows. */
  function Step(tasks: seq<Task>, row: Row): Result<seq<Task>, AssemblyError>
  {
    if IsTaskRow(row) then Ok(tasks + [NewTask(row)])
    else if IsNoteRow(row) then
      if tasks == [] then Err(NoteBeforeTask)
      else
        var last := tasks[|tasks| - 1];
        Ok(tasks[..|tasks| - 1] + [last.(notes := last.notes + [NoteOf(row)])])
    else Ok(tasks)
  }

  /** The tasks the loop has built after the given rows; a failure stops it for good. */
  function Group(rows: seq<Row>): Result<seq<Task>, AssemblyError>
  {
    if rows == [] then Ok([])
    else
      match Group(rows[..|rows| - 1])
      case Err(e) => Err(e)
      case Ok(tasks) => Step(tasks, rows[|rows| - 1])
  }

  /** getTodoistEntriesFromCSV's loop: push a task, or push a note onto the last task. */
  method Assemble(rows: seq<Row>) returns (r: Result<seq<Task>, AssemblyError>)
    ensures r == Group(rows)
  {
    var entries: seq<Task> := [];
    var i := 0;
    while i < |rows|
      invariant 0 <= i <= |rows|
      invariant Group(rows[..i]) == Ok(entries)
    {
      var row := rows[i];
      assert rows[..i + 1][..i] == rows[..i];
      if IsTaskRow(row) {
        entries := entries + [NewTask(row)];
      } else if IsNoteRow(row) {
        if |entries| == 0 {
          GroupFailureSticks(rows, i + 1);
          return Err(NoteBeforeTask);
        }
        var last := entries[|entries| - 1];
        entries := entries[..|entries| - 1] + [last.(notes := last.notes + [NoteOf(row)])];
      }
      i := i + 1;
    }
    assert rows[..i] == rows;
    r := Ok(entries);
  }

  /** Once a prefix of the rows fails, so do the rows. */
  lemma {:induction false} GroupFailureSticks(rows: seq<Row>, n: nat)
    requires n <= |rows| && Group(rows[..n]).Err?
    ensures Group(rows) == Group(rows[..n])
    decreases |rows| - n
  {
    if n < |rows| {
      assert rows[..n + 1][..n] == rows[..n];
      GroupFailureSticks(rows, n + 1);
    } else {
      assert rows[..n] == rows;
    }
  }

  /** A row of any other kind leaves the tasks as they were. */
  lemma GroupIgnoresOtherRows(rows: seq<Row>, row: Row)
    requires !IsTaskRow(row) && !IsNoteRow(row)
    ensures Group(rows + [row]) == Group(rows)
  {
    assert (rows + [row])[..|rows|] == rows;
  }

  /** A task row adds a task with no notes after the others. */
  lemma GroupOpensTask(rows: seq<Row>, row: Row)
    requires IsTaskRow(row) && Group(rows).Ok?
    ensures Group(rows + [row]) == Ok(Group(rows).value + [Task(Cell(row, "CONTENT"), Cell(row, "DESCRIPTION"), [])])
  {
    assert (rows + [row])[..|rows|] == rows;
  }

  /** A note row goes, last, into the notes of the most recent task; the other tasks and the
      number of tasks stay as they were. */
  lemma GroupAppendsNote(rows: seq<Row>, row: Row)
    requires IsNoteRow(row) && Group(rows).Ok? && Group(rows).value != []
    ensures Group(rows + [row]).Ok?
    ensures var before := Group(rows).value; var after := Group(rows + [row]).value;
      |after| == |before| &&
      after[..|after| - 1] == before[..|before| - 1] &&
      after[|after| - 1].title == before[|before| - 1].title &&
      after[|after| - 1].description == before[|before| - 1].description &&
      after[|after| - 1].notes == before[|before| - 1].notes + [Note(Cell(row, "CONTENT"), Cell(row, "DATE"))]
  {
    assert (rows + [row])[..|rows|] == rows;
  }

  /* ---------------------------------------------------------------------------------- */
  /* What the assembled tasks are                                                        */

  function TaskCount(rows: seq<Row>): (n: nat)
    ensures n <= |rows|
  {
    if rows == [] then 0
    else TaskCount(rows[..|rows| - 1]) + (if IsTaskRow(rows[|rows| - 1]) then 1 else 0)
  }

  /** There are as many tasks as task rows. */
  lemma {:induction false} GroupCountsTasks(rows: seq<Row>)
    ensures Group(rows).Ok? ==> |Group(rows).value| == TaskCount(rows)
  {
    if rows != [] {
      GroupCountsTasks(rows[..|rows| - 1]);
    }
  }

  /** A note row with no task row before it. */
  ghost predicate OrphanNoteAt(rows: seq<Row>, i: nat)
    requires i < |rows|
  {
    IsNoteRow(rows[i]) && TaskCount(rows[..i]) == 0
  }

  /** Assembly fails exactly when some note row comes before every task row; otherwise no
      note is dropped. */
  lemma {:induction false} GroupFailsOnOrphanNote(rows: seq<Row>)
    ensures Group(rows).Err? <==> exists i :: 0 <= i < |rows| && OrphanNoteAt(rows, i)
  {
    if rows != [] {
      var pre := rows[..|rows| - 1];
      GroupFailsOnOrphanNote(pre);
      GroupCountsTasks(pre);
      forall i | 0 <= i < |pre| ensures OrphanNoteAt(rows, i) == OrphanNoteAt(pre, i) {
        assert rows[..i] == pre[..i];
      }
      assert OrphanNoteAt(rows, |pre|) == (IsNoteRow(rows[|pre|]) && TaskCount(pre) == 0);
      if Group(rows).Err? && Group(pre).Ok? {
        assert OrphanNoteAt(rows, |pre|);
      }
    }
  }

  /** The rows the assembler keeps, one entry each, in order. */
  datatype Entry = TaskEntry(title: Option<string>, description: Option<string>) | NoteEntry(note: Note)

  function Kept(rows: seq<Row>): seq<Entry>
  {
    if rows == [] then []
    else
      var row := rows[|rows| - 1];
      Kept(rows[..|rows| - 1]) +
      (if IsTaskRow(row) then [TaskEntry(Cell(row, "CONTENT"), Cell(row, "DESCRIPTION"))]
       else if IsNoteRow(row) then [NoteEntry(NoteOf(row))]
       else [])
  }

  /** A task written out as its own entry followed by its notes. */
  function NoteEntries(notes: seq<Note>): (r: seq<Entry>)
    ensures |r| == |notes|
  {
    if notes == [] then [] else NoteEntries(notes[..|notes| - 1]) + [NoteEntry(notes[|notes| - 1])]
  }

  function Flatten(tasks: seq<Task>): seq<Entry>
  {
    if tasks == [] then []
    else
      var t := tasks[|tasks| - 1];
      Flatten(tasks[..|tasks| - 1]) + [TaskEntry(t.title, t.description)] + NoteEntries(t.notes)
  }

  /** Writing the tasks out again, each followed by its notes, gives back the task and note
      rows in their original order: every note sits under the task row that most recently
      preceded it, and skipped rows leave no trace. */
  lemma {:induction false} GroupFlattensToRows(rows: seq<Row>)
    requires Group(rows).Ok?
    ensures Flatten(Group(rows).value) == Kept(rows)
  {
    if rows != [] {
      var pre := rows[..|rows| - 1];
      var row := rows[|rows| - 1];
      GroupFlattensToRows(pre);
      var ts := Group(pre).value;
      if !IsTaskRow(row) && IsNoteRow(row) {
        var last := ts[|ts| - 1];
        var ts' := ts[..|ts| - 1] + [last.(notes := last.notes + [NoteOf(row)])];
        assert ts'[..|ts'| - 1] == ts[..|ts| - 1];
        assert NoteEntries(last.notes + [NoteOf(row)]) == NoteEntries(last.notes) + [NoteEntry(NoteOf(row))] by {
          assert (last.notes + [NoteOf(row)])[..|last.notes|] == last.notes;
        }
      }
    }
  }
}
