/**
 * The task store of data/TaskRepository.kt. It owns one text file, tareas.csv, with
 * one `toCsvString` line per task. Every operation reads the whole file, decodes it,
 * sorts it by date and time descending, changes the list in memory and rewrites the
 * whole file.
 *
 * I/O errors are caught by the source and never thrown to the caller. Here they are
 * parameters: a `ReadOutcome` says how many lines a read gets through before an error
 * cuts it short, and `writeFails` says that opening the file for writing fails.
 */
module TaskRepository {
  import opened Wrappers
  import opened Text
  import opened TaskCsv
  import opened TaskOrder

  /** How far reading the file gets: to the end, or only through its first lines. */
  datatype ReadOutcome = ReadsToEnd | FailsAfter(linesRead: nat)

  /** The lines of a file's text that a read delivers before it stops. */
  function ReachedLines(file: Option<string>, outcome: ReadOutcome): (lines: seq<string>)
    ensures file.Some? ==> lines <= Lines(file.value)
    ensures file.Some? && outcome.ReadsToEnd? ==> lines == Lines(file.value)
    ensures file.None? ==> lines == []
    ensures forall i :: 0 <= i < |lines| ==> HasNoLineTerminator(lines[i])
  {
    match file
    case None => []
    case Some(text) =>
      var all := Lines(text);
      match outcome
      case ReadsToEnd => all
      case FailsAfter(k) => if k < |all| then all[..k] else all
  }

  /** The tasks that the lines decode to, in line order; lines that do not decode are
      dropped. */
  function DecodeAll(lines: seq<string>): (tasks: seq<Task>)
    ensures |tasks| <= |lines|
    ensures (forall i :: 0 <= i < |lines| ==> HasNoLineTerminator(lines[i]))
            ==> forall i :: 0 <= i < |tasks| ==> Storable(tasks[i])
  {
    if lines == [] then []
    else
      var init := DecodeAll(lines[..|lines| - 1]);
      var last := lines[|lines| - 1];
      match FromCsvString(last)
      case None => init
      case Some(t) =>
        DecodedIsStorable(last);
        init + [t]
  }

  /** A line is lost only when `fromCsvString` rejects it. */
  lemma {:induction false} DecodeAllDropsOnlyUndecoded(lines: seq<string>)
    ensures |DecodeAll(lines)| == |lines| <==> forall i :: 0 <= i < |lines| ==> FromCsvString(lines[i]).Some?
    decreases |lines|
  {
    if lines != [] {
      var n := |lines|;
      var init, last := lines[..n - 1], lines[n - 1];
      assert lines == init + [last];
      DecodeAllDropsOnlyUndecoded(init);
      DecodeAllSnoc(init, last);
      assert forall i :: 0 <= i < n - 1 ==> init[i] == lines[i];
      if FromCsvString(last).None? {
        assert !FromCsvString(lines[n - 1]).Some?;
      }
    }
  }

  /** What `readAllTasks` returns: the decodable lines it reached, as tasks, sorted by
      date and then time, both descending. */
  function StoredTasks(file: Option<string>, outcome: ReadOutcome): (tasks: seq<Task>)
    ensures Sorted(tasks)
    ensures forall t | t in tasks :: Storable(t)
  {
    var decoded := DecodeAll(ReachedLines(file, outcome));
    var tasks := SortByDateTimeDesc(decoded);
    assert forall t | t in tasks :: Storable(t) by {
      forall t | t in tasks ensures Storable(t) {
        assert t in multiset(decoded);
        var j :| 0 <= j < |decoded| && decoded[j] == t;
      }
    }
    tasks
  }

  /** Each task's line, in list order. */
  function EncodeAll(tasks: seq<Task>): (lines: seq<string>)
    ensures |lines| == |tasks|
  {
    seq(|tasks|, i requires 0 <= i < |tasks| => ToCsvString(tasks[i]))
  }

  /** What `saveAllTasks` writes: each task's line followed by a newline. */
  function FileText(tasks: seq<Task>): string {
    Unlines(EncodeAll(tasks))
  }

  lemma FileTextSnoc(tasks: seq<Task>, t: Task)
    ensures FileText(tasks + [t]) == FileText(tasks) + ToCsvString(t) + "\n"
  {
    var lines := EncodeAll(tasks + [t]);
    assert lines[..|lines| - 1] == EncodeAll(tasks);
  }

  lemma EncodeAllSnoc(tasks: seq<Task>, t: Task)
    ensures EncodeAll(tasks + [t]) == EncodeAll(tasks) + [ToCsvString(t)]
  {
  }

  lemma DecodeAllSnoc(lines: seq<string>, line: string)
    ensures DecodeAll(lines + [line])
            == DecodeAll(lines) + (if FromCsvString(line).Some? then [FromCsvString(line).value] else [])
  {
    assert (lines + [line])[..|lines|] == lines;
  }

  lemma {:induction false} DecodeAllEncodeAll(tasks: seq<Task>)
    requires forall i :: 0 <= i < |tasks| ==> CommaFree(tasks[i])
    ensures DecodeAll(EncodeAll(tasks)) == tasks
    decreases |tasks|
  {
    if tasks != [] {
      var n := |tasks|;
      var init, last := tasks[..n - 1], tasks[n - 1];
      assert tasks == init + [last];
      DecodeAllEncodeAll(init);
      EncodeAllSnoc(init, last);
      DecodeEncode(last);
      DecodeAllSnoc(EncodeAll(init), ToCsvString(last));
    }
  }

  /** A list written by `saveAllTasks` and read back in full comes back as the same
      tasks, sorted. */
  lemma ReadBackWritten(tasks: seq<Task>)
    requires forall i :: 0 <= i < |tasks| ==> Storable(tasks[i])
    ensures StoredTasks(Some(FileText(tasks)), ReadsToEnd) == SortByDateTimeDesc(tasks)
  {
    WrittenLinesReadBack(tasks);
    DecodeAllEncodeAll(tasks);
    StoredTasksOfReached(Some(FileText(tasks)), ReadsToEnd);
  }

  lemma WrittenLinesReadBack(tasks: seq<Task>)
    requires forall i :: 0 <= i < |tasks| ==> Storable(tasks[i])
    ensures ReachedLines(Some(FileText(tasks)), ReadsToEnd) == EncodeAll(tasks)
  {
    var lines := EncodeAll(tasks);
    assert forall i :: 0 <= i < |lines| ==> HasNoLineTerminator(lines[i]);
    LinesUnlines(lines);
  }

  lemma StoredTasksOfReached(file: Option<string>, outcome: ReadOutcome)
    ensures StoredTasks(file, outcome) == SortByDateTimeDesc(DecodeAll(ReachedLines(file, outcome)))
  {
  }

  predicate HasId(tasks: seq<Task>, id: string) {
    exists i :: 0 <= i < |tasks| && tasks[i].id == id
  }

  /** How many tasks have the id. */
  function CountId(tasks: seq<Task>, id: string): (n: nat)
    ensures n <= |tasks|
  {
    if tasks == [] then 0
    else (if tasks[0].id == id then 1 else 0) + CountId(tasks[1..], id)
  }

  lemma {:induction false} CountIdAppend(a: seq<Task>, b: seq<Task>, id: string)
    ensures CountId(a + b, id) == CountId(a, id) + CountId(b, id)
    decreases |a|
  {
    if a != [] {
      CountIdAppend(a[1..], b, id);
      assert (a + b)[1..] == a[1..] + b;
    } else {
      assert a + b == b;
    }
  }

  /** Reordering a list does not change how many of its tasks have a given id. */
  lemma {:induction false} CountIdPermutation(a: seq<Task>, b: seq<Task>, id: string)
    requires multiset(a) == multiset(b)
    ensures CountId(a, id) == CountId(b, id)
    decreases |a|
  {
    if a == [] {
      assert |b| == |multiset(b)| == 0;
    } else {
      var j := RemoveFromPermutation(a, b);
      var rest := b[..j] + b[j + 1..];
      CountIdPermutation(a[1..], rest, id);
      CountIdRemoveAt(b, j, id);
    }
  }

  /** Where b holds a's first element, and what is left of b without it. */
  lemma RemoveFromPermutation(a: seq<Task>, b: seq<Task>) returns (j: nat)
    requires a != [] && multiset(a) == multiset(b)
    ensures j < |b| && b[j] == a[0]
    ensures multiset(a[1..]) == multiset(b[..j] + b[j + 1..])
  {
    var x := a[0];
    assert x in multiset(b);
    j :| 0 <= j < |b| && b[j] == x;
    var rest := b[..j] + b[j + 1..];
    assert b == b[..j] + [x] + b[j + 1..];
    assert a == [x] + a[1..];
    assert multiset(a) == multiset{x} + multiset(a[1..]);
    assert multiset(b) == multiset{x} + multiset(rest);
    assert multiset(a[1..]) == multiset(a) - multiset{x};
    assert multiset(rest) == multiset(b) - multiset{x};
  }

  lemma CountIdRemoveAt(b: seq<Task>, j: nat, id: string)
    requires j < |b|
    ensures CountId(b, id) == (if b[j].id == id then 1 else 0) + CountId(b[..j] + b[j + 1..], id)
  {
    var left, right := b[..j], b[j + 1..];
    assert b == left + ([b[j]] + right);
    CountIdAppend(left, [b[j]] + right, id);
    CountIdAppend([b[j]], right, id);
    CountIdAppend(left, right, id);
  }

  lemma HasIdAppend(a: seq<Task>, b: seq<Task>, id: string)
    ensures HasId(a + b, id) <==> HasId(a, id) || HasId(b, id)
  {
    if HasId(a + b, id) {
      var k :| 0 <= k < |a + b| && (a + b)[k].id == id;
      if k >= |a| {
        assert b[k - |a|].id == id;
      }
    }
    if HasId(b, id) {
      var k :| 0 <= k < |b| && b[k].id == id;
      assert (a + b)[|a| + k].id == id;
    }
    if HasId(a, id) {
      var k :| 0 <= k < |a| && a[k].id == id;
      assert (a + b)[k].id == id;
    }
  }

  lemma HasIdCons(tasks: seq<Task>, id: string)
    requires tasks != []
    ensures HasId(tasks, id) <==> tasks[0].id == id || HasId(tasks[1..], id)
  {
    if HasId(tasks[1..], id) {
      var k :| 0 <= k < |tasks[1..]| && tasks[1..][k].id == id;
      assert tasks[k + 1].id == id;
    }
    if HasId(tasks, id) && tasks[0].id != id {
      var k :| 0 <= k < |tasks| && tasks[k].id == id;
      assert tasks[1..][k - 1].id == id;
    }
  }

  /** Kotlin's `indexOfFirst { it.id == id }`: the first position holding the id, or -1. */
  function IndexOfId(tasks: seq<Task>, id: string): (i: int)
    ensures -1 <= i < |tasks|
    ensures i == -1 <==> !HasId(tasks, id)
    ensures 0 <= i ==> tasks[i].id == id && forall k :: 0 <= k < i ==> tasks[k].id != id
  {
    if tasks == [] then -1
    else if tasks[0].id == id then 0
    else
      var j := IndexOfId(tasks[1..], id);
      assert forall k :: 1 <= k < |tasks| ==> tasks[k] == tasks[1..][k - 1];
      if j == -1 then -1 else j + 1
  }

  /** Kotlin's `removeIf { it.id == id }`: every task with the id goes, the others stay
      in their order. */
  function RemoveId(tasks: seq<Task>, id: string): (r: seq<Task>)
    ensures !HasId(r, id)
    ensures |r| == |tasks| - CountId(tasks, id)
  {
    if tasks == [] then []
    else
      var rest := RemoveId(tasks[1..], id);
      HasIdCons([tasks[0]] + rest, id);
      assert ([tasks[0]] + rest)[1..] == rest;
      if tasks[0].id == id then rest else [tasks[0]] + rest
  }

  /** `removeIf` keeps exactly the tasks whose id differs. */
  lemma {:induction false} RemoveIdMembers(tasks: seq<Task>, id: string)
    ensures forall t | t in RemoveId(tasks, id) :: t in tasks && t.id != id
    ensures forall t | t in tasks && t.id != id :: t in RemoveId(tasks, id)
    decreases |tasks|
  {
    if tasks != [] {
      RemoveIdMembers(tasks[1..], id);
      assert forall t | t in tasks[1..] :: t in tasks;
      assert forall t | t in tasks && t != tasks[0] :: t in tasks[1..];
    }
  }

  /** `removeIf` keeps a sorted list sorted. */
  lemma {:induction false} RemoveIdSorted(tasks: seq<Task>, id: string)
    requires Sorted(tasks)
    ensures Sorted(RemoveId(tasks, id))
    decreases |tasks|
  {
    if tasks != [] {
      var rest := RemoveId(tasks[1..], id);
      RemoveIdSorted(tasks[1..], id);
      if tasks[0].id != id {
        RemoveIdMembers(tasks[1..], id);
        forall j | 0 <= j < |rest| ensures !Precedes(rest[j], tasks[0]) {
          assert rest[j] in tasks[1..];
          var k :| 0 <= k < |tasks[1..]| && tasks[1..][k] == rest[j];
          assert tasks[k + 1] == rest[j];
        }
        SortedCons(tasks[0], rest);
      }
    }
  }

  /** Some task has the id exactly when the count of such tasks is positive, so
      `removeIf` shrinks the list exactly when some task has the id. */
  lemma {:induction false} CountIdHasId(tasks: seq<Task>, id: string)
    ensures CountId(tasks, id) > 0 <==> HasId(tasks, id)
    ensures |RemoveId(tasks, id)| < |tasks| <==> HasId(tasks, id)
    decreases |tasks|
  {
    if tasks != [] {
      CountIdHasId(tasks[1..], id);
      HasIdCons(tasks, id);
    }
  }

  /** Any list of storable tasks, written and read back in full, comes back as the same
      tasks in some order. */
  lemma ReadBackSameTasks(written: seq<Task>)
    requires forall t | t in written :: Storable(t)
    ensures var after := StoredTasks(Some(FileText(written)), ReadsToEnd);
            multiset(after) == multiset(written) && |after| == |written|
  {
    assert forall k :: 0 <= k < |written| ==> Storable(written[k]) by {
      forall k | 0 <= k < |written| ensures Storable(written[k]) {
        assert written[k] in written;
      }
    }
    ReadBackWritten(written);
    var after := StoredTasks(Some(FileText(written)), ReadsToEnd);
    assert multiset(after) == multiset(written);
    assert |after| == |multiset(after)| == |multiset(written)| == |written|;
  }

  /** After `saveTaskToCSV(t)` a full read gives the old tasks and `t`: one more task,
      and one more with `t`'s id. */
  lemma ReadBackAfterCreate(file: Option<string>, read: ReadOutcome, t: Task)
    requires Storable(t)
    ensures var before := StoredTasks(file, read);
            var after := StoredTasks(Some(FileText(before + [t])), ReadsToEnd);
            multiset(after) == multiset(before) + multiset{t}
            && |after| == |before| + 1
            && CountId(after, t.id) == CountId(before, t.id) + 1
  {
    var before := StoredTasks(file, read);
    var written := before + [t];
    assert forall u | u in written :: Storable(u) by {
      forall u | u in written ensures Storable(u) {
        if u != t {
          assert u in before;
        }
      }
    }
    ReadBackSameTasks(written);
    var after := StoredTasks(Some(FileText(written)), ReadsToEnd);
    assert multiset(written) == multiset(before) + multiset{t};
    CountIdPermutation(after, written, t.id);
    CountIdAppend(before, [t], t.id);
    assert CountId([t], t.id) == 1;
  }

  /** After `updateTaskInCSV(t)` replaced a task, a full read gives the same number of
      tasks, with the replaced one traded for `t`. */
  lemma ReadBackAfterReplace(file: Option<string>, read: ReadOutcome, t: Task)
    requires Storable(t)
    requires IndexOfId(StoredTasks(file, read), t.id) >= 0
    ensures var before := StoredTasks(file, read);
            var i := IndexOfId(before, t.id);
            var after := StoredTasks(Some(FileText(before[i := t])), ReadsToEnd);
            multiset(after) == multiset(before) - multiset{before[i]} + multiset{t}
            && |after| == |before|
  {
    var before := StoredTasks(file, read);
    var i := IndexOfId(before, t.id);
    var written := before[i := t];
    assert forall u | u in written :: Storable(u) by {
      forall u | u in written ensures Storable(u) {
        var k :| 0 <= k < |written| && written[k] == u;
        if k != i {
          assert before[k] in before;
        }
      }
    }
    ReadBackSameTasks(written);
  }

  /** After `deleteTaskById(id)` a full read gives exactly the other tasks, in the order
      they had, and none with the id; so a second delete of the same id removes nothing
      and fails. */
  lemma ReadBackAfterDelete(file: Option<string>, read: ReadOutcome, id: string)
    ensures var before := StoredTasks(file, read);
            var after := StoredTasks(Some(FileText(RemoveId(before, id))), ReadsToEnd);
            after == RemoveId(before, id)
            && !HasId(after, id) && |after| == |before| - CountId(before, id)
            && |RemoveId(after, id)| == |after|
  {
    var before := StoredTasks(file, read);
    var written := RemoveId(before, id);
    RemoveIdMembers(before, id);
    assert forall k :: 0 <= k < |written| ==> Storable(written[k]) by {
      forall k | 0 <= k < |written| ensures Storable(written[k]) {
        assert written[k] in written;
      }
    }
    RemoveIdSorted(before, id);
    ReadBackWritten(written);
    SortOfSorted(written);
    CountIdHasId(written, id);
  }

  class TaskStore {
    /** tareas.csv: None while no such file exists, otherwise its text. */
    var file: Option<string>

    /** `init`: a missing file is created empty; an existing one is left alone. */
    constructor (onDisk: Option<string>)
      ensures file == if onDisk.Some? then onDisk else Some([])
      ensures file.Some? && (onDisk.None? ==> Lines(file.value) == [])
    {
      if onDisk.None? {
        file := Some([]);
      } else {
        file := onDisk;
      }
    }

    /** `readAllTasks`: decode each line it gets to, drop those that do not decode, then
        sort by date and time descending. A missing file gives the empty list. */
    method ReadAllTasks(outcome: ReadOutcome) returns (tasks: seq<Task>)
      ensures Sorted(tasks)
      ensures multiset(tasks) == multiset(DecodeAll(ReachedLines(file, outcome)))
      ensures tasks == StoredTasks(file, outcome)
    {
      var found: seq<Task> := [];
      if file.None? {
        return found;
      }
      var lines := ReachedLines(file, outcome);
      var i := 0;
      while i < |lines|
        invariant 0 <= i <= |lines|
        invariant found == DecodeAll(lines[..i])
      {
        assert lines[..i + 1][..i] == lines[..i];
        var decoded := FromCsvString(lines[i]);
        if decoded.Some? {
          found := found + [decoded.value];
        }
        i := i + 1;
      }
      assert lines[..i] == lines;
      tasks := SortByDateTimeDesc(found);
    }

    /** `saveAllTasks`: replace the file by one line per task, in list order. */
    method SaveAllTasks(tasks: seq<Task>, writeFails: bool) returns (ok: bool)
      modifies this
      ensures ok == !writeFails
      ensures file == if ok then Some(FileText(tasks)) else old(file)
    {
      if writeFails {
        return false;
      }
      var text := "";
      var i := 0;
      while i < |tasks|
        invariant 0 <= i <= |tasks|
        invariant text == FileText(tasks[..i])
      {
        FileTextSnoc(tasks[..i], tasks[i]);
        assert tasks[..i + 1] == tasks[..i] + [tasks[i]];
        text := text + ToCsvString(tasks[i]) + "\n";
        i := i + 1;
      }
      assert tasks[..i] == tasks;
      file := Some(text);
      ok := true;
    }

    /** `saveTaskToCSV`: the sorted current tasks followed by `t` replace the file. */
    method SaveTaskToCSV(t: Task, read: ReadOutcome, writeFails: bool) returns (ok: bool)
      modifies this
      ensures ok == !writeFails
      ensures file == if ok then Some(FileText(StoredTasks(old(file), read) + [t])) else old(file)
    {
      var tasks := ReadAllTasks(read);
      tasks := tasks + [t];
      ok := SaveAllTasks(tasks, writeFails);
    }

    /** `updateTaskInCSV`: the first task in sorted order with `t`'s id is replaced by
        `t` and nothing else moves; with no such task, `t` is saved as a new task (which
        reads the file a second time, with its own outcome). */
    method UpdateTaskInCSV(t: Task, read: ReadOutcome, fallbackRead: ReadOutcome, writeFails: bool)
      returns (ok: bool)
      modifies this
      ensures ok == !writeFails
      ensures var before := StoredTasks(old(file), read);
              var i := IndexOfId(before, t.id);
              file == if !ok then old(file)
                      else if i >= 0 then Some(FileText(before[i := t]))
                      else Some(FileText(StoredTasks(old(file), fallbackRead) + [t]))
    {
      var tasks := ReadAllTasks(read);
      var index := IndexOfId(tasks, t.id);
      if index != -1 {
        tasks := tasks[index := t];
        ok := SaveAllTasks(tasks, writeFails);
      } else {
        ok := SaveTaskToCSV(t, fallbackRead, writeFails);
      }
    }

    /** `deleteTaskById`: every task with the id is removed and the rest are rewritten in
        sorted order; when no task has the id nothing is written and the result is false. */
    method DeleteTaskById(id: string, read: ReadOutcome, writeFails: bool) returns (ok: bool)
      modifies this
      ensures var before := StoredTasks(old(file), read);
              (ok <==> HasId(before, id) && !writeFails)
              && file == if ok then Some(FileText(RemoveId(before, id))) else old(file)
    {
      var tasks := ReadAllTasks(read);
      var originalSize := |tasks|;
      CountIdHasId(tasks, id);
      tasks := RemoveId(tasks, id);
      if |tasks| < originalSize {
        ok := SaveAllTasks(tasks, writeFails);
      } else {
        ok := false;
      }
    }
  }
}
