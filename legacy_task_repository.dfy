/**
 * The first version of the task store, `TaskRepository` in the app's root package. It
 * keeps the same tareas.csv as the current store but reads it leniently and without
 * sorting, appends a new task as one more line, and on update and delete copies the
 * file line by line into a temporary file that then takes the original's place; a
 * line is matched on its first comma-separated field.
 */
module LegacyTaskRepository {
  import opened Wrappers
  import opened Text
  import opened TaskCsv
  import TaskRepository

  /** `line.split(",")[0]`: the longest comma-free prefix of the line. */
  function FirstField(line: string): (f: string)
    ensures ',' !in f
    ensures f <= line
    ensures |f| < |line| ==> line[|f|] == ','
  {
    FirstFieldIsPrefix(line);
    Split(line, ',')[0]
  }

  lemma {:induction false} FirstFieldIsPrefix(line: string)
    ensures Split(line, ',')[0] <= line
    ensures |Split(line, ',')[0]| < |line| ==> line[|Split(line, ',')[0]|] == ','
    decreases |line|
  {
    if line != [] && line[0] != ',' {
      FirstFieldIsPrefix(line[1..]);
    }
  }

  /** The line written for a task starts with its id, so a later update or delete by
      that id finds it, as long as the id holds no comma. */
  lemma FirstFieldOfTaskLine(t: Task)
    requires ',' !in t.id
    ensures FirstField(ToCsvString(t)) == t.id
  {
    var f := Fields(t);
    assert ToCsvString(t) == t.id + [','] + Join(f[1..], ',');
    SplitAfterFirstPart(t.id, ',', Join(f[1..], ','));
  }

  lemma CommaIsNotBlank(line: string)
    ensures multiset(line)[','] > 0 ==> ',' in line && !IsBlank(line)
  {
    if multiset(line)[','] > 0 {
      assert ',' in multiset(line);
      var i :| 0 <= i < |line| && line[i] == ',';
      assert !IsWhitespace(line[i]);
    }
  }

  /** How the legacy reader treats one line: a blank line or one without a comma is
      skipped; a line of at least eight parts gives a task made of the first eight, the
      alarm flag read as `toBoolean` reads it, and any further parts are ignored. The
      blank-or-no-comma guard never rejects a line the part count would accept. */
  function ParseLine(line: string): (r: Option<Task>)
    ensures r.Some? <==> multiset(line)[','] >= 7
    ensures r.Some? ==> Fields(r.value)[..7] == Split(line, ',')[..7]
    ensures r.Some? ==> r.value.id == FirstField(line)
    ensures r.Some? ==> (r.value.requiresAlarm <==> ToBoolean(Split(line, ',')[7]))
  {
    CommaIsNotBlank(line);
    if IsBlank(line) || ',' !in line then None
    else
      var parts := Split(line, ',');
      if |parts| >= 8 then
        Some(Task(parts[0], parts[1], parts[2], parts[3], parts[4], parts[5], parts[6], ToBoolean(parts[7])))
      else None
  }

  /** Every line the current `fromCsvString` accepts gives the legacy reader the same
      task; the legacy reader also accepts exactly the lines of more than eight parts. */
  lemma ParseLineAgrees(line: string)
    ensures FromCsvString(line).Some? ==> ParseLine(line) == FromCsvString(line)
    ensures ParseLine(line).Some? && FromCsvString(line).None? <==> multiset(line)[','] >= 8
  {
    if FromCsvString(line).Some? {
      var a, b := ParseLine(line).value, FromCsvString(line).value;
      assert Fields(a)[..7] == Fields(b)[..7];
      assert Fields(a)[0] == a.id && Fields(b)[0] == b.id;
      assert Fields(a)[1] == a.name && Fields(b)[1] == b.name;
      assert Fields(a)[2] == a.description && Fields(b)[2] == b.description;
      assert Fields(a)[3] == a.status && Fields(b)[3] == b.status;
      assert Fields(a)[4] == a.date && Fields(b)[4] == b.date;
      assert Fields(a)[5] == a.time && Fields(b)[5] == b.time;
      assert Fields(a)[6] == a.category && Fields(b)[6] == b.category;
    }
  }

  /** A task that can be stored reads back as itself from its own line. */
  lemma ParseLineOfTask(t: Task)
    requires CommaFree(t)
    ensures ParseLine(ToCsvString(t)) == Some(t)
  {
    DecodeEncode(t);
    ParseLineAgrees(ToCsvString(t));
  }

  /** A comma inside the name shifts every later field one place: the current reader
      drops such a line, the legacy reader turns it into a different task whose
      description is the rest of the name and whose alarm flag is read from the
      category. */
  lemma CommaInNameShiftsFields(t: Task, x: string, y: string)
    requires t.name == x + [','] + y && ',' !in x && ',' !in y
    requires ',' !in t.id && ',' !in t.description && ',' !in t.status
    requires ',' !in t.date && ',' !in t.time && ',' !in t.category
    ensures FromCsvString(ToCsvString(t)).None?
    ensures ParseLine(ToCsvString(t))
            == Some(Task(t.id, x, y, t.description, t.status, t.date, t.time, ToBoolean(t.category)))
  {
    var p := ShiftedParts(t, x, y);
    SplitJoin(p, ',');
    var line := ToCsvString(t);
    assert Split(line, ',') == p;
    CommaIsNotBlank(line);
  }

  /** The line of a task whose name holds one comma, seen as nine comma-free parts. */
  lemma ShiftedParts(t: Task, x: string, y: string) returns (p: seq<string>)
    requires t.name == x + [','] + y && ',' !in x && ',' !in y
    requires ',' !in t.id && ',' !in t.description && ',' !in t.status
    requires ',' !in t.date && ',' !in t.time && ',' !in t.category
    ensures p == [t.id, x, y, t.description, t.status, t.date, t.time, t.category, BoolText(t.requiresAlarm)]
    ensures forall i :: 0 <= i < |p| ==> ',' !in p[i]
    ensures ToCsvString(t) == Join(p, ',')
  {
    var f := Fields(t);
    p := [t.id, x, y, t.description, t.status, t.date, t.time, t.category, BoolText(t.requiresAlarm)];
    assert ',' !in BoolText(t.requiresAlarm);
    var rest := Join(f[2..], ',');
    assert p[3..] == f[2..];
    calc {
      Join(p, ',');
      t.id + [','] + Join(p[1..], ',');
      { assert p[1..][1..] == p[2..]; }
      t.id + [','] + (x + [','] + Join(p[2..], ','));
      { assert p[2..][1..] == p[3..]; }
      t.id + [','] + (x + [','] + (y + [','] + rest));
      t.id + [','] + (t.name + [','] + rest);
      { assert f[1..][1..] == f[2..]; }
      t.id + [','] + Join(f[1..], ',');
      Join(f, ',');
    }
  }

  /** The tasks the legacy reader builds from the lines it reads, in file order. */
  function ParseAll(lines: seq<string>): (tasks: seq<Task>)
    ensures |tasks| <= |lines|
  {
    if lines == [] then []
    else
      var init := ParseAll(lines[..|lines| - 1]);
      match ParseLine(lines[|lines| - 1])
      case None => init
      case Some(t) => init + [t]
  }

  /** A line is lost only when it does not parse: every line gives a task exactly when
      every line parses. */
  lemma {:induction false} ParseAllDropsOnlyUnparsed(lines: seq<string>)
    ensures |ParseAll(lines)| == |lines| <==> forall i :: 0 <= i < |lines| ==> ParseLine(lines[i]).Some?
    decreases |lines|
  {
    if lines != [] {
      var n := |lines|;
      var init, last := lines[..n - 1], lines[n - 1];
      assert lines == init + [last];
      ParseAllDropsOnlyUnparsed(init);
      ParseAllSnoc(init, last);
      assert forall i :: 0 <= i < n - 1 ==> init[i] == lines[i];
      if ParseLine(last).None? {
        assert !ParseLine(lines[n - 1]).Some?;
      }
    }
  }

  /** `readAllTasks`: a missing file reads as no tasks. */
  function ReadTasks(file: Option<string>): (tasks: seq<Task>)
    ensures file.None? ==> tasks == []
    ensures |tasks| <= |Lines(file.GetOr([]))|
  {
    if file.None? then [] else ParseAll(Lines(file.value))
  }

  lemma ParseAllSnoc(lines: seq<string>, line: string)
    ensures ParseAll(lines + [line])
            == ParseAll(lines) + (if ParseLine(line).Some? then [ParseLine(line).value] else [])
  {
    assert (lines + [line])[..|lines|] == lines;
  }

  lemma {:induction false} ParseAllEncodeAll(tasks: seq<Task>)
    requires forall i :: 0 <= i < |tasks| ==> CommaFree(tasks[i])
    ensures ParseAll(TaskRepository.EncodeAll(tasks)) == tasks
    decreases |tasks|
  {
    if tasks != [] {
      var n := |tasks|;
      var init, last := tasks[..n - 1], tasks[n - 1];
      assert tasks == init + [last];
      ParseAllEncodeAll(init);
      TaskRepository.EncodeAllSnoc(init, last);
      ParseLineOfTask(last);
      ParseAllSnoc(TaskRepository.EncodeAll(init), ToCsvString(last));
    }
  }

  /** Both stores share tareas.csv: a file the current store wrote reads back through
      the legacy reader as the same tasks in the same order. */
  lemma ReadsCurrentStoreFile(tasks: seq<Task>)
    requires forall i :: 0 <= i < |tasks| ==> Storable(tasks[i])
    ensures ReadTasks(Some(TaskRepository.FileText(tasks))) == tasks
  {
    TaskRepository.WrittenLinesReadBack(tasks);
    ParseAllEncodeAll(tasks);
  }

  /** A text that `appendText` can extend by a whole line. */
  predicate EndsWithLineBreak(text: string) {
    text == [] || text[|text| - 1] == '\n'
  }

  /** After `saveTaskToCSV(t)` appended its line to a file that ended with a line break
      (or did not exist), a read gives the old tasks followed by `t`. */
  lemma ReadBackAfterAppend(file: Option<string>, t: Task)
    requires file.None? || EndsWithLineBreak(file.value)
    requires Storable(t)
    ensures EndsWithLineBreak(file.GetOr([]) + ToCsvString(t) + "\n")
    ensures ReadTasks(Some(file.GetOr([]) + ToCsvString(t) + "\n")) == ReadTasks(file) + [t]
  {
    var text, line := file.GetOr([]), ToCsvString(t);
    assert HasNoLineTerminator(line);
    assert ReadTasks(file) == ParseAll(Lines(text)) by {
      if file.None? {
        assert Lines(text) == [];
      }
    }
    LinesAppendLine(text, line);
    ParseLineOfTask(t);
    ParseAllSnoc(Lines(text), line);
  }

  /** The legacy append extends any file the current store wrote: a read gives the
      tasks written, then `t`. */
  lemma AppendToCurrentStoreFile(tasks: seq<Task>, t: Task)
    requires forall i :: 0 <= i < |tasks| ==> Storable(tasks[i])
    requires Storable(t)
    ensures var text := TaskRepository.FileText(tasks);
            ReadTasks(Some(text + ToCsvString(t) + "\n")) == tasks + [t]
  {
    UnlinesEndsWithLineBreak(TaskRepository.EncodeAll(tasks));
    ReadBackAfterAppend(Some(TaskRepository.FileText(tasks)), t);
    ReadsCurrentStoreFile(tasks);
  }

  /** The line `updateTaskInCSV(t)` writes for `line`. */
  function RewriteLine(line: string, t: Task): (r: string)
    ensures FirstField(line) != t.id ==> r == line
    ensures HasNoLineTerminator(line) && LineSafe(t) ==> HasNoLineTerminator(r)
  {
    if FirstField(line) == t.id then ToCsvString(t) else line
  }

  /** The lines `updateTaskInCSV(t)` writes to the temporary file, one per line read. */
  function RewriteLines(lines: seq<string>, t: Task): (r: seq<string>)
    ensures |r| == |lines|
    ensures forall i :: 0 <= i < |lines| && FirstField(lines[i]) != t.id ==> r[i] == lines[i]
  {
    seq(|lines|, i requires 0 <= i < |lines| => RewriteLine(lines[i], t))
  }

  lemma UnlinesSnoc(lines: seq<string>, line: string)
    ensures Unlines(lines + [line]) == Unlines(lines) + line + "\n"
  {
    assert (lines + [line])[..|lines|] == lines;
  }

  lemma RewriteLinesSnoc(lines: seq<string>, line: string, t: Task)
    ensures RewriteLines(lines + [line], t) == RewriteLines(lines, t) + [RewriteLine(line, t)]
  {
  }

  lemma RewriteStep(lines: seq<string>, i: nat, t: Task)
    requires i < |lines|
    ensures Unlines(RewriteLines(lines[..i + 1], t))
            == Unlines(RewriteLines(lines[..i], t)) + RewriteLine(lines[i], t) + "\n"
    ensures RewriteLine(lines[i], t)
            == if Split(lines[i], ',')[0] == t.id then ToCsvString(t) else lines[i]
  {
    assert lines[..i + 1] == lines[..i] + [lines[i]];
    RewriteLinesSnoc(lines[..i], lines[i], t);
    UnlinesSnoc(RewriteLines(lines[..i], t), RewriteLine(lines[i], t));
  }

  /** An update keeps the number of lines, and a second update with the same task
      changes nothing more. */
  lemma RewriteIdempotent(lines: seq<string>, t: Task)
    ensures |RewriteLines(lines, t)| == |lines|
    ensures RewriteLines(RewriteLines(lines, t), t) == RewriteLines(lines, t)
  {
    if ',' !in t.id {
      FirstFieldOfTaskLine(t);
    }
  }

  /** With no line whose first field is the id, an update writes every line back as it
      was: unlike the current store, the legacy one does not add the task. */
  lemma UpdateOfAbsentIdAddsNothing(text: string, t: Task)
    requires forall i :: 0 <= i < |Lines(text)| ==> FirstField(Lines(text)[i]) != t.id
    ensures ReadTasks(Some(Unlines(RewriteLines(Lines(text), t)))) == ReadTasks(Some(text))
  {
    var lines := Lines(text);
    assert RewriteLines(lines, t) == lines;
    LinesUnlines(lines);
  }

  lemma {:induction false} RemoveIdSnoc(a: seq<Task>, x: Task, id: string)
    ensures TaskRepository.RemoveId(a + [x], id)
            == TaskRepository.RemoveId(a, id) + (if x.id == id then [] else [x])
    decreases |a|
  {
    if a == [] {
      assert a + [x] == [x] && [x][1..] == [];
    } else {
      var tail := a[1..] + [x];
      assert (a + [x])[1..] == tail;
      assert (a + [x])[0] == a[0];
      RemoveIdSnoc(a[1..], x, id);
      var last := if x.id == id then [] else [x];
      var r := TaskRepository.RemoveId(a[1..], id);
      if a[0].id == id {
        assert TaskRepository.RemoveId(a + [x], id) == TaskRepository.RemoveId(tail, id);
        assert TaskRepository.RemoveId(a, id) == r;
      } else {
        assert TaskRepository.RemoveId(a + [x], id) == [a[0]] + (r + last);
        assert TaskRepository.RemoveId(a, id) == [a[0]] + r;
      }
    }
  }

  /** What a line contributes to the tasks read: its task, or nothing. */
  function Parsed(line: string): seq<Task> {
    if ParseLine(line).Some? then [ParseLine(line).value] else []
  }

  lemma {:induction false} RemoveIdAppend(a: seq<Task>, b: seq<Task>, id: string)
    ensures TaskRepository.RemoveId(a + b, id)
            == TaskRepository.RemoveId(a, id) + TaskRepository.RemoveId(b, id)
    decreases |a|
  {
    if a == [] {
      assert a + b == b;
    } else {
      assert (a + b)[1..] == a[1..] + b;
      assert (a + b)[0] == a[0];
      RemoveIdAppend(a[1..], b, id);
    }
  }

  /** Appending parts that agree away from the id to lists that agree away from the id. */
  lemma AppendAgreeing(after: seq<Task>, before: seq<Task>, ex: seq<Task>, ey: seq<Task>, t: Task)
    requires forall u | u in after && u.id == t.id :: u == t
    requires forall u | u in ex && u.id == t.id :: u == t
    requires TaskRepository.RemoveId(after, t.id) == TaskRepository.RemoveId(before, t.id)
    requires TaskRepository.RemoveId(ex, t.id) == TaskRepository.RemoveId(ey, t.id)
    ensures forall u | u in after + ex && u.id == t.id :: u == t
    ensures TaskRepository.RemoveId(after + ex, t.id) == TaskRepository.RemoveId(before + ey, t.id)
  {
    RemoveIdAppend(after, ex, t.id);
    RemoveIdAppend(before, ey, t.id);
  }

  /** The rewritten line contributes `t` or what the line contributed, and the two agree
      away from `t`'s id. */
  lemma RewriteLineAgrees(line: string, t: Task)
    requires CommaFree(t)
    ensures forall u | u in Parsed(RewriteLine(line, t)) && u.id == t.id :: u == t
    ensures TaskRepository.RemoveId(Parsed(RewriteLine(line, t)), t.id)
            == TaskRepository.RemoveId(Parsed(line), t.id)
  {
    if FirstField(line) == t.id {
      ParseLineOfTask(t);
      assert Parsed(RewriteLine(line, t)) == [t];
      assert [t][1..] == [];
      if ParseLine(line).Some? {
        var v := ParseLine(line).value;
        assert [v][1..] == [];
        assert TaskRepository.RemoveId([v], t.id) == [];
      }
    }
  }

  /** The rewritten line yields a task with `t`'s id exactly when the line matched. */
  lemma RewrittenLineHasId(line: string, t: Task)
    requires CommaFree(t)
    ensures TaskRepository.HasId(Parsed(RewriteLine(line, t)), t.id) <==> FirstField(line) == t.id
  {
    if FirstField(line) == t.id {
      ParseLineOfTask(t);
      assert Parsed(RewriteLine(line, t))[0].id == t.id;
    }
  }

  lemma MatchingLineSnoc(lines: seq<string>, line: string, id: string)
    ensures (exists i :: 0 <= i < |lines + [line]| && FirstField((lines + [line])[i]) == id)
            <==> (exists i :: 0 <= i < |lines| && FirstField(lines[i]) == id) || FirstField(line) == id
  {
    var all := lines + [line];
    if exists i :: 0 <= i < |lines| && FirstField(lines[i]) == id {
      var i :| 0 <= i < |lines| && FirstField(lines[i]) == id;
      assert all[i] == lines[i];
    }
    if exists i :: 0 <= i < |all| && FirstField(all[i]) == id {
      var i :| 0 <= i < |all| && FirstField(all[i]) == id;
      if i < |lines| {
        assert all[i] == lines[i];
      }
    }
    assert all[|lines|] == line;
  }

  /** After an update, some task read has `t`'s id exactly when some line matched. */
  lemma {:induction false} ParseRewrittenHasId(lines: seq<string>, t: Task)
    requires CommaFree(t)
    ensures TaskRepository.HasId(ParseAll(RewriteLines(lines, t)), t.id)
            <==> exists i :: 0 <= i < |lines| && FirstField(lines[i]) == t.id
    decreases |lines|
  {
    if lines != [] {
      var n := |lines|;
      var init, last := lines[..n - 1], lines[n - 1];
      assert lines == init + [last];
      ParseRewrittenHasId(init, t);
      RewriteLinesSnoc(init, last, t);
      ParseAllSnoc(RewriteLines(init, t), RewriteLine(last, t));
      TaskRepository.HasIdAppend(ParseAll(RewriteLines(init, t)), Parsed(RewriteLine(last, t)), t.id);
      RewrittenLineHasId(last, t);
      MatchingLineSnoc(init, last, t.id);
    }
  }

  lemma {:induction false} ParseRewritten(lines: seq<string>, t: Task)
    requires CommaFree(t)
    ensures var after := ParseAll(RewriteLines(lines, t));
            (forall u | u in after && u.id == t.id :: u == t)
            && TaskRepository.RemoveId(after, t.id) == TaskRepository.RemoveId(ParseAll(lines), t.id)
    decreases |lines|
  {
    if lines != [] {
      var n := |lines|;
      var init, last := lines[..n - 1], lines[n - 1];
      assert lines == init + [last];
      ParseRewritten(init, t);
      RewriteLinesSnoc(init, last, t);
      ParseAllSnoc(RewriteLines(init, t), RewriteLine(last, t));
      ParseAllSnoc(init, last);
      RewriteLineAgrees(last, t);
      AppendAgreeing(ParseAll(RewriteLines(init, t)), ParseAll(init),
                     Parsed(RewriteLine(last, t)), Parsed(last), t);
    }
  }

  /** After `updateTaskInCSV(t)` swapped its copy in, every task read with `t`'s id is
      `t`, and the tasks with other ids are read as before, in the same order. */
  lemma ReadBackAfterUpdate(text: string, t: Task)
    requires Storable(t)
    ensures var after := ReadTasks(Some(Unlines(RewriteLines(Lines(text), t))));
            (forall u | u in after && u.id == t.id :: u == t)
            && TaskRepository.RemoveId(after, t.id)
               == TaskRepository.RemoveId(ReadTasks(Some(text)), t.id)
            && (TaskRepository.HasId(after, t.id)
                <==> exists i :: 0 <= i < |Lines(text)| && FirstField(Lines(text)[i]) == t.id)
  {
    var lines := Lines(text);
    var written := RewriteLines(lines, t);
    assert forall i :: 0 <= i < |written| ==> HasNoLineTerminator(written[i]);
    LinesUnlines(written);
    ParseRewritten(lines, t);
    ParseRewrittenHasId(lines, t);
  }

  /** The lines `deleteTaskById(id)` copies to the temporary file: those whose first
      field is not the id, in file order. */
  function KeepOtherLines(lines: seq<string>, id: string): (kept: seq<string>)
    ensures |kept| <= |lines|
    ensures forall line | line in kept :: line in lines && FirstField(line) != id
    ensures forall line | line in lines && FirstField(line) != id :: line in kept
  {
    if lines == [] then []
    else
      var init := KeepOtherLines(lines[..|lines| - 1], id);
      var last := lines[|lines| - 1];
      assert lines == lines[..|lines| - 1] + [last];
      if FirstField(last) != id then init + [last] else init
  }

  lemma KeepOtherLinesSnoc(lines: seq<string>, line: string, id: string)
    ensures KeepOtherLines(lines + [line], id)
            == KeepOtherLines(lines, id) + (if FirstField(line) != id then [line] else [])
  {
    assert (lines + [line])[..|lines|] == lines;
  }

  lemma KeepStep(lines: seq<string>, i: nat, id: string)
    requires i < |lines|
    ensures Unlines(KeepOtherLines(lines[..i + 1], id))
            == if Split(lines[i], ',')[0] != id then Unlines(KeepOtherLines(lines[..i], id)) + lines[i] + "\n"
               else Unlines(KeepOtherLines(lines[..i], id))
  {
    assert lines[..i + 1] == lines[..i] + [lines[i]];
    KeepOtherLinesSnoc(lines[..i], lines[i], id);
    if Split(lines[i], ',')[0] != id {
      UnlinesSnoc(KeepOtherLines(lines[..i], id), lines[i]);
    }
  }

  /** Deleting the same id twice leaves what deleting it once left. */
  lemma {:induction false} KeepOtherLinesIdempotent(lines: seq<string>, id: string)
    ensures KeepOtherLines(KeepOtherLines(lines, id), id) == KeepOtherLines(lines, id)
    decreases |lines|
  {
    if lines != [] {
      var n := |lines|;
      var init, last := lines[..n - 1], lines[n - 1];
      assert lines == init + [last];
      KeepOtherLinesIdempotent(init, id);
      var once := KeepOtherLines(init, id);
      KeepOtherLinesSnoc(init, last, id);
      KeepOtherLinesSnoc(once, last, id);
    }
  }

  lemma {:induction false} ParseKept(lines: seq<string>, id: string)
    ensures ParseAll(KeepOtherLines(lines, id)) == TaskRepository.RemoveId(ParseAll(lines), id)
    decreases |lines|
  {
    if lines != [] {
      var n := |lines|;
      var init, last := lines[..n - 1], lines[n - 1];
      assert lines == init + [last];
      ParseKept(init, id);
      ParseAllSnoc(init, last);
      if ParseLine(last).Some? {
        RemoveIdSnoc(ParseAll(init), ParseLine(last).value, id);
      }
      if FirstField(last) != id {
        ParseAllSnoc(KeepOtherLines(init, id), last);
      }
    }
  }

  /** After `deleteTaskById(id)` swapped its copy in, a read gives the old tasks without
      those with the id, in the same order; so no task with the id is left. */
  lemma ReadBackAfterDelete(text: string, id: string)
    ensures var after := ReadTasks(Some(Unlines(KeepOtherLines(Lines(text), id))));
            after == TaskRepository.RemoveId(ReadTasks(Some(text)), id)
            && !TaskRepository.HasId(after, id)
  {
    var lines := Lines(text);
    var kept := KeepOtherLines(lines, id);
    forall i | 0 <= i < |kept|
      ensures HasNoLineTerminator(kept[i])
    {
      assert kept[i] in lines;
      var j :| 0 <= j < |lines| && lines[j] == kept[i];
    }
    LinesUnlines(kept);
    ParseKept(lines, id);
  }

  class LegacyTaskStore {
    /** tareas.csv: None while no such file exists, otherwise its text. */
    var file: Option<string>

    /** The legacy store neither creates nor checks the file when it is made. */
    constructor (onDisk: Option<string>)
      ensures file == onDisk
    {
      file := onDisk;
    }

    /** `readAllTasks`: each line read in turn, in file order, without sorting. */
    method ReadAllTasks() returns (tasks: seq<Task>)
      ensures tasks == ReadTasks(file)
      ensures |tasks| <= |Lines(file.GetOr([]))|
    {
      tasks := [];
      if file.None? {
        return;
      }
      var lines := Lines(file.value);
      var i := 0;
      while i < |lines|
        invariant 0 <= i <= |lines|
        invariant tasks == ParseAll(lines[..i])
      {
        assert lines[..i + 1] == lines[..i] + [lines[i]];
        ParseAllSnoc(lines[..i], lines[i]);
        var parsed := ParseLine(lines[i]);
        if parsed.Some? {
          tasks := tasks + [parsed.value];
        }
        i := i + 1;
      }
      assert lines[..i] == lines;
    }

    /** `saveTaskToCSV`: the task's line is appended, creating the file if needed. */
    method SaveTaskToCSV(t: Task, writeFails: bool) returns (ok: bool)
      modifies this
      ensures ok == !writeFails
      ensures file == if ok then Some(old(file).GetOr([]) + ToCsvString(t) + "\n") else old(file)
    {
      if writeFails {
        return false;
      }
      file := Some(file.GetOr([]) + ToCsvString(t) + "\n");
      ok := true;
    }

    /** `updateTaskInCSV`: every line whose first field is `t`'s id is replaced by `t`'s
        line in a temporary copy, and the copy then takes the file's place. A missing
        file or a failure while copying gives false; so does a failed delete of the
        original, which leaves it as it was. A failed rename is not noticed: the result
        is true while tareas.csv no longer exists. */
    method UpdateTaskInCSV(t: Task, copyFails: bool, deleteFails: bool, renameFails: bool)
      returns (ok: bool)
      modifies this
      ensures ok <==> old(file).Some? && !copyFails && !deleteFails
      ensures file == if !ok then old(file)
                      else if renameFails then None
                      else Some(Unlines(RewriteLines(Lines(old(file).value), t)))
    {
      if file.None? {
        return false;
      }
      var lines := Lines(file.value);
      var copy: string := [];
      var i := 0;
      while i < |lines|
        invariant 0 <= i <= |lines|
        invariant copy == Unlines(RewriteLines(lines[..i], t))
        invariant file == old(file)
      {
        RewriteStep(lines, i, t);
        var parts := Split(lines[i], ',');
        if |parts| > 0 && parts[0] == t.id {
          copy := copy + ToCsvString(t) + "\n";
        } else {
          copy := copy + lines[i] + "\n";
        }
        i := i + 1;
      }
      assert lines[..i] == lines;
      if copyFails || deleteFails {
        return false;
      }
      if renameFails {
        file := None;
      } else {
        file := Some(copy);
      }
      ok := true;
    }

    /** `deleteTaskById`: the lines whose first field is not the id are copied to a
        temporary file that then takes the file's place. The result does not depend on
        whether any line was removed; failures are as for `UpdateTaskInCSV`. */
    method DeleteTaskById(id: string, copyFails: bool, deleteFails: bool, renameFails: bool)
      returns (ok: bool)
      modifies this
      ensures ok <==> old(file).Some? && !copyFails && !deleteFails
      ensures file == if !ok then old(file)
                      else if renameFails then None
                      else Some(Unlines(KeepOtherLines(Lines(old(file).value), id)))
    {
      if file.None? {
        return false;
      }
      var lines := Lines(file.value);
      var copy: string := [];
      var i := 0;
      while i < |lines|
        invariant 0 <= i <= |lines|
        invariant copy == Unlines(KeepOtherLines(lines[..i], id))
        invariant file == old(file)
      {
        KeepStep(lines, i, id);
        var parts := Split(lines[i], ',');
        if |parts| > 0 && parts[0] != id {
          copy := copy + lines[i] + "\n";
        }
        i := i + 1;
      }
      assert lines[..i] == lines;
      if copyFails || deleteFails {
        return false;
      }
      if renameFails {
        file := None;
      } else {
        file := Some(copy);
      }
      ok := true;
    }
  }
}
