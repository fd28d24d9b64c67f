/**
 * The `Task` record of data/Task.kt and its one-line comma-separated form
 * (`toCsvString` / `fromCsvString`). There is no quoting or escaping: a field that
 * holds a comma cannot come back from its line.
 */
module TaskCsv {
  import opened Wrappers
  import opened Text
  import Status

  datatype Task = Task(
    id: string,
    name: string,
    description: string,
    status: string,        // meant to be a `Status.TaskStatus` display name, never checked
    date: string,          // DD/MM/YYYY
    time: string,          // HH:MM
    category: string,
    requiresAlarm: bool)

  /** Kotlin's `Boolean.toString()`, which a string template uses. */
  function BoolText(b: bool): (text: string)
    ensures ToBoolean(text) == b
    ensures ',' !in text && HasNoLineTerminator(text)
  {
    if b then "true" else "false"
  }

  /** The eight fields, in the order of the line. */
  function Fields(t: Task): seq<string> {
    [t.id, t.name, t.description, t.status, t.date, t.time, t.category, BoolText(t.requiresAlarm)]
  }

  /** None of the seven text fields holds a comma. */
  predicate CommaFree(t: Task) {
    ',' !in t.id && ',' !in t.name && ',' !in t.description && ',' !in t.status
    && ',' !in t.date && ',' !in t.time && ',' !in t.category
  }

  /** None of the seven text fields holds a line terminator. */
  predicate LineSafe(t: Task) {
    HasNoLineTerminator(t.id) && HasNoLineTerminator(t.name) && HasNoLineTerminator(t.description)
    && HasNoLineTerminator(t.status) && HasNoLineTerminator(t.date) && HasNoLineTerminator(t.time)
    && HasNoLineTerminator(t.category)
  }

  /** A task that survives being written as a line of the file and read back. */
  predicate Storable(t: Task) {
    CommaFree(t) && LineSafe(t)
  }

  /** A character is in none of the eight fields iff it is in none of the seven text
      fields and not in the alarm text. */
  lemma FieldsAvoid(t: Task, c: char)
    ensures (forall i :: 0 <= i < 8 ==> c !in Fields(t)[i])
            <==> c !in t.id && c !in t.name && c !in t.description && c !in t.status
                 && c !in t.date && c !in t.time && c !in t.category && c !in BoolText(t.requiresAlarm)
  {
    var f := Fields(t);
    assert f[0] == t.id && f[1] == t.name && f[2] == t.description && f[3] == t.status;
    assert f[4] == t.date && f[5] == t.time && f[6] == t.category && f[7] == BoolText(t.requiresAlarm);
  }

  /** `toCsvString`: the string template that writes the eight fields in order with a
      single comma between neighbours and nothing after the last. Read back by
      splitting, the line gives back those eight fields iff no field brings a comma of
      its own; it is a single line iff no field holds a line terminator. */
  function ToCsvString(t: Task): (line: string)
    ensures CommaFree(t) ==> Split(line, ',') == Fields(t)
    ensures |Split(line, ',')| == 8 <==> CommaFree(t)
    ensures HasNoLineTerminator(line) <==> LineSafe(t)
  {
    JoinedFieldsSplit(t);
    JoinedFieldsTerminators(t);
    Join(Fields(t), ',')
  }

  lemma JoinedFieldsSplit(t: Task)
    ensures CommaFree(t) ==> Split(Join(Fields(t), ','), ',') == Fields(t)
    ensures |Split(Join(Fields(t), ','), ',')| == 8 <==> CommaFree(t)
  {
    var fields := Fields(t);
    assert ',' !in BoolText(t.requiresAlarm);
    FieldsAvoid(t, ',');
    JoinSeparatorCount(fields, ',');
    if CommaFree(t) {
      SplitJoin(fields, ',');
    }
  }

  lemma JoinedFieldsTerminators(t: Task)
    ensures HasNoLineTerminator(Join(Fields(t), ',')) <==> LineSafe(t)
  {
    var fields := Fields(t);
    assert '\n' !in BoolText(t.requiresAlarm) && '\r' !in BoolText(t.requiresAlarm);
    FieldsAvoid(t, '\n');
    FieldsAvoid(t, '\r');
    JoinContains(fields, ',', '\n');
    JoinContains(fields, ',', '\r');
  }

  /** `fromCsvString`: a task only when the line splits into exactly eight parts, that is
      when it holds exactly seven commas; the text fields are the parts as they are, and
      the alarm flag is whether the eighth part reads "true" in any letter case. */
  function FromCsvString(csv: string): (r: Option<Task>)
    ensures r.Some? <==> multiset(csv)[','] == 7
    ensures r.Some? ==> Fields(r.value)[..7] == Split(csv, ',')[..7]
    ensures r.Some? ==> (r.value.requiresAlarm <==> ToBoolean(Split(csv, ',')[7]))
  {
    var parts := Split(csv, ',');
    if |parts| != 8 then None
    else
      Some(Task(parts[0], parts[1], parts[2], parts[3], parts[4], parts[5], parts[6], ToBoolean(parts[7])))
  }

  /** Eight comma-free parts joined by commas decode to the task made of them. */
  lemma DecodeJoin(p: seq<string>)
    requires |p| == 8
    requires forall i :: 0 <= i < 8 ==> ',' !in p[i]
    ensures FromCsvString(Join(p, ',')) == Some(Task(p[0], p[1], p[2], p[3], p[4], p[5], p[6], ToBoolean(p[7])))
  {
    SplitJoin(p, ',');
  }

  /** Round trip: a task comes back from its line exactly when no field holds a comma;
      otherwise the line has too many parts and nothing comes back. */
  lemma DecodeEncode(t: Task)
    ensures FromCsvString(ToCsvString(t)) == if CommaFree(t) then Some(t) else None
  {
    if CommaFree(t) {
      DecodeJoin(Fields(t));
      assert ToBoolean(BoolText(t.requiresAlarm)) == t.requiresAlarm;
    }
  }

  /** The other round trip: a decoded line is rebuilt exactly iff its eighth part was
      already "true" or "false"; "TRUE", "yes" or "" come back rewritten. */
  lemma EncodeDecode(csv: string)
    requires FromCsvString(csv).Some?
    ensures ToCsvString(FromCsvString(csv).value) == csv
            <==> Split(csv, ',')[7] == "true" || Split(csv, ',')[7] == "false"
  {
    var parts := Split(csv, ',');
    if parts[7] == "true" || parts[7] == "false" {
      EncodeDecodeCanonical(csv);
    }
    if ToCsvString(FromCsvString(csv).value) == csv {
      EncodeDecodeRebuilt(csv);
    }
  }

  lemma EncodeDecodeCanonical(csv: string)
    requires FromCsvString(csv).Some?
    requires Split(csv, ',')[7] == "true" || Split(csv, ',')[7] == "false"
    ensures ToCsvString(FromCsvString(csv).value) == csv
  {
    var parts := Split(csv, ',');
    var t := FromCsvString(csv).value;
    assert |parts| == 8;
    assert BoolText(t.requiresAlarm) == parts[7] by {
      assert t.requiresAlarm <==> ToBoolean(parts[7]);
    }
    assert Fields(t) == parts by {
      assert Fields(t)[..7] == parts[..7];
      forall i | 0 <= i < 7 ensures Fields(t)[i] == parts[i] {
        assert Fields(t)[..7][i] == parts[..7][i];
      }
    }
    JoinSplit(csv, ',');
    assert ToCsvString(t) == Join(Fields(t), ',');
  }

  lemma EncodeDecodeRebuilt(csv: string)
    requires FromCsvString(csv).Some?
    requires ToCsvString(FromCsvString(csv).value) == csv
    ensures Split(csv, ',')[7] == "true" || Split(csv, ',')[7] == "false"
  {
    var parts := Split(csv, ',');
    var t := FromCsvString(csv).value;
    assert forall i :: 0 <= i < 7 ==> Fields(t)[i] == parts[i];
    FieldsAvoid(t, ',');
    assert CommaFree(t);
    assert parts == Fields(t);
    assert parts[7] == BoolText(t.requiresAlarm);
  }

  /** Every task decoded from a line without terminators can be written back safely. */
  lemma DecodedIsStorable(csv: string)
    ensures HasNoLineTerminator(csv) && FromCsvString(csv).Some? ==> Storable(FromCsvString(csv).value)
  {
    if HasNoLineTerminator(csv) && FromCsvString(csv).Some? {
      var parts := Split(csv, ',');
      SplitPartsAvoid(csv, ',', '\n');
      SplitPartsAvoid(csv, ',', '\r');
      assert forall i :: 0 <= i < 7 ==> Fields(FromCsvString(csv).value)[i] == parts[i];
    }
  }

  /** The status part is kept as written even when it names no `TaskStatus`: the enum
      value computed from it is never used. The alarm part "TRUE" still reads as true. */
  lemma StatusKeptVerbatim()
    ensures Status.FromDisplayName("Hecha").None?
    ensures var p := ["7", "Leer", "Libro", "Hecha", "01/02/2025", "10:00", "Casa", "TRUE"];
            FromCsvString(Join(p, ',')) == Some(Task("7", "Leer", "Libro", "Hecha", "01/02/2025", "10:00", "Casa", true))
  {
    var p := ["7", "Leer", "Libro", "Hecha", "01/02/2025", "10:00", "Casa", "TRUE"];
    assert "Hecha" != "Pendiente" && "Hecha" != "Completada" && "Hecha" != "Cancelada" by {
      assert |"Hecha"| == 5;
    }
    assert ToBoolean("TRUE") by {
      assert AsciiLower('T') == 't' && AsciiLower('R') == 'r' && AsciiLower('U') == 'u' && AsciiLower('E') == 'e';
    }
    assert forall i :: 0 <= i < 8 ==> ',' !in p[i];
    DecodeJoin(p);
  }
}
