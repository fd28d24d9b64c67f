# GestaTarea task store, modelled in Dafny

GestaTarea is an Android to-do app. It keeps its tasks in one CSV file, `tareas.csv`, with one line per task. A line holds the eight fields id, name, description, status, date, time, category and the alarm flag, joined by commas with no quoting. This project models the app's persistence core:

- **The task record and its line codec** (`data/Task.kt`).
  - `toCsvString` joins the eight fields with commas.
  - `fromCsvString` accepts a line only when it splits into exactly eight parts.
  - The status is kept verbatim.
  - The alarm flag is `true` exactly when the eighth part reads "true" in any letter case.
- **The status enumeration** (`data/TaskStatus.kt`): its three display names and `fromDisplayName`, which finds the first constant with a given name.
- **The current store** (`data/TaskRepository.kt`), a class over the file.
  - `init` creates a missing file.
  - `readAllTasks` decodes each line it reaches and drops the lines that do not decode. It then sorts, stably, by date descending and then time descending. Both comparisons are plain string comparisons.
  - `saveAllTasks` rewrites the whole file.
  - Create, update and delete all read, change the list and rewrite. Update replaces the first task with the id, or creates the task when none has it. Delete removes every task with the id, and fails when none has it.
- **The legacy store** (the root package's `TaskRepository.kt`, with its `Task` record in `TaskAdapter.kt`). It works on the same file:
  - It reads leniently and in file order: any line with at least eight parts is accepted, and extra parts are ignored.
  - Create appends one line.
  - Update and delete copy the file line by line into a temporary file. A line is matched on its first comma-separated field. The copy is then swapped in by deleting the original and renaming the copy.

Some behaviour of the text library is modelled explicitly in module `Text`:

- Kotlin's `split`, which keeps empty parts.
- `BufferedReader.readLine`, where a line ends at `\n`, `\r` or `\r\n`.
- `String.compareTo`.
- `toBoolean`.
- `isBlank`.

The file is a field `file: Option<string>`, where `None` means no such file exists. Each fault the source catches is an explicit parameter of the operation:

- A read that stops after some lines.
- A failed write.
- A failed delete of the original file.
- A failed rename of the copy.

Each store operation is a method proved against specification functions. The lemmas about those functions carry the promises that matter:

- A written list reads back sorted.
- Create, update and delete read back as intended.
- The sort is stable.
- The codec round-trips for comma-free tasks.
- The two readers agree on every line the current one accepts.

The model follows the code's failure handling as written, which is not uniform:

- A read error in the current store does not surface as a failure. `readAllTasks` catches it and returns the tasks read so far, sorted.
- The legacy `readAllTasks` does not catch read errors at all.
- The legacy update and delete report success whenever the swap's delete succeeds. This holds even when nothing matched, and even when the rename then fails and leaves no `tareas.csv`.

## Model

Source paths are relative to the repository root.

| member | source | states |
|---|---|---|
| Text.Split | app/src/main/java/com/mod5/evalfinal_gestareav4/data/Task.kt:23 | `split(',')` yields one part more than there are commas, and no part holds a comma |
| Text.SplitJoin | app/src/main/java/com/mod5/evalfinal_gestareav4/data/Task.kt:15-17 | comma-free parts joined with commas split back into exactly those parts |
| Text.JoinSplit | app/src/main/java/com/mod5/evalfinal_gestareav4/data/Task.kt:23 | joining the parts of any text with commas gives the text back |
| Text.Lines | app/src/main/java/com/mod5/evalfinal_gestareav4/data/TaskRepository.kt:27-28 | the lines `forEachLine` delivers never contain `\n` or `\r` |
| Text.LinesUnlines | app/src/main/java/com/mod5/evalfinal_gestareav4/data/TaskRepository.kt:44-50 | terminator-free lines written one per line read back as the same lines |
| Text.UnlinesEndsWithLineBreak | app/src/main/java/com/mod5/evalfinal_gestareav4/data/TaskRepository.kt:44-50 | `Unlines`, each line followed by `\n` as `write` then `newLine` (and the legacy `write(line + "\n")`, `TaskRepository.kt`:76-86 and 118) produce it, is empty exactly when no line was written and otherwise ends in `\n` |
| Text.LinesAppendLine | app/src/main/java/com/mod5/evalfinal_gestareav4/TaskRepository.kt:55 | appending a line and a newline to a text that is empty or ends in `\n` adds exactly that line to what is read |
| Text.LexLessAtFirstDifference | app/src/main/java/com/mod5/evalfinal_gestareav4/data/TaskRepository.kt:37-38 | `LexLess`, the model of `String.compareTo(a, b) < 0`, holds exactly when, at the first position where the two differ, `a` has the smaller character, or `a` ends there while `b` goes on |
| Text.CommonPrefixLength | app/src/main/java/com/mod5/evalfinal_gestareav4/data/TaskRepository.kt:37-38 | the length of the longest common prefix: both strings agree up to it and differ at it when neither has ended |
| Text.LexIrreflexive | app/src/main/java/com/mod5/evalfinal_gestareav4/data/TaskRepository.kt:37-38 | no string compares below itself |
| Text.LexTransitive | app/src/main/java/com/mod5/evalfinal_gestareav4/data/TaskRepository.kt:37-38 | string comparison is transitive |
| Text.LexTotal | app/src/main/java/com/mod5/evalfinal_gestareav4/data/TaskRepository.kt:37-38 | any two strings are equal or one compares below the other |
| Text.IsBlank | app/src/main/java/com/mod5/evalfinal_gestareav4/TaskRepository.kt:23 | `isBlank()`: every character is whitespace, with `IsWhitespace` the set `Char.isWhitespace` accepts on the JVM; the empty line is blank, and a line holding a comma never is |
| Text.ToBooleanIgnoresCase | app/src/main/java/com/mod5/evalfinal_gestareav4/data/Task.kt:25 | `ToBoolean`, the model of `toBoolean()` (also `TaskRepository.kt`:27), is true exactly for "true" in any letter case |
| Status.FindByName | app/src/main/java/com/mod5/evalfinal_gestareav4/data/TaskStatus.kt:11 | `find` returns a candidate with the name, and nothing exactly when no candidate has the name |
| Status.FindByNameFirst | app/src/main/java/com/mod5/evalfinal_gestareav4/data/TaskStatus.kt:11 | when some candidate has the name, `find` returns the first one that has it |
| Status.TaskStatus.DisplayName | app/src/main/java/com/mod5/evalfinal_gestareav4/data/TaskStatus.kt:3-7 | the three constants carry the texts Pendiente, Completada and Cancelada, each non-empty and fitting in one field of a line: no comma, no line terminator |
| Status.AllStatusesComplete | app/src/main/java/com/mod5/evalfinal_gestareav4/data/TaskStatus.kt:3-11 | `values()`, the constant `AllStatuses`, lists every constant exactly once, in declaration order |
| Status.FromDisplayName | app/src/main/java/com/mod5/evalfinal_gestareav4/data/TaskStatus.kt:11 | the constant found has the name; nothing is found exactly for names other than Pendiente, Completada and Cancelada |
| Status.DisplayNamesDistinct | app/src/main/java/com/mod5/evalfinal_gestareav4/data/TaskStatus.kt:5-7 | no two constants share a display name |
| Status.FromDisplayNameExact | app/src/main/java/com/mod5/evalfinal_gestareav4/data/TaskStatus.kt:5-11 | `fromDisplayName(n)` is constant `c` if and only if `c`'s display name is `n` |
| TaskCsv.ToCsvString | app/src/main/java/com/mod5/evalfinal_gestareav4/data/Task.kt:15-17 | the line splits into the task's eight fields when they are comma-free, into eight parts only then, and has no line terminator exactly when no field has one |
| TaskCsv.BoolText | app/src/main/java/com/mod5/evalfinal_gestareav4/data/Task.kt:16 | the template writes the flag as "true" or "false", which `toBoolean()` reads back as the same flag, and which holds no comma and no line terminator |
| TaskCsv.FromCsvString | app/src/main/java/com/mod5/evalfinal_gestareav4/data/Task.kt:21-42 | a task exactly when the line holds seven commas; its first seven fields are the parts as they are and its flag is `toBoolean` of the eighth |
| TaskCsv.DecodeEncode | app/src/main/java/com/mod5/evalfinal_gestareav4/data/Task.kt:15-42 | decoding a task's line gives the task back exactly when no field holds a comma, and nothing otherwise |
| TaskCsv.EncodeDecode | app/src/main/java/com/mod5/evalfinal_gestareav4/data/Task.kt:15-42 | a decoded line re-encodes to itself exactly when its eighth part is literally "true" or "false" |
| TaskCsv.DecodedIsStorable | app/src/main/java/com/mod5/evalfinal_gestareav4/data/Task.kt:21-42 | a terminator-free line that decodes gives a task that can be written and read back |
| TaskCsv.StatusKeptVerbatim | app/src/main/java/com/mod5/evalfinal_gestareav4/data/Task.kt:26-30 | a worked example: the line `7,Leer,Libro,Hecha,01/02/2025,10:00,Casa,TRUE` decodes with the status "Hecha", which `fromDisplayName` does not know, and with the alarm set; the general rule is the second and third ensures of `TaskCsv.FromCsvString` |
| TaskOrder.PrecedesIrreflexive | app/src/main/java/com/mod5/evalfinal_gestareav4/data/TaskRepository.kt:37-38 | no task sorts before itself |
| TaskOrder.Precedes | app/src/main/java/com/mod5/evalfinal_gestareav4/data/TaskRepository.kt:37-38 | the comparator `compareByDescending { date }.thenByDescending { time }` puts `a` strictly first when its date is later as text, or the dates are equal and its time is later; it never does so for two tasks with the same date and time |
| TaskOrder.PrecedesTransitive | app/src/main/java/com/mod5/evalfinal_gestareav4/data/TaskRepository.kt:37-38 | the date-then-time descending order is transitive |
| TaskOrder.PrecedesTotal | app/src/main/java/com/mod5/evalfinal_gestareav4/data/TaskRepository.kt:37-38 | of two tasks one sorts first unless both date and time are equal |
| TaskOrder.InsertSorted | app/src/main/java/com/mod5/evalfinal_gestareav4/data/TaskRepository.kt:37-38 | inserting into a sorted list keeps it sorted |
| TaskOrder.SortByDateTimeDesc | app/src/main/java/com/mod5/evalfinal_gestareav4/data/TaskRepository.kt:37-38 | the result is a permutation of the input, sorted by date then time, both descending |
| TaskOrder.SortIsStable | app/src/main/java/com/mod5/evalfinal_gestareav4/data/TaskRepository.kt:37-38 | tasks with the same date and time keep their relative order |
| TaskOrder.SortOfSorted | app/src/main/java/com/mod5/evalfinal_gestareav4/data/TaskRepository.kt:37-38 | sorting an already sorted list changes nothing |
| TaskOrder.DayFirstDatesSortLexically | app/src/main/java/com/mod5/evalfinal_gestareav4/data/TaskRepository.kt:36-38 | 20/12/2024 is listed before the later 05/01/2025, because the comparison is on the text |
| TaskRepository.ReachedLines | app/src/main/java/com/mod5/evalfinal_gestareav4/data/TaskRepository.kt:26-35 | a read that stops early has still delivered a prefix of the file's lines, all of them when it reads to the end, none for a missing file |
| TaskRepository.DecodeAll | app/src/main/java/com/mod5/evalfinal_gestareav4/data/TaskRepository.kt:28-31 | at most one task per line, and each task read from a terminator-free line can be written back |
| TaskRepository.DecodeAllDropsOnlyUndecoded | app/src/main/java/com/mod5/evalfinal_gestareav4/data/TaskRepository.kt:28-31 | every line gives a task exactly when every line decodes: a line is lost only when `fromCsvString` rejects it |
| TaskRepository.EncodeAll | app/src/main/java/com/mod5/evalfinal_gestareav4/data/TaskRepository.kt:45-49 | one line per task, the `toCsvString` of each, in list order; `FileText` then writes each followed by `\n` |
| TaskRepository.StoredTasks | app/src/main/java/com/mod5/evalfinal_gestareav4/data/TaskRepository.kt:22-39 | what `readAllTasks` returns is sorted and every task in it can be written back |
| TaskRepository.ReadBackWritten | app/src/main/java/com/mod5/evalfinal_gestareav4/data/TaskRepository.kt:22-56 | a list written by `saveAllTasks` reads back as the same list, sorted |
| TaskRepository.CountIdPermutation | app/src/main/java/com/mod5/evalfinal_gestareav4/data/TaskRepository.kt:37-38 | reordering a list keeps the number of tasks with each id |
| TaskRepository.IndexOfId | app/src/main/java/com/mod5/evalfinal_gestareav4/data/TaskRepository.kt:70 | the index of the first task with the id, and -1 exactly when none has it |
| TaskRepository.RemoveId | app/src/main/java/com/mod5/evalfinal_gestareav4/data/TaskRepository.kt:86 | no task with the id is left, and the list shrinks by the number of tasks that had it |
| TaskRepository.RemoveIdMembers | app/src/main/java/com/mod5/evalfinal_gestareav4/data/TaskRepository.kt:86 | every task left was in the list and has another id, and every task with another id is kept |
| TaskRepository.RemoveIdSorted | app/src/main/java/com/mod5/evalfinal_gestareav4/data/TaskRepository.kt:86 | `removeIf` keeps a sorted list sorted, so the order of the remaining tasks is the order they had |
| TaskRepository.CountIdHasId | app/src/main/java/com/mod5/evalfinal_gestareav4/data/TaskRepository.kt:84-88 | some task has the id exactly when the count is positive, and exactly when removal shrinks the list, which is what the delete reports |
| TaskRepository.ReadBackAfterCreate | app/src/main/java/com/mod5/evalfinal_gestareav4/data/TaskRepository.kt:59-64 | after a create, a read gives the old tasks plus the new one, one more in all and one more with its id |
| TaskRepository.ReadBackAfterReplace | app/src/main/java/com/mod5/evalfinal_gestareav4/data/TaskRepository.kt:67-74 | after an update that found the id, a read gives the same number of tasks, with the replaced one traded for the new one |
| TaskRepository.ReadBackAfterDelete | app/src/main/java/com/mod5/evalfinal_gestareav4/data/TaskRepository.kt:82-94 | after a delete, a read gives exactly the old tasks without those with the id, in the order they had; so none with the id is left, the count drops by the number that had it, and a second delete of the id removes nothing (and so returns false) |
| TaskRepository.TaskStore.constructor | app/src/main/java/com/mod5/evalfinal_gestareav4/data/TaskRepository.kt:14-19 | a missing file is created empty; an existing one is left alone |
| TaskRepository.TaskStore.ReadAllTasks | app/src/main/java/com/mod5/evalfinal_gestareav4/data/TaskRepository.kt:22-39 | returns the decoded reached lines, sorted; a permutation of them |
| TaskRepository.TaskStore.SaveAllTasks | app/src/main/java/com/mod5/evalfinal_gestareav4/data/TaskRepository.kt:42-56 | on success the file is the tasks' lines, one per line, in list order; on failure it is unchanged and the result is false |
| TaskRepository.TaskStore.SaveTaskToCSV | app/src/main/java/com/mod5/evalfinal_gestareav4/data/TaskRepository.kt:59-64 | the file becomes the sorted tasks read, followed by the new task |
| TaskRepository.TaskStore.UpdateTaskInCSV | app/src/main/java/com/mod5/evalfinal_gestareav4/data/TaskRepository.kt:67-79 | the first task with the id is replaced in the sorted list; with none, the task is created through a second read |
| TaskRepository.TaskStore.DeleteTaskById | app/src/main/java/com/mod5/evalfinal_gestareav4/data/TaskRepository.kt:82-94 | succeeds exactly when some task had the id and the write succeeded, and then the file holds the other tasks |
| LegacyTaskRepository.FirstField | app/src/main/java/com/mod5/evalfinal_gestareav4/TaskRepository.kt:73-74 | `parts[0]` is the longest comma-free prefix of the line |
| LegacyTaskRepository.FirstFieldOfTaskLine | app/src/main/java/com/mod5/evalfinal_gestareav4/TaskRepository.kt:47-54 | a task's line starts with its id when the id holds no comma |
| LegacyTaskRepository.ParseLine | app/src/main/java/com/mod5/evalfinal_gestareav4/TaskRepository.kt:22-37 | a task exactly when the line holds at least seven commas; the blank-or-no-comma guard never rejects such a line |
| LegacyTaskRepository.ParseLineAgrees | app/src/main/java/com/mod5/evalfinal_gestareav4/TaskRepository.kt:22-37 | on every line the current reader accepts, the legacy reader builds the same task; it also accepts exactly the lines with eight or more commas |
| LegacyTaskRepository.CommaInNameShiftsFields | app/src/main/java/com/mod5/evalfinal_gestareav4/TaskRepository.kt:25-35 | a comma in a name makes the current reader drop the line and the legacy reader shift every later field by one place |
| LegacyTaskRepository.ParseAll | app/src/main/java/com/mod5/evalfinal_gestareav4/TaskRepository.kt:21-38 | at most one task per line |
| LegacyTaskRepository.ParseAllDropsOnlyUnparsed | app/src/main/java/com/mod5/evalfinal_gestareav4/TaskRepository.kt:21-38 | one task per line exactly when every line parses |
| LegacyTaskRepository.ReadTasks | app/src/main/java/com/mod5/evalfinal_gestareav4/TaskRepository.kt:17-40 | `readAllTasks`: a missing file gives no tasks; otherwise at most one task per line, in file order |
| LegacyTaskRepository.ReadsCurrentStoreFile | app/src/main/java/com/mod5/evalfinal_gestareav4/TaskRepository.kt:17-40 | a file the current store wrote reads back through the legacy reader as the same tasks in the same order |
| LegacyTaskRepository.ReadBackAfterAppend | app/src/main/java/com/mod5/evalfinal_gestareav4/TaskRepository.kt:44-61 | after an append to a missing file or one ending in a newline, a read gives the old tasks followed by the new one |
| LegacyTaskRepository.AppendToCurrentStoreFile | app/src/main/java/com/mod5/evalfinal_gestareav4/TaskRepository.kt:44-61 | the legacy append extends any file the current store wrote (`data/TaskRepository.kt`:42-56): a read gives the tasks written, then the new one |
| LegacyTaskRepository.RewriteIdempotent | app/src/main/java/com/mod5/evalfinal_gestareav4/TaskRepository.kt:69-89 | an update keeps the line count, and repeating it changes nothing, for every id (one holding a comma matches no line, so the lines are copied unchanged) |
| LegacyTaskRepository.UpdateOfAbsentIdAddsNothing | app/src/main/java/com/mod5/evalfinal_gestareav4/TaskRepository.kt:72-88 | with no line for the id, an update reads back as the tasks before; unlike the current store there is no fallback create |
| LegacyTaskRepository.RewriteLine | app/src/main/java/com/mod5/evalfinal_gestareav4/TaskRepository.kt:72-87 | a line whose first field is not the id is copied as it is; a line that had no terminator still has none when the task has none in its fields |
| LegacyTaskRepository.RewriteLines | app/src/main/java/com/mod5/evalfinal_gestareav4/TaskRepository.kt:72-87 | the copy has one line per line read, and every line whose first field is not the id is copied unchanged at its place |
| LegacyTaskRepository.ReadBackAfterUpdate | app/src/main/java/com/mod5/evalfinal_gestareav4/TaskRepository.kt:64-103 | after an update, every task read with the id is the new task, the other tasks read as before, in order, and a task with the id is read exactly when some line's first field was the id |
| LegacyTaskRepository.ParseRewrittenHasId | app/src/main/java/com/mod5/evalfinal_gestareav4/TaskRepository.kt:72-87 | the rewritten lines parse to a task with the id exactly when some original line's first field was the id |
| LegacyTaskRepository.KeepOtherLines | app/src/main/java/com/mod5/evalfinal_gestareav4/TaskRepository.kt:113-121 | the lines kept are exactly the lines whose first field is not the id |
| LegacyTaskRepository.KeepOtherLinesIdempotent | app/src/main/java/com/mod5/evalfinal_gestareav4/TaskRepository.kt:106-121 | deleting the same id twice leaves what deleting it once left |
| LegacyTaskRepository.ReadBackAfterDelete | app/src/main/java/com/mod5/evalfinal_gestareav4/TaskRepository.kt:106-135 | after a delete, a read gives the old tasks without those with the id, in order, so none with the id is left |
| LegacyTaskRepository.LegacyTaskStore.constructor | app/src/main/java/com/mod5/evalfinal_gestareav4/TaskRepository.kt:10-14 | the legacy store neither creates nor checks the file |
| LegacyTaskRepository.LegacyTaskStore.ReadAllTasks | app/src/main/java/com/mod5/evalfinal_gestareav4/TaskRepository.kt:17-41 | the lines parsed in file order, at most one task per line; a missing file gives none |
| LegacyTaskRepository.LegacyTaskStore.SaveTaskToCSV | app/src/main/java/com/mod5/evalfinal_gestareav4/TaskRepository.kt:44-61 | the task's line is appended, and the file is created if needed; on failure the file is unchanged and the result is false |
| LegacyTaskRepository.LegacyTaskStore.UpdateTaskInCSV | app/src/main/java/com/mod5/evalfinal_gestareav4/TaskRepository.kt:64-103 | true exactly when the file existed and both the copy and the delete succeeded; the file then holds the rewritten lines, or is gone when the rename failed |
| LegacyTaskRepository.LegacyTaskStore.DeleteTaskById | app/src/main/java/com/mod5/evalfinal_gestareav4/TaskRepository.kt:106-135 | true on the same terms as update, whether or not any line had the id; the file then holds the other lines, or is gone when the rename failed |

The legacy `Task` record (`TaskAdapter.kt`:10-19) has the same eight fields as the current one, so both stores share the datatype `TaskCsv.Task`. The legacy line template (`TaskRepository.kt`:47-54) is the same text as `toCsvString`.

## Left out

- The view models, fragments, adapter and the rest of the user interface: they call the stores but keep no state of their own that the file depends on.
- Coroutines and concurrency: the store operations are modelled as running one at a time.
- The file's location (`getExternalFilesDir`): the file is a field of the store.
- Error logging (`println`, `printStackTrace`): it has no effect on the data.
- The `try`/`catch` in `fromCsvString`: no step it guards can throw on the modelled values.
- The `statusEnum` that `fromCsvString` computes and never uses: the status is kept as the text it was read as.
- `writer.newLine()` is taken to write `\n`, the line separator on Android.
- `String.compareTo` compares UTF-16 code units; the model compares characters. The two differ only for characters outside the Basic Multilingual Plane.
- TaskRepository.TaskStore.constructor: a failing `createNewFile` is not modelled; the file is always created.
- TaskRepository.TaskStore.SaveAllTasks: a failed write is modelled as leaving the file unchanged. A failure after `FileWriter` has truncated the file, which leaves it empty or partly written, is not modelled.
- LegacyTaskRepository.LegacyTaskStore.SaveTaskToCSV: a failed append is modelled as leaving the file unchanged; a partly appended line is not modelled.
- LegacyTaskRepository.LegacyTaskStore.ReadAllTasks: an I/O error during the read propagates out of the source's method. The model always reads the whole text.
- LegacyTaskRepository.LegacyTaskStore.UpdateTaskInCSV: the temporary files are not modelled. This covers their contents, their removal after a failed delete, and the rewritten text a failed rename leaves in them. A failure to read the original is folded into the copy failure.
- LegacyTaskRepository.LegacyTaskStore.DeleteTaskById: the temporary files are not modelled, as for update.
