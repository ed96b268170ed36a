# TaskTrackr in Dafny

A model of the core of TaskTrackr, a console to-do list kept in a JSON file
(`tasktrackr.py`). It covers:

- the task record: the validating `Task` constructor (title and description
  trimmed, blank titles refused, priority normalised to low, medium or high,
  a new task not completed);
- its serialisation: `to_dict` and `from_dict`, including which malformed
  records `from_dict` turns into `None` and which make it raise;
- the `TaskManager`: loading the task file, saving it, adding, removing and
  toggling tasks by index, the pending/all listing, the reminder check and
  `stop`.

Modules, one per concern:

| file | module | contents |
|---|---|---|
| `wrappers.dfy` | `Wrappers` | `Option`, and `Outcome` (a value, an exception `from_dict` catches, or one that escapes it) |
| `text.dfy` | `Text` | `str.strip()` over Python's whitespace set, `str.lower()` |
| `iso_time.dfy` | `IsoTime` | timestamps and their text form, with `Parse` proved the inverse of `Format` |
| `seqs.dfy` | `Seqs` | order-preserving selection (`Filter`), `Map`, and `KeepDecoded`, the keep-what-decodes loop |
| `task.dfy` | `Tasks` | the task record, JSON values and records, the constructor, `to_dict`, `from_dict`, save-then-load |
| `task_manager.dfy` | `Manager` | the `TaskManager` class and the properties of its operations |

The manager is a class whose fields are the ones the program updates in
place: `tasks` (a `seq<Task>`), `running`, and `disk`, the contents of the
task file. Its methods change those fields and state their new values; the
record loop of `load_tasks` and the loop of `check_reminders` are `while`
loops proved against `KeepDecoded` and `Filter`. The task record, the JSON
conversions and the selections are functions.

JSON values a record may hold are `JNull`, `JBool`, `JStr` and `JOther`
(numbers, lists, objects: only their truthiness matters to the program).
Where a Python expression would raise, the model says which exception
class: `KeyError` and `ValueError` are caught by `from_dict` (the record is
skipped: a missing title or `created_at`, a falsy or blank title such as
`0` or `"  "`, date text that is not a timestamp). `AttributeError` and
`TypeError` escape it and reach the `except Exception` of `load_tasks`,
which empties the whole list; they come from a truthy non-string title or
priority, a non-string description (`null` included), a truthy non-string
`due_date` or `reminder_time`, or a non-string `created_at`. A falsy
`due_date` or `reminder_time`, `null` included, is skipped.

Two consequences of the code's error handling are worth stating, because
the model reproduces them rather than a more forgiving reading:

- Only `KeyError` and `ValueError` are caught per record (tasktrackr.py:58).
  Any other exception raised while decoding one record (for instance the
  `AttributeError` of a `null` description) reaches the `except Exception`
  of `load_tasks` (tasktrackr.py:82-84), which empties the whole list
  (`Manager.EscapingRecordEmptiesList`, `Tasks.NonTextDescriptionEscapes`).
- A task file that is not valid JSON is answered by `save_tasks`
  (tasktrackr.py:79-81), which overwrites it with the current list, empty at
  start-up; the constructor's contract states this (`disk == Parsed([])`).

## Model

| member | source | states |
|---|---|---|
| Text.Lower | tasktrackr.py:22 | the lower-cased text has the input's length, each character is that input character lower-cased, and no ASCII capital is left |
| Text.Strip | tasktrackr.py:19-20 | the stripped text is no longer than the input and neither starts nor ends with whitespace |
| Text.StripBlank | tasktrackr.py:16-17 | stripping leaves nothing exactly when every character is whitespace (both directions), which is when the constructor refuses a title |
| Text.StripIsSlice | tasktrackr.py:19-20 | the input is whitespace, then the stripped text, then whitespace: strip removes only surrounding whitespace |
| Text.StripStripped | tasktrackr.py:19-20 | text that neither starts nor ends with whitespace is left unchanged by strip |
| Text.StripIdempotent | tasktrackr.py:19-20 | stripping a stripped title or description changes nothing, so a stored task's text survives the constructor again on load |
| IsoTime.Format | tasktrackr.py:34-39 | `isoformat()`: the text written for a timestamp is one the parser accepts |
| IsoTime.Parse | tasktrackr.py:52-56 | `fromisoformat()`: a timestamp read from a text is the one whose written text it is; no timestamp is read from a text that no timestamp is written as |
| IsoTime.ParseFormat | tasktrackr.py:34-39 | the text written for a timestamp reads back as that timestamp |
| IsoTime.ParseIsInverse | tasktrackr.py:52-56 | reading text gives timestamp `t` exactly when the text is the one written for `t` (both directions) |
| Seqs.Filter | tasktrackr.py:128 | a selection keeps only elements that satisfy the condition and keeps every element that does |
| Seqs.FilterConcat | tasktrackr.py:128 | selecting from two lists joined is the two selections joined: the selection keeps list order |
| Seqs.KeepDecoded | tasktrackr.py:74-78 | the loop over records yields a list exactly when no record raises an escaping exception, never longer than the records |
| Seqs.KeepDecodedConcat | tasktrackr.py:75-78 | decoding two runs of records joined is the two results joined, or nothing if either run raises |
| Seqs.KeepDecodedSnoc | tasktrackr.py:75-78 | one more record appends its task, is skipped when rejected, or abandons the list when it raises |
| Seqs.KeepDecodedEscaped | tasktrackr.py:82-84 | a single record whose decoding raises an escaping exception abandons the whole list |
| Seqs.KeepDecodedMap | tasktrackr.py:86-89 | decoding every encoded item gives back all the items in order when decoding inverts encoding |
| Tasks.ParsePriority | tasktrackr.py:22-24 | the normalised priority is medium or the one named by the lower-cased input |
| Tasks.ParsePriorityMeaning | tasktrackr.py:22-24 | the stored priority is the lower-cased input when that is low, medium or high, and medium otherwise (the empty input included) |
| Tasks.ParsePriorityName | tasktrackr.py:22-24 | a stored priority name normalises back to the same priority |
| Tasks.Init | tasktrackr.py:15-27 | refused (ValueError) exactly for a falsy or blank title; raises AttributeError exactly for a non-string title, description or truthy priority; otherwise title and description are stripped, priority normalised, reminder is the truthiness of the argument, the dates are kept and the task is not completed |
| Tasks.NewTask | tasktrackr.py:15-27 | with string arguments, no task exactly when the title is all whitespace; otherwise the stored fields are the stripped, normalised inputs and the task is not completed |
| Tasks.Json.Truthy | tasktrackr.py:16-25 | Python's truth test on a decoded JSON value (the title, priority and reminder tests here, and the date tests of lines 51 and 53): false exactly for `null`, `false`, the empty string and the falsy numbers and containers |
| Tasks.Get | tasktrackr.py:47-55 | `dict.get`: the stored value when the key is present, the default when it is absent |
| Tasks.TimeField | tasktrackr.py:34-37 | an optional date is saved as timestamp text when present and as `null` when absent; the saved value is truthy exactly when there is a date, and its text parses back to that date |
| Tasks.ToDict | tasktrackr.py:30-40 | the record has exactly the eight keys title, description, due_date, priority, reminder, reminder_time, completed, created_at |
| Tasks.OptionalTime | tasktrackr.py:51-54 | a falsy date field gives no date, and only a falsy one does; a truthy non-string raises an escaping TypeError, and only that does; a truthy string is a caught ValueError exactly when it is not timestamp text, and otherwise reads as the timestamp whose text it is |
| Tasks.RequiredTime | tasktrackr.py:56 | a missing created_at is a caught KeyError; a non-string one escapes, and only that does; a string one is read exactly when it is timestamp text, as the timestamp whose text it is |
| Tasks.ReadRest | tasktrackr.py:51-56 | after construction, a task results exactly when both optional dates and created_at are read, and an escaping exception exactly when the first date that fails to read escapes; title, description, priority and reminder are kept; completed is the truthiness of the stored value (false when absent); each date is the one its field reads as (none when absent); created_at is the one the record holds |
| Tasks.FromDict | tasktrackr.py:43-60 | no task (None) when title is missing or blank; no task when created_at is missing; a decoded task's title is the stripped title field, completed is the truthiness of the stored value, each date is the one its field reads as, absent optional fields take their defaults, and created_at is the one the record holds |
| Tasks.FromDictBadTime | tasktrackr.py:51-58 | a record the constructor accepts whose due_date, reminder_time or created_at text is not timestamp text decodes to None (the caught ValueError) |
| Tasks.NonTextDescriptionEscapes | tasktrackr.py:20 | a record with a usable title whose description is present but not a string makes from_dict raise an AttributeError it does not catch |
| Tasks.FromDictDefaultDescription | tasktrackr.py:47 | a record without description decodes, if at all, with the empty description |
| Tasks.FromDictDefaultPriority | tasktrackr.py:48 | a record without priority decodes, if at all, with priority medium |
| Tasks.InitOfStored | tasktrackr.py:45-50 | calling the constructor with a stored task's fields succeeds and gives back its title, description, priority and reminder |
| Tasks.TimeFieldRoundTrip | tasktrackr.py:51-54 | a date written by to_dict reads back as the same date, an absent one as absent |
| Tasks.RoundTrip | tasktrackr.py:30-57 | from_dict(to_dict(t)) succeeds and reproduces every field of every task |
| Tasks.Serialize | tasktrackr.py:89 | the saved list has one record per task, in the order of the tasks |
| Tasks.SaveThenLoad | tasktrackr.py:74-89 | decoding the records saved for any list of tasks gives back that list, in order |
| Manager.Loaded | tasktrackr.py:74-84 | the list a parsed file loads as is never longer than the records, and when not empty it is the decoded tasks of a file with no escaping record |
| Manager.IsPending | tasktrackr.py:128 | a task is in the pending view exactly when the `completed` flag of its saved record is falsy |
| Manager.Due | tasktrackr.py:139-142 | the tasks whose reminder fires at a given time: every one listed is due and comes from the list, and every due task of the list is listed |
| Manager.IsDue | tasktrackr.py:140-142 | the reminder condition; a task it holds for is incomplete, so it is also in the pending view |
| Manager.Removed | tasktrackr.py:105 | deleting position i keeps the elements before i in place and shifts those after it down by one; the length drops by one |
| Manager.Toggled | tasktrackr.py:116 | toggling position i flips that task's completed flag, keeps its other fields and leaves every other task and the length unchanged |
| Manager.TaskManager.constructor | tasktrackr.py:63-67 | starts running, with the list loaded from a parsed file or empty otherwise; an unparsable file is overwritten with the empty list |
| Manager.TaskManager.LoadTasks | tasktrackr.py:69-84 | a missing file changes nothing; an unparsable one is overwritten with the current list; a parsed one replaces the list with the tasks decoded from it, or with the empty list when decoding raised |
| Manager.TaskManager.ReadRecords | tasktrackr.py:74-84 | the loop over records, with the decoder `from_dict` passed in, leaves the list equal to the kept decoded tasks, in order, or empty when a record raised |
| Manager.TaskManager.SaveTasks | tasktrackr.py:86-89 | the file holds one record per current task |
| Manager.TaskManager.AddTask | tasktrackr.py:93-97 | returns true; the list is the old list with the task appended; the file is saved |
| Manager.TaskManager.RemoveTask | tasktrackr.py:102-108 | returns true exactly when 0 <= index < length; then the list is the old one without that element and is saved; otherwise list and file are unchanged |
| Manager.TaskManager.ToggleTaskCompletion | tasktrackr.py:113-119 | returns true exactly when 0 <= index < length; then only that task's completed flag is flipped and the list is saved; otherwise list and file are unchanged |
| Manager.TaskManager.GetTasks | tasktrackr.py:124-128 | with completed shown, the whole list; otherwise only incomplete tasks of the list, and every incomplete task of the list |
| Manager.TaskManager.CheckReminders | tasktrackr.py:133-147 | when running, announces exactly the tasks with a reminder, a reminder time, not completed and reminder time at or before now, in list order; nothing when stopped; changes nothing |
| Manager.TaskManager.Stop | tasktrackr.py:151-153 | no longer running, and the file holds the current list |
| Manager.ToggleTwice | tasktrackr.py:116 | toggling the same task twice restores the list |
| Manager.RemovedKeepsOthers | tasktrackr.py:105 | removal takes out exactly the indexed task: the remaining tasks plus it are the old tasks as a multiset |
| Manager.ToggledAround | tasktrackr.py:116 | toggling leaves the tasks before and after the index as they were |
| Manager.DueAround | tasktrackr.py:139-142 | a due task is announced after the due tasks before it and before those after it |
| Manager.CompletingSilencesReminder | tasktrackr.py:139-142 | completing a due task removes exactly its announcement from every later check |
| Manager.DueLater | tasktrackr.py:140-142 | what is announced at a time is, in order, what is announced at any later time with a reminder time already reached: an announced task keeps being announced until completed |
| Manager.PendingViewIsWhole | tasktrackr.py:124-128 | the pending view equals the whole list exactly when no task is completed |
| Manager.PendingAfterAdd | tasktrackr.py:128 | after adding a task, the pending view is the old pending view followed by the task when it is not completed |
| Manager.SavedListReloads | tasktrackr.py:74-89 | loading a file written by save_tasks gives back the saved list |
| Manager.RejectedRecordSkipped | tasktrackr.py:75-78 | a record from_dict turns into None is skipped: the tasks saved around it load back, in order, without it |
| Manager.EscapingRecordEmptiesList | tasktrackr.py:82-84 | a record on which from_dict raises an exception it does not catch empties the loaded list, whatever else the file holds |

## Left out

- File I/O: the task file is the `disk` field, holding either nothing, unparsable text, or a parsed list of records; opening, reading, writing, the `tasks.json` path and the JSON text itself are not modelled.
- Manager.TaskManager.SaveTasks: a failure to write the file (caught and reported by `save_tasks`) is not modelled; saving always succeeds.
- A task file whose top-level value is not a list, or whose list holds values that are not JSON objects: records are always maps from keys to JSON values.
- Manager.TaskManager.AddTask, RemoveTask, ToggleTaskCompletion, GetTasks: their `except Exception` branches cannot be reached once saving cannot fail, so they are not modelled.
- Aliasing: tasks are values. `get_tasks(True)` returns the manager's own list and toggling mutates a shared `Task` object in place, so the program's caller sees later changes through that list; the model returns a copy.
- Console output: every `print`, the colorama colours and the reminder text; `CheckReminders` returns the announced tasks instead of printing them.
- The interactive parts: `print_menu`, `get_task_input`, `main`.
- The reminder thread, `schedule`, `time.sleep`, signal handling and process exit; the model gives one reminder check per call and says nothing about concurrency between the thread and the menu.
- The clock: `datetime.now()` becomes the `now` parameter of `CheckReminders` and the `createdAt` argument of `Init` and `NewTask`.
- Tasks.OptionalTime, Tasks.RequiredTime: timestamps are natural numbers and their text form is the canonical decimal numeral; ISO-8601 text, time zones, and the many spellings `fromisoformat` accepts for one instant are not modelled, so the model rejects text the program would read.
- Manager.TaskManager.CheckReminders: comparing a timezone-aware with a naive timestamp (a `TypeError` caught there) cannot arise with natural-number timestamps.
- Text.Lower: lower-casing changes ASCII capitals only. Python also lower-cases non-ASCII letters; the only ones whose lower case contains ASCII letters are U+212A (to "k", which none of "low", "medium", "high" contains) and U+0130 (to "i" followed by the combining dot U+0307, which keeps the result from being one of the three names), so the normalised priority is the same.
- Tasks.FromDict: a present `completed` value is kept by the program as the raw JSON value; the model keeps its truthiness, which is all the program reads, but writes `false`/`true` back where the program would write the raw value.
- Tasks.FromDict: its own contract states the refusals, the defaults, and the decoded completed flag, dates and creation time; how a present description, priority and reminder are decoded is stated by `Tasks.Init`, which it calls, and the full field-by-field result for saved records by `Tasks.RoundTrip`.
- Manager.TaskManager.GetTasks: its own contract states membership in both directions; that the pending view keeps list order is stated by `Seqs.FilterConcat` about the same selection and used in `Manager.PendingAfterAdd`.
