/**
 * The task manager: the in-memory list of tasks, the file it is persisted to,
 * the flag that keeps the reminder poller alive, and the selections the
 * listing and the reminder check make from the list.
 */
module Manager {
  import opened Wrappers
  import opened IsoTime
  import opened Seqs
  import opened Tasks

  /** The task file as `load_tasks` finds it: missing, not valid JSON, or a parsed list of records. */
  datatype Stored = Absent | Malformed | Parsed(records: seq<Record>)

  /** The list `load_tasks` leaves behind after reading a parsed file. */
  function Loaded(records: seq<Record>): (r: seq<Task>)
    ensures |r| <= |records|
    ensures r != [] ==> KeepDecoded(records, FromDict) == Some(r)
  {
    match KeepDecoded(records, FromDict)
    case Some(tasks) => tasks
    case None => []
  }

  /** A task the listing shows when completed tasks are hidden. */
  predicate IsPending(t: Task): (p: bool)
    ensures p <==> !ToDict(t)["completed"].Truthy()
  {
    !t.completed
  }

  /** The reminder condition of `check_reminders` at clock reading `now`. */
  predicate IsDue(t: Task, now: Time): (due: bool)
    ensures due ==> IsPending(t)
  {
    t.reminder && t.reminderTime.Some? && !t.completed && t.reminderTime.value <= now
  }

  function DueAt(now: Time): Task -> bool {
    (t: Task) => IsDue(t, now)
  }

  /** The tasks announced by a reminder check at `now`, in list order. */
  function Due(tasks: seq<Task>, now: Time): (r: seq<Task>)
    ensures forall i :: 0 <= i < |r| ==> IsDue(r[i], now) && r[i] in tasks
    ensures forall i :: 0 <= i < |tasks| && IsDue(tasks[i], now) ==> tasks[i] in r
  {
    Filter(tasks, DueAt(now))
  }

  /** `del tasks[i]`: the list without its `i`-th element, the others in order. */
  function Removed(tasks: seq<Task>, i: nat): (r: seq<Task>)
    requires i < |tasks|
    ensures |r| == |tasks| - 1
    ensures forall j :: 0 <= j < i ==> r[j] == tasks[j]
    ensures forall j :: i <= j < |r| ==> r[j] == tasks[j + 1]
  {
    tasks[..i] + tasks[i + 1..]
  }

  /** `tasks[i].completed = not tasks[i].completed`. */
  function Toggled(tasks: seq<Task>, i: nat): (r: seq<Task>)
    requires i < |tasks|
    ensures |r| == |tasks|
    ensures r[i].completed == !tasks[i].completed
    ensures r[i] == tasks[i].(completed := r[i].completed)
    ensures forall j :: 0 <= j < |tasks| && j != i ==> r[j] == tasks[j]
  {
    var t := tasks[i].(completed := !tasks[i].completed);
    KeepsValidity(tasks[i], t);
    tasks[i := t]
  }

  class TaskManager {
    /** The tasks, in the order they were added or loaded. */
    var tasks: seq<Task>
    /** Cleared by `stop`; the reminder poller runs while it is set. */
    var running: bool
    /** The contents of the task file. */
    var disk: Stored

    /** `TaskManager()`: an empty list, then `load_tasks`, then running. */
    constructor (stored: Stored)
      ensures running
      ensures tasks == (if stored.Parsed? then Loaded(stored.records) else [])
      ensures disk == (if stored.Malformed? then Parsed([]) else stored)
    {
      tasks := [];
      disk := stored;
      running := false;
      new;
      LoadTasks();
      running := true;
    }

    /**
     * `load_tasks`: a missing file changes nothing; an unparsable one is
     * overwritten with the current list; otherwise the list becomes the tasks
     * decoded from the records, or empty when decoding raised.
     */
    method LoadTasks()
      modifies this`tasks, this`disk
      ensures old(disk).Absent? ==> tasks == old(tasks) && disk == old(disk)
      ensures old(disk).Malformed? ==> tasks == old(tasks) && disk == Parsed(Serialize(tasks))
      ensures old(disk).Parsed? ==> tasks == Loaded(old(disk).records) && disk == old(disk)
    {
      match disk
      case Absent =>
      case Malformed =>
        SaveTasks();
      case Parsed(records) =>
        ReadRecords(records, FromDict);
    }

    /**
     * The loop of `load_tasks` over a parsed file, with `decode` standing for
     * `Task.from_dict`: each record that decodes is appended, one it rejects is
     * skipped, and an exception that escapes it empties the list and ends the
     * loop.
     */
    method ReadRecords(records: seq<Record>, decode: Record -> Outcome<Task>)
      modifies this`tasks
      ensures KeepDecoded(records, decode).Some? ==> tasks == KeepDecoded(records, decode).value
      ensures KeepDecoded(records, decode).None? ==> tasks == []
    {
      tasks := [];
      var i := 0;
      while i < |records|
        invariant 0 <= i <= |records|
        invariant KeepDecoded(records[..i], decode) == Some(tasks)
      {
        KeepDecodedSnoc(records[..i], records[i], decode);
        assert records[..i + 1] == records[..i] + [records[i]];
        match decode(records[i]) {
          case Ok(t) =>
            tasks := tasks + [t];
          case Caught =>
          case Escaped =>
            KeepDecodedEscaped(records, i, decode);
            tasks := [];
            return;
        }
        i := i + 1;
      }
      assert records[..i] == records;
    }

    /** `save_tasks`: the file is rewritten with one record per task. */
    method SaveTasks()
      modifies this`disk
      ensures disk == Parsed(Serialize(tasks))
    {
      disk := Parsed(Serialize(tasks));
    }

    /** `add_task`: appends the task, saves, and reports success. */
    method AddTask(task: Task) returns (ok: bool)
      modifies this`tasks, this`disk
      ensures ok
      ensures tasks == old(tasks) + [task]
      ensures disk == Parsed(Serialize(tasks))
    {
      tasks := tasks + [task];
      SaveTasks();
      ok := true;
    }

    /** `remove_task`: deletes the task at `index` and saves when the index is in range, else changes nothing. */
    method RemoveTask(index: int) returns (ok: bool)
      modifies this`tasks, this`disk
      ensures ok <==> 0 <= index < |old(tasks)|
      ensures ok ==> tasks == Removed(old(tasks), index) && disk == Parsed(Serialize(tasks))
      ensures !ok ==> tasks == old(tasks) && disk == old(disk)
    {
      if 0 <= index < |tasks| {
        tasks := tasks[..index] + tasks[index + 1..];
        SaveTasks();
        return true;
      }
      return false;
    }

    /** `toggle_task_completion`: flips the completion of the task at `index` and saves when in range, else changes nothing. */
    method ToggleTaskCompletion(index: int) returns (ok: bool)
      modifies this`tasks, this`disk
      ensures ok <==> 0 <= index < |old(tasks)|
      ensures ok ==> tasks == Toggled(old(tasks), index) && disk == Parsed(Serialize(tasks))
      ensures !ok ==> tasks == old(tasks) && disk == old(disk)
    {
      if 0 <= index < |tasks| {
        tasks := Toggled(tasks, index);
        SaveTasks();
        return true;
      }
      return false;
    }

    /** `get_tasks`: every task, or only the incomplete ones, in list order. */
    function GetTasks(showCompleted: bool): (r: seq<Task>)
      reads this
      ensures showCompleted ==> r == tasks
      ensures !showCompleted ==> forall i :: 0 <= i < |r| ==> !r[i].completed && r[i] in tasks
      ensures !showCompleted ==> forall i :: 0 <= i < |tasks| && !tasks[i].completed ==> tasks[i] in r
    {
      if showCompleted then tasks else Filter(tasks, IsPending)
    }

    /**
     * One pass of `check_reminders` at clock reading `now`: the tasks it
     * announces, in list order; nothing once the manager has been stopped.
     */
    method CheckReminders(now: Time) returns (announced: seq<Task>)
      ensures announced == if running then Due(tasks, now) else []
    {
      announced := [];
      if !running {
        return;
      }
      var i := 0;
      while i < |tasks|
        invariant 0 <= i <= |tasks|
        invariant announced == Due(tasks[..i], now)
      {
        FilterConcat(tasks[..i], [tasks[i]], DueAt(now));
        assert tasks[..i + 1] == tasks[..i] + [tasks[i]];
        if IsDue(tasks[i], now) {
          announced := announced + [tasks[i]];
        }
        i := i + 1;
      }
      assert tasks[..i] == tasks;
    }

    /** `stop`: clears the running flag and saves. */
    method Stop()
      modifies this`running, this`disk
      ensures !running
      ensures disk == Parsed(Serialize(tasks))
    {
      running := false;
      SaveTasks();
    }
  }

  /** Toggling the same task twice gives back the original list. */
  lemma ToggleTwice(tasks: seq<Task>, i: nat)
    requires i < |tasks|
    ensures Toggled(Toggled(tasks, i), i) == tasks
  {
    var once := Toggled(tasks, i);
    assert Toggled(once, i)[i] == tasks[i];
  }

  /** Removing a task takes exactly that one task out of the list. */
  lemma RemovedKeepsOthers(tasks: seq<Task>, i: nat)
    requires i < |tasks|
    ensures multiset(Removed(tasks, i)) + multiset{tasks[i]} == multiset(tasks)
  {
    assert tasks == tasks[..i] + [tasks[i]] + tasks[i + 1..];
  }

  /** Toggling a task leaves the parts of the list before and after it as they were. */
  lemma ToggledAround(tasks: seq<Task>, i: nat)
    requires i < |tasks|
    ensures Toggled(tasks, i)[..i] == tasks[..i]
    ensures Toggled(tasks, i)[i + 1..] == tasks[i + 1..]
  {
  }

  /** A due task is announced between the due tasks before it and those after it. */
  lemma DueAround(tasks: seq<Task>, i: nat, now: Time)
    requires i < |tasks| && IsDue(tasks[i], now)
    ensures Due(tasks, now) == Due(tasks[..i], now) + ([tasks[i]] + Due(tasks[i + 1..], now))
  {
    FilterAround(tasks, i, DueAt(now));
    FilterSingleton(tasks[i], DueAt(now));
  }

  /**
   * Completing a task that is due silences its reminder and no other: later
   * reminder checks announce the same tasks, in the same order, except it.
   */
  lemma CompletingSilencesReminder(tasks: seq<Task>, i: nat, now: Time)
    requires i < |tasks| && IsDue(tasks[i], now)
    ensures Due(Toggled(tasks, i), now) == Due(tasks[..i], now) + Due(tasks[i + 1..], now)
  {
    var after := Toggled(tasks, i);
    FilterAround(after, i, DueAt(now));
    ToggledAround(tasks, i);
    FilterSingleton(after[i], DueAt(now));
    assert [] + Due(tasks[i + 1..], now) == Due(tasks[i + 1..], now);
  }

  /**
   * A reminder, once due, stays due until the task is completed: the tasks
   * announced at `now` are, in order, those announced at any later time whose
   * reminder time is already reached at `now`.
   */
  lemma DueLater(tasks: seq<Task>, now: Time, later: Time)
    requires now <= later
    ensures Due(tasks, now) == Filter(Due(tasks, later), DueAt(now))
  {
    FilterNarrow(tasks, DueAt(later), DueAt(now));
  }

  /** Adding a task shows it in the pending view exactly when it is not completed. */
  lemma PendingAfterAdd(tasks: seq<Task>, t: Task)
    ensures Filter(tasks + [t], IsPending) == Filter(tasks, IsPending) + (if t.completed then [] else [t])
  {
    FilterConcat(tasks, [t], IsPending);
    FilterSingleton(t, IsPending);
  }

  /** The pending view is the whole list exactly when no task is completed. */
  lemma PendingViewIsWhole(tasks: seq<Task>)
    ensures Filter(tasks, IsPending) == tasks <==> forall i :: 0 <= i < |tasks| ==> !tasks[i].completed
  {
    FilterAll(tasks, IsPending);
  }

  /** A file written by `save_tasks` loads back to the same list. */
  lemma SavedListReloads(tasks: seq<Task>)
    ensures Loaded(Serialize(tasks)) == tasks
  {
    SaveThenLoad(tasks);
  }

  /**
   * A record `from_dict` rejects is skipped: the tasks saved around it load
   * back, in order, without it.
   */
  lemma RejectedRecordSkipped(before: seq<Task>, bad: Record, after: seq<Task>)
    requires FromDict(bad).Caught?
    ensures Loaded(Serialize(before) + [bad] + Serialize(after)) == before + after
  {
    var decode := FromDict;
    SaveThenLoad(before);
    SaveThenLoad(after);
    KeepDecodedOne(bad, decode);
    KeepDecodedConcat(Serialize(before), [bad], decode);
    KeepDecodedConcat(Serialize(before) + [bad], Serialize(after), decode);
    assert before + [] == before;
  }

  /**
   * A record on which `from_dict` raises an exception it does not catch
   * empties the whole list, whatever the other records hold.
   */
  lemma EscapingRecordEmptiesList(before: seq<Record>, bad: Record, after: seq<Record>)
    requires FromDict(bad).Escaped?
    ensures Loaded(before + [bad] + after) == []
  {
    var all := before + [bad] + after;
    assert all[|before|] == bad;
    assert KeepDecoded(all, FromDict).None?;
  }

}
