/**
 * The task record: its validating constructor, its serialised form (one JSON
 * object per task) and the decoding of a stored list of such objects.
 */
module Tasks {
  import opened Wrappers
  import opened Text
  import opened IsoTime
  import opened Seqs

  datatype Priority = Low | Medium | High {
    /** The text stored for the priority. */
    function Name(): string {
      match this
      case Low => "low"
      case Medium => "medium"
      case High => "high"
    }
  }

  /**
   * Priority normalisation: `priority.lower() if priority else "medium"`, and
   * anything that is then not "low", "medium" or "high" becomes "medium".
   */
  function ParsePriority(p: string): (r: Priority)
    ensures r == Medium || r.Name() == Lower(p)
  {
    if p == "" then Medium
    else
      var l := Lower(p);
      if l == "low" then Low else if l == "high" then High else Medium
  }

  /**
   * The normalised priority is the lower-cased input when that is one of the
   * three names, and medium otherwise (the empty string included).
   */
  lemma ParsePriorityMeaning(p: string)
    ensures Lower(p) in ["low", "medium", "high"] ==> ParsePriority(p).Name() == Lower(p)
    ensures Lower(p) !in ["low", "medium", "high"] ==> ParsePriority(p) == Medium
  {
  }

  /** The stored text of a priority reads back as that priority. */
  lemma ParsePriorityName(q: Priority)
    ensures ParsePriority(q.Name()) == q
  {
    var n := q.Name();
    assert Lower(n) == n by {
      assert forall i :: 0 <= i < |n| ==> !('A' <= n[i] <= 'Z');
    }
  }

  /** The fields of a task, as the program keeps them in memory. */
  datatype TaskData = TaskData(
    title: string,
    description: string,
    dueDate: Option<Time>,
    priority: Priority,
    reminder: bool,
    reminderTime: Option<Time>,
    completed: bool,
    createdAt: Time)
  {
    /** What construction guarantees: a stripped, non-empty title and a stripped description. */
    predicate Valid() {
      title != "" && Stripped(title) && Stripped(description)
    }
  }

  /** Validity depends on the title and the description only. */
  lemma KeepsValidity(a: Task, b: TaskData)
    requires b.title == a.title && b.description == a.description
    ensures b.Valid()
  {
  }

  /** A task as the program holds it: every task was built by the validating constructor. */
  type Task = t: TaskData | t.Valid() witness TaskData("-", "", None, Medium, false, None, false, 0)

  /** A JSON value as `json.load` delivers it; numbers, arrays and objects only by their truthiness. */
  datatype Json = JNull | JBool(b: bool) | JStr(s: string) | JOther(truthy: bool) {
    /**
     * Python's truth value of the decoded value: the falsy values are exactly
     * `null`, `false`, the empty string, and the falsy numbers and containers.
     */
    predicate Truthy(): (b: bool)
      ensures b <==> this != JNull && this != JBool(false) && this != JStr("") && this != JOther(false)
    {
      match this
      case JNull => false
      case JBool(b) => b
      case JStr(s) => s != ""
      case JOther(truthy) => truthy
    }
  }

  /** One stored task: a JSON object. */
  type Record = map<string, Json>

  /** `data.get(key, default)`. */
  function Get(data: Record, key: string, default: Json): (r: Json)
    ensures key in data ==> r == data[key]
    ensures key !in data ==> r == default
  {
    if key in data then data[key] else default
  }

  /**
   * The constructor `Task(title, description, due_date, priority, reminder,
   * reminder_time)` applied to arbitrary values, with `created_at` (the clock
   * reading taken at construction) as a parameter.
   */
  function Init(title: Json, description: Json, dueDate: Option<Time>, priority: Json, reminder: Json,
                reminderTime: Option<Time>, createdAt: Time): (r: Outcome<Task>)
    ensures r.Caught? <==> !title.Truthy() || (title.JStr? && Strip(title.s) == "")
    ensures r.Escaped? <==> !r.Caught? && (!title.JStr? || !description.JStr? || (priority.Truthy() && !priority.JStr?))
    ensures r.Ok? ==> r.value.title == Strip(title.s) && r.value.description == Strip(description.s)
    ensures r.Ok? ==> r.value.priority == (if priority.JStr? then ParsePriority(priority.s) else Medium)
    ensures r.Ok? ==> r.value.reminder == reminder.Truthy() && !r.value.completed
    ensures r.Ok? ==> r.value.dueDate == dueDate && r.value.reminderTime == reminderTime && r.value.createdAt == createdAt
  {
    if !title.Truthy() || (title.JStr? && Strip(title.s) == "") then Caught  // ValueError: empty title
    else if !title.JStr? || !description.JStr? then Escaped                   // `.strip()` on a non-string
    else if priority.Truthy() && !priority.JStr? then Escaped                 // `.lower()` on a non-string
    else
      var p := if priority.JStr? then ParsePriority(priority.s) else Medium;
      var t := TaskData(Strip(title.s), Strip(description.s), dueDate, p, reminder.Truthy(), reminderTime, false, createdAt);
      Ok(t)
  }

  /**
   * Construction from the values the program itself supplies (text for the
   * title, description and priority, a flag for the reminder): it fails, with
   * `None`, exactly when the title is empty or all whitespace, and never fails
   * any other way.
   */
  function NewTask(title: string, description: string, dueDate: Option<Time>, priority: string, reminder: bool,
                   reminderTime: Option<Time>, createdAt: Time): (r: Option<Task>)
    ensures r.None? <==> AllSpace(title)
    ensures r.Some? ==> r.value.title == Strip(title) && r.value.description == Strip(description)
    ensures r.Some? ==> r.value.priority == ParsePriority(priority) && r.value.reminder == reminder
    ensures r.Some? ==> r.value.dueDate == dueDate && r.value.reminderTime == reminderTime
    ensures r.Some? ==> !r.value.completed && r.value.createdAt == createdAt
  {
    StripBlank(title);
    match Init(JStr(title), JStr(description), dueDate, JStr(priority), JBool(reminder), reminderTime, createdAt)
    case Ok(t) => Some(t)
    case _ => None
  }

  /** A stored date: its ISO text, or `null` when absent. */
  function TimeField(t: Option<Time>): (r: Json)
    ensures r.Truthy() <==> t.Some?
    ensures t.Some? ==> r.JStr? && Parse(r.s) == t
  {
    match t
    case Some(x) =>
      ParseFormat(x);
      JStr(Format(x))
    case None => JNull
  }

  /** `to_dict()`: the JSON object stored for a task. */
  function ToDict(t: Task): (r: Record)
    ensures r.Keys == {"title", "description", "due_date", "priority", "reminder", "reminder_time", "completed", "created_at"}
  {
    map[
      "title" := JStr(t.title),
      "description" := JStr(t.description),
      "due_date" := TimeField(t.dueDate),
      "priority" := JStr(t.priority.Name()),
      "reminder" := JBool(t.reminder),
      "reminder_time" := TimeField(t.reminderTime),
      "completed" := JBool(t.completed),
      "created_at" := JStr(Format(t.createdAt))
    ]
  }

  /** An optional date field, `if data.get(key): datetime.fromisoformat(data[key])`. */
  function OptionalTime(v: Json): (r: Outcome<Option<Time>>)
    ensures !v.Truthy() ==> r == Ok(None)
    ensures r.Ok? && r.value.Some? ==> v == JStr(Format(r.value.value))
    ensures r.Escaped? <==> v.Truthy() && !v.JStr?
    ensures r.Ok? && r.value.None? ==> !v.Truthy()
    ensures v.JStr? && v.Truthy() ==> (r.Caught? <==> Parse(v.s).None?)
  {
    if !v.Truthy() then Ok(None)
    else if !v.JStr? then Escaped  // TypeError: the argument must be a string
    else
      match Parse(v.s)
      case Some(x) =>
        ParseIsInverse(v.s, x);
        Ok(Some(x))
      case None => Caught  // ValueError: not an ISO timestamp
  }

  /** A required date field, `datetime.fromisoformat(data[key])`. */
  function RequiredTime(data: Record, key: string): (r: Outcome<Time>)
    ensures key !in data ==> r.Caught?
    ensures r.Ok? ==> key in data && data[key] == JStr(Format(r.value))
    ensures r.Escaped? <==> key in data && !data[key].JStr?
    ensures key in data && data[key].JStr? ==> (r.Ok? <==> Parse(data[key].s).Some?)
  {
    if key !in data then Caught  // KeyError
    else if !data[key].JStr? then Escaped
    else
      match Parse(data[key].s)
      case Some(x) =>
        ParseIsInverse(data[key].s, x);
        Ok(x)
      case None => Caught
  }

  /**
   * The part of `from_dict` after the constructor has run: the two optional
   * dates, the completion flag and the creation time are read into `base`.
   */
  function ReadRest(base: Task, data: Record): (r: Outcome<Task>)
    ensures r.Ok? <==> OptionalTime(Get(data, "due_date", JNull)).Ok? && OptionalTime(Get(data, "reminder_time", JNull)).Ok?
                       && RequiredTime(data, "created_at").Ok?
    ensures r.Escaped? <==> OptionalTime(Get(data, "due_date", JNull)).Escaped?
                            || (OptionalTime(Get(data, "due_date", JNull)).Ok? && OptionalTime(Get(data, "reminder_time", JNull)).Escaped?)
                            || (OptionalTime(Get(data, "due_date", JNull)).Ok? && OptionalTime(Get(data, "reminder_time", JNull)).Ok?
                                && RequiredTime(data, "created_at").Escaped?)
    ensures "created_at" !in data ==> !r.Ok?
    ensures r.Ok? ==> r.value.title == base.title && r.value.description == base.description
    ensures r.Ok? ==> r.value.priority == base.priority && r.value.reminder == base.reminder
    ensures r.Ok? ==> r.value.completed == Get(data, "completed", JBool(false)).Truthy()
    ensures r.Ok? ==> OptionalTime(Get(data, "due_date", JNull)) == Ok(r.value.dueDate)
    ensures r.Ok? ==> OptionalTime(Get(data, "reminder_time", JNull)) == Ok(r.value.reminderTime)
    ensures r.Ok? && "completed" !in data ==> !r.value.completed
    ensures r.Ok? && "due_date" !in data ==> r.value.dueDate == None
    ensures r.Ok? && "reminder_time" !in data ==> r.value.reminderTime == None
    ensures r.Ok? ==> "created_at" in data && data["created_at"] == JStr(Format(r.value.createdAt))
  {
    match (OptionalTime(Get(data, "due_date", JNull)), OptionalTime(Get(data, "reminder_time", JNull)))
    case (Escaped, _) => Escaped
    case (Caught, _) => Caught
    case (Ok(_), Escaped) => Escaped
    case (Ok(_), Caught) => Caught
    case (Ok(due), Ok(reminderTime)) =>
      var completed := Get(data, "completed", JBool(false)).Truthy();
      match RequiredTime(data, "created_at")
      case Escaped => Escaped
      case Caught => Caught
      case Ok(createdAt) =>
        var t := TaskData(base.title, base.description, due, base.priority, base.reminder, reminderTime, completed, createdAt);
        KeepsValidity(base, t);
        Ok(t)
  }

  /**
   * `from_dict(data)`: `Ok` is a task, `Caught` is the `None` it returns after a
   * `KeyError` or `ValueError`, and `Escaped` is any other exception, which it
   * does not catch. Missing optional keys take their defaults.
   */
  function FromDict(data: Record): (r: Outcome<Task>)
    ensures "title" !in data ==> r.Caught?
    ensures "title" in data && data["title"].JStr? && AllSpace(data["title"].s) ==> r.Caught?
    ensures "created_at" !in data ==> !r.Ok?
    ensures r.Ok? ==> "title" in data && data["title"].JStr? && r.value.title == Strip(data["title"].s)
    ensures r.Ok? && "reminder" !in data ==> !r.value.reminder
    ensures r.Ok? && "completed" !in data ==> !r.value.completed
    ensures r.Ok? && "due_date" !in data ==> r.value.dueDate == None
    ensures r.Ok? && "reminder_time" !in data ==> r.value.reminderTime == None
    ensures r.Ok? ==> r.value.completed == Get(data, "completed", JBool(false)).Truthy()
    ensures r.Ok? ==> OptionalTime(Get(data, "due_date", JNull)) == Ok(r.value.dueDate)
    ensures r.Ok? ==> OptionalTime(Get(data, "reminder_time", JNull)) == Ok(r.value.reminderTime)
    ensures r.Ok? ==> "created_at" in data && data["created_at"] == JStr(Format(r.value.createdAt))
  {
    if "title" !in data then Caught
    else
      StripBlank(if data["title"].JStr? then data["title"].s else "");
      var description := Get(data, "description", JStr(""));
      var priority := Get(data, "priority", JStr("medium"));
      match Init(data["title"], description, None, priority, Get(data, "reminder", JBool(false)), None, 0)
      case Caught => Caught
      case Escaped => Escaped
      case Ok(base) =>
        ReadRest(base, data)
  }

  /**
   * A record the constructor accepts but one of whose date texts is not a
   * timestamp (a `ValueError` from `fromisoformat`) decodes to `None`.
   */
  lemma FromDictBadTime(data: Record)
    requires "title" in data && data["title"].JStr? && !AllSpace(data["title"].s)
    requires Get(data, "description", JStr("")).JStr?
    requires Get(data, "priority", JStr("medium")).JStr? || !Get(data, "priority", JStr("medium")).Truthy()
    requires OptionalTime(Get(data, "due_date", JNull)).Caught?
             || (OptionalTime(Get(data, "due_date", JNull)).Ok? && OptionalTime(Get(data, "reminder_time", JNull)).Caught?)
             || (OptionalTime(Get(data, "due_date", JNull)).Ok? && OptionalTime(Get(data, "reminder_time", JNull)).Ok?
                 && RequiredTime(data, "created_at").Caught?)
    ensures FromDict(data).Caught?
  {
    StripBlank(data["title"].s);
    var init := Init(data["title"], Get(data, "description", JStr("")), None, Get(data, "priority", JStr("medium")),
                     Get(data, "reminder", JBool(false)), None, 0);
    assert init.Ok?;
    assert FromDict(data) == ReadRest(init.value, data);
  }

  /**
   * A record with a usable title whose description is present but not a
   * string (`null`, a number, a list) makes the constructor's
   * `description.strip()` raise `AttributeError`, which `from_dict` does not
   * catch.
   */
  lemma NonTextDescriptionEscapes(data: Record)
    requires "title" in data && data["title"].JStr? && !AllSpace(data["title"].s)
    requires "description" in data && !data["description"].JStr?
    ensures FromDict(data).Escaped?
  {
    var title := data["title"];
    assert title.Truthy() && Strip(title.s) != "" by { StripBlank(title.s); }
    assert Get(data, "description", JStr("")) == data["description"];
    var init := Init(title, data["description"], None, Get(data, "priority", JStr("medium")),
                     Get(data, "reminder", JBool(false)), None, 0);
    assert init.Escaped?;
  }

  /** A missing description reads as "". */
  lemma FromDictDefaultDescription(data: Record)
    requires "description" !in data
    ensures FromDict(data).Ok? ==> FromDict(data).value.description == ""
  {
    if "title" in data {
      var init := Init(data["title"], JStr(""), None, Get(data, "priority", JStr("medium")),
                       Get(data, "reminder", JBool(false)), None, 0);
      if init.Ok? {
        assert FromDict(data) == ReadRest(init.value, data);
        assert Strip("") == "";
      }
    }
  }

  /** A missing priority reads as medium. */
  lemma FromDictDefaultPriority(data: Record)
    requires "priority" !in data
    ensures FromDict(data).Ok? ==> FromDict(data).value.priority == Medium
  {
    assert ParsePriority("medium") == Medium by { ParsePriorityName(Medium); }
    if "title" in data {
      var init := Init(data["title"], Get(data, "description", JStr("")), None, JStr("medium"),
                       Get(data, "reminder", JBool(false)), None, 0);
      if init.Ok? {
        assert FromDict(data) == ReadRest(init.value, data);
      }
    }
  }

  /** Every task survives being stored and read back, field for field. */
  lemma RoundTrip(t: Task)
    ensures FromDict(ToDict(t)) == Ok(t)
  {
    var d := ToDict(t);
    ToDictFields(t);
    var base := t.(dueDate := None, reminderTime := None, completed := false, createdAt := 0);
    InitOfStored(t);
    assert FromDict(d) == ReadRest(base, d);
    TimeFieldRoundTrip(t.dueDate);
    TimeFieldRoundTrip(t.reminderTime);
    ParseFormat(t.createdAt);
    assert Get(d, "due_date", JNull) == TimeField(t.dueDate);
    assert Get(d, "reminder_time", JNull) == TimeField(t.reminderTime);
    assert Get(d, "completed", JBool(false)).Truthy() == t.completed;
    assert RequiredTime(d, "created_at") == Ok(t.createdAt);
    var u := TaskData(base.title, base.description, t.dueDate, base.priority, base.reminder, t.reminderTime, t.completed, t.createdAt);
    assert u == t;
    assert ReadRest(base, d) == Ok(u);
  }

  /** Proof aid: the values `to_dict` stores under each key, one fact per key. */
  lemma ToDictFields(t: Task)
    ensures "title" in ToDict(t) && ToDict(t)["title"] == JStr(t.title)
    ensures "description" in ToDict(t) && ToDict(t)["description"] == JStr(t.description)
    ensures "priority" in ToDict(t) && ToDict(t)["priority"] == JStr(t.priority.Name())
    ensures "reminder" in ToDict(t) && ToDict(t)["reminder"] == JBool(t.reminder)
    ensures "due_date" in ToDict(t) && ToDict(t)["due_date"] == TimeField(t.dueDate)
    ensures "reminder_time" in ToDict(t) && ToDict(t)["reminder_time"] == TimeField(t.reminderTime)
    ensures "completed" in ToDict(t) && ToDict(t)["completed"] == JBool(t.completed)
    ensures "created_at" in ToDict(t) && ToDict(t)["created_at"] == JStr(Format(t.createdAt))
  {
  }

  /** The constructor, given the stored title, description, priority and reminder flag, rebuilds them unchanged. */
  lemma InitOfStored(t: Task)
    ensures Init(JStr(t.title), JStr(t.description), None, JStr(t.priority.Name()), JBool(t.reminder), None, 0)
            == Ok(t.(dueDate := None, reminderTime := None, completed := false, createdAt := 0))
  {
    StripStripped(t.title);
    StripStripped(t.description);
    ParsePriorityName(t.priority);
    var r := Init(JStr(t.title), JStr(t.description), None, JStr(t.priority.Name()), JBool(t.reminder), None, 0);
    assert JStr(t.title).Truthy();
    assert !r.Caught?;
    assert !r.Escaped?;
    var u := r.value;
    assert u.title == t.title && u.description == t.description && u.priority == t.priority;
    assert u.reminder == t.reminder && !u.completed;
    assert u.dueDate == None && u.reminderTime == None && u.createdAt == 0;
  }

  /** A stored optional date reads back as the date that was stored. */
  lemma TimeFieldRoundTrip(t: Option<Time>)
    ensures OptionalTime(TimeField(t)) == Ok(t)
  {
    if t.Some? { ParseFormat(t.value); }
  }

  /** `save_tasks`: the list of records written for the tasks, one per task, in order. */
  function Serialize(tasks: seq<Task>): (r: seq<Record>)
    ensures |r| == |tasks|
    ensures forall i :: 0 <= i < |tasks| ==> r[i] == ToDict(tasks[i])
  {
    Map(tasks, ToDict)
  }

  /** Whatever list of tasks is saved is loaded back unchanged. */
  lemma SaveThenLoad(tasks: seq<Task>)
    ensures KeepDecoded(Serialize(tasks), FromDict) == Some(tasks)
  {
    forall t: Task
      ensures FromDict(ToDict(t)) == Ok(t)
    {
      RoundTrip(t);
    }
    KeepDecodedMap(tasks, ToDict, FromDict);
  }
}
