/**
 * The three agent tools of main.py: `add_task`, `list_tasks` and
 * `complete_task`. The Todoist store is a parameter: what `add_task`,
 * `get_tasks` and `close_task` return, or the message of the exception
 * they raise. Every tool turns a store exception into a reply string, so
 * every function here is total.
 */
module Tools {
  import opened Wrappers
  import opened Text
  import opened DueDate

  /** A task's due date as the store reports it: a date and, for a timed task, an ISO date-time. */
  datatype Due = Due(date: string, datetime: Option<string>)

  datatype Task = Task(id: string, content: string, priority: int, due: Option<Due>)

  /** What a store call returned, or the text of the exception it raised. */
  datatype StoreReply<T> = Ok(value: T) | Raised(message: string)

  /** The arguments `add_task` passes to the store. */
  datatype AddRequest = AddRequest(content: string, dueString: Option<string>, priority: int)

  /** One run of `add_task`: what it asked the store for and what it answered. */
  datatype AddRun = AddRun(request: AddRequest, reply: string)

  /** One run of `complete_task`: the store id it asked to close, if any, and what it answered. */
  datatype CompleteRun = CompleteRun(closed: Option<string>, reply: string)

  const Success := "\U{2705}"
  const Failure := "\U{274C}"
  const AddedPrefix := Success + " Task added: "
  const AddErrorPrefix := Failure + " Error adding task: "
  const NoDueDate := "No due date"
  const NoTasksMessage := "No tasks found in your Todoist account."
  const ListHeader := "\U{1F4CB} Your tasks:"
  const ListErrorPrefix := Failure + " Error fetching tasks: "
  /** `str()` of the `IndexError` that indexing a one-element list at 1 raises. */
  const IndexErrorMessage := "list index out of range"
  const CompletedPrefix := Success + " Task completed: "
  const InvalidIdPrefix := Failure + " Invalid task ID. Please use a number between 1 and "
  const CompleteErrorPrefix := Failure + " Error completing task: "

  predicate StartsWith(s: string, prefix: string) {
    |prefix| <= |s| && s[..|prefix|] == prefix
  }

  /** A string built as `prefix + rest` starts with `prefix`, and `rest` follows it. */
  lemma Prefixed(prefix: string, rest: string)
    ensures StartsWith(prefix + rest, prefix) && (prefix + rest)[|prefix|..] == rest
  {
  }

  // ---------------------------------------------------------------- add_task

  /** `task.due.date if task.due else 'No due date'`. */
  function DueLabel(due: Option<Due>): string {
    match due
    case None => NoDueDate
    case Some(d) => d.date
  }

  /** `add_task(task_description, due_date, priority)` against a store that answers `store`. */
  function AddTask(description: string, dueDate: Option<string>, priority: int,
                   store: AddRequest -> StoreReply<Task>): (r: AddRun)
    ensures r.request.content == description && r.request.priority == priority
    ensures r.request.dueString == Normalize(dueDate)
    ensures store(r.request).Ok? ==>
      r.reply == AddedPrefix + store(r.request).value.content + " (Due: " + DueLabel(store(r.request).value.due) + ")"
    ensures store(r.request).Raised? ==> r.reply == AddErrorPrefix + store(r.request).message
  {
    var request := AddRequest(description, Normalize(dueDate), priority);
    match store(request)
    case Ok(task) => AddRun(request, AddedPrefix + task.content + " (Due: " + DueLabel(task.due) + ")")
    case Raised(message) => AddRun(request, AddErrorPrefix + message)
  }

  /**
   * The reply tells success from failure by its first character, and a
   * failure reply carries the store's message verbatim after its prefix.
   */
  lemma AddReplyReportsOutcome(description: string, dueDate: Option<string>, priority: int,
                               store: AddRequest -> StoreReply<Task>)
    ensures var r := AddTask(description, dueDate, priority, store);
      && (StartsWith(r.reply, Success) <==> store(r.request).Ok?)
      && (StartsWith(r.reply, Failure) <==> store(r.request).Raised?)
      && (store(r.request).Raised? ==> r.reply[|AddErrorPrefix|..] == store(r.request).message)
      && (store(r.request).Ok? ==> StartsWith(r.reply, AddedPrefix + store(r.request).value.content))
  {
    var r := AddTask(description, dueDate, priority, store);
    match store(r.request)
    case Ok(task) =>
      var prefix := AddedPrefix + task.content;
      assert r.reply == prefix + (" (Due: " + DueLabel(task.due) + ")");
      Prefixed(prefix, " (Due: " + DueLabel(task.due) + ")");
      assert r.reply[0] == Success[0];
    case Raised(message) =>
      Prefixed(AddErrorPrefix, message);
      assert r.reply[0] == Failure[0];
  }

  /** "Buy milk" due "today": the request carries the lower-case keyword, the reply what the store stored. */
  lemma AddTaskExample(store: AddRequest -> StoreReply<Task>, id: string, date: string)
    requires store(AddRequest("Buy milk", Some(Today), 1)) == Ok(Task(id, "Buy milk", 1, Some(Due(date, None))))
    ensures AddTask("Buy milk", Some("TODAY"), 1, store).request == AddRequest("Buy milk", Some(Today), 1)
    ensures AddTask("Buy milk", Some("TODAY"), 1, store).reply == AddedPrefix + "Buy milk (Due: " + date + ")"
  {
    assert Lower("TODAY") == Today;
  }

  // -------------------------------------------------------------- list_tasks

  /** `datetime.split('T')[1][:5]`: `None` where the split has no second piece and indexing raises. */
  function TimeOfDay(datetime: string): (r: Option<string>)
    ensures r.None? <==> 'T' !in datetime
  {
    if 'T' !in datetime then None else Some(Take(Split(datetime, 'T')[1], 5))
  }

  /** The time is cut from the piece between the first `T` and the next. */
  lemma TimeOfDayPiece(datetime: string)
    requires 'T' in datetime
    ensures TimeOfDay(datetime) == Some(Take(Split(datetime[IndexOf(datetime, 'T') + 1..], 'T')[0], 5))
  {
    SplitSecond(datetime, 'T');
  }

  /** At most five characters from the start of `s`, stopping early only at its end or at a `T`. */
  lemma TakeFirstPiece(s: string)
    ensures var t := Take(Split(s, 'T')[0], 5);
      && |t| <= 5 && 'T' !in t
      && |t| <= |s| && t == s[..|t|]
      && (|t| < 5 ==> |t| == |s| || s[|t|] == 'T')
  {
    var piece := Split(s, 'T')[0];
    SplitFirstIsPrefix(s, 'T');
    var t := Take(piece, 5);
    assert t == piece[..|t|];
    assert piece[..|t|] == s[..|t|];
    assert forall c | c in t :: c in piece;
  }

  /**
   * The time shown is at most five characters read right after the first `T`;
   * it stops short of five only at the end of the string or at the next `T`.
   */
  lemma TimeOfDayShape(datetime: string)
    requires 'T' in datetime
    ensures var t := TimeOfDay(datetime).value;
      var after := datetime[IndexOf(datetime, 'T') + 1..];
      && |t| <= 5 && 'T' !in t
      && |t| <= |after| && t == after[..|t|]
      && (|t| < 5 ==> |t| == |after| || after[|t|] == 'T')
  {
    TimeOfDayPiece(datetime);
    TakeFirstPiece(datetime[IndexOf(datetime, 'T') + 1..]);
  }

  /** For an ISO date-time `<date>T<time>`, the time shown is the first five characters of `<time>`. */
  lemma TimeOfDayIso(date: string, time: string)
    requires 'T' !in date && 'T' !in time
    ensures TimeOfDay(date + "T" + time) == Some(Take(time, 5))
  {
    var s := date + "T" + time;
    assert s[..|date|] == date;
    IndexOfIsFirst(s, 'T', |date|);
    assert s[|date| + 1..] == time;
    SplitSecond(s, 'T');
  }

  lemma TimeOfDayExample()
    ensures TimeOfDay("2025-12-25T14:30:00") == Some("14:30")
  {
    assert 'T' !in "2025-12-25" && 'T' !in "14:30:00";
    TimeOfDayIso("2025-12-25", "14:30:00");
    assert "2025-12-25" + "T" + "14:30:00" == "2025-12-25T14:30:00";
    assert "14:30:00"[..5] == "14:30";
  }

  /** Python's truth value of `task.due.datetime`: present and not empty. */
  predicate HasTime(d: Due) {
    d.datetime.Some? && d.datetime.value != ""
  }

  /**
   * The text `list_tasks` appends after a task's content: nothing without a due
   * date, else ` (Due: <date>)` with ` <time>` before the parenthesis for a
   * timed task; `None` where the time cannot be cut out and the call raises.
   */
  function DueSuffix(due: Option<Due>): Option<string> {
    match due
    case None => Some("")
    case Some(d) =>
      if !HasTime(d) then Some(" (Due: " + d.date + ")")
      else match TimeOfDay(d.datetime.value)
        case None => None
        case Some(time) => Some(" (Due: " + d.date + " " + time + ")")
  }

  /** Formatting fails exactly for a timed due date with no `T` in it. */
  lemma DueSuffixFails(due: Option<Due>)
    ensures DueSuffix(due).None? <==> due.Some? && HasTime(due.value) && 'T' !in due.value.datetime.value
  {
  }

  /** A line carries a due part exactly when its task has a due date, and the time only when one is set. */
  lemma DueSuffixShape(due: Option<Due>)
    requires DueSuffix(due).Some?
    ensures DueSuffix(due).value == "" <==> due.None?
    ensures due.Some? ==> StartsWith(DueSuffix(due).value, " (Due: " + due.value.date)
    ensures due.Some? ==> DueSuffix(due).value[|DueSuffix(due).value| - 1] == ')'
    ensures due.Some? && !HasTime(due.value) ==> DueSuffix(due).value == " (Due: " + due.value.date + ")"
    ensures due.Some? && HasTime(due.value) ==>
      DueSuffix(due).value == " (Due: " + due.value.date + " " + TimeOfDay(due.value.datetime.value).value + ")"
  {
    if due.Some? {
      var s := DueSuffix(due).value;
      var p := " (Due: " + due.value.date;
      assert s == p + s[|p|..];
    }
  }

  /** Every task of the fetch can be formatted, so the whole listing can. */
  predicate Listable(tasks: seq<Task>) {
    forall i | 0 <= i < |tasks| :: DueSuffix(tasks[i].due).Some?
  }

  /** Line `n` of the listing: `f"{n}. {task.content}{due_date}"`. */
  function TaskLine(n: nat, task: Task): string
    requires DueSuffix(task.due).Some?
  {
    DecimalString(n) + ". " + task.content + DueSuffix(task.due).value
  }

  /** The lines `list_tasks` joins: the header, then one line per task in fetch order. */
  function ListingParts(tasks: seq<Task>): seq<string>
    requires Listable(tasks)
  {
    [ListHeader] + seq(|tasks|, i requires 0 <= i < |tasks| => TaskLine(i + 1, tasks[i]))
  }

  /** What `list_tasks` answers for a successful fetch of `tasks`. */
  function Listing(tasks: seq<Task>): string {
    if |tasks| == 0 then NoTasksMessage
    else if !Listable(tasks) then ListErrorPrefix + IndexErrorMessage
    else Join(ListingParts(tasks), '\n')
  }

  /** What `list_tasks` answers, given what `get_tasks` did. */
  function ListReply(fetched: StoreReply<seq<Task>>): string {
    match fetched
    case Raised(message) => ListErrorPrefix + message
    case Ok(tasks) => Listing(tasks)
  }

  /** `list_tasks`: format the fetched tasks one line at a time. */
  method ListTasks(fetched: StoreReply<seq<Task>>) returns (reply: string)
    ensures reply == ListReply(fetched)
  {
    if fetched.Raised? {
      return ListErrorPrefix + fetched.message;
    }
    var tasks := fetched.value;
    if |tasks| == 0 {
      return NoTasksMessage;
    }
    var taskList: seq<string> := [];
    for i := 0 to |tasks|
      invariant |taskList| == i
      invariant forall k | 0 <= k < i :: DueSuffix(tasks[k].due).Some? && taskList[k] == TaskLine(k + 1, tasks[k])
    {
      var task := tasks[i];
      var dueDate := "";
      if task.due.Some? {
        var due := task.due.value;
        var time := "";
        if due.datetime.Some? && due.datetime.value != "" {
          var parts := Split(due.datetime.value, 'T');
          if |parts| < 2 {
            assert DueSuffix(tasks[i].due).None?;
            return ListErrorPrefix + IndexErrorMessage;
          }
          time := " " + Take(parts[1], 5);
        }
        dueDate := " (Due: " + due.date + time + ")";
      }
      taskList := taskList + [DecimalString(i + 1) + ". " + task.content + dueDate];
    }
    assert [ListHeader] + taskList == ListingParts(tasks);
    reply := Join([ListHeader] + taskList, '\n');
  }

  /** A task none of whose displayed fields holds a line break. */
  predicate SingleLine(task: Task) {
    && '\n' !in task.content
    && (task.due.Some? ==> '\n' !in task.due.value.date)
    && (task.due.Some? && task.due.value.datetime.Some? ==> '\n' !in task.due.value.datetime.value)
  }

  lemma DueSuffixSingleLine(task: Task)
    requires SingleLine(task) && DueSuffix(task.due).Some?
    ensures '\n' !in DueSuffix(task.due).value
  {
    if task.due.Some? && HasTime(task.due.value) {
      var dt := task.due.value.datetime.value;
      TimeOfDayShape(dt);
      var t := TimeOfDay(dt).value;
      var after := dt[IndexOf(dt, 'T') + 1..];
      assert forall c | c in t :: c in dt by {
        forall c | c in t ensures c in dt {
          var k :| 0 <= k < |t| && t[k] == c;
          assert after[k] == dt[IndexOf(dt, 'T') + 1 + k];
        }
      }
    }
  }

  lemma ListingPartsSingleLine(tasks: seq<Task>)
    requires Listable(tasks)
    requires forall i | 0 <= i < |tasks| :: SingleLine(tasks[i])
    ensures forall k | 0 <= k < |ListingParts(tasks)| :: '\n' !in ListingParts(tasks)[k]
  {
    var parts := ListingParts(tasks);
    forall k | 0 <= k < |parts| ensures '\n' !in parts[k] {
      if k > 0 {
        DueSuffixSingleLine(tasks[k - 1]);
        assert parts[k] == DecimalString(k) + ". " + tasks[k - 1].content + DueSuffix(tasks[k - 1].due).value;
      }
    }
  }

  /** Line i of the parts is the numbered line of the i-th task. */
  lemma ListingPartAt(tasks: seq<Task>, i: int)
    requires Listable(tasks) && 1 <= i <= |tasks|
    ensures |ListingParts(tasks)| == |tasks| + 1
    ensures ListingParts(tasks)[i] == TaskLine(i, tasks[i - 1])
    ensures StartsWith(ListingParts(tasks)[i], DecimalString(i) + ". " + tasks[i - 1].content)
  {
    var p := DecimalString(i) + ". " + tasks[i - 1].content;
    assert TaskLine(i, tasks[i - 1]) == p + DueSuffix(tasks[i - 1].due).value;
  }

  /** A listing of single-line tasks splits back into exactly its parts. */
  lemma ListingSplitsIntoParts(tasks: seq<Task>)
    requires |tasks| >= 1 && Listable(tasks)
    requires forall i | 0 <= i < |tasks| :: SingleLine(tasks[i])
    ensures Split(Listing(tasks), '\n') == ListingParts(tasks)
  {
    ListingPartsSingleLine(tasks);
    SplitJoin(ListingParts(tasks), '\n');
  }

  /**
   * For n >= 1 single-line tasks, the listing splits into n + 1 lines: the
   * header, then line i is "i. " and the i-th task's content, in fetch order.
   */
  lemma ListingLines(tasks: seq<Task>)
    requires |tasks| >= 1 && Listable(tasks)
    requires forall i | 0 <= i < |tasks| :: SingleLine(tasks[i])
    ensures |Split(Listing(tasks), '\n')| == |tasks| + 1
    ensures Split(Listing(tasks), '\n')[0] == ListHeader
    ensures forall i | 1 <= i <= |tasks| ::
      && Split(Listing(tasks), '\n')[i] == TaskLine(i, tasks[i - 1])
      && StartsWith(Split(Listing(tasks), '\n')[i], DecimalString(i) + ". " + tasks[i - 1].content)
  {
    ListingSplitsIntoParts(tasks);
    forall i | 1 <= i <= |tasks|
      ensures Split(Listing(tasks), '\n')[i] == TaskLine(i, tasks[i - 1])
      ensures StartsWith(Split(Listing(tasks), '\n')[i], DecimalString(i) + ". " + tasks[i - 1].content)
    {
      ListingPartAt(tasks, i);
    }
  }

  /** An empty fetch gets the fixed message, and a failed fetch the store's message. */
  lemma ListReplyEdgeCases(message: string)
    ensures ListReply(Ok([])) == NoTasksMessage
    ensures ListReply(Raised(message)) == ListErrorPrefix + message
  {
  }

  // ----------------------------------------------------------- complete_task

  /** The reply once `close_task` has been called for `task`. */
  function CloseReply(task: Task, closing: StoreReply<bool>): string {
    match closing
    case Ok(_) => CompletedPrefix + task.content
    case Raised(message) => CompleteErrorPrefix + message
  }

  /** `complete_task(task_id)` against a fresh fetch and a store whose `close_task` answers `close`. */
  function CompleteTask(position: int, fetched: StoreReply<seq<Task>>,
                        close: string -> StoreReply<bool>): (r: CompleteRun)
    ensures r.closed.Some? <==> fetched.Ok? && 1 <= position <= |fetched.value|
    ensures r.closed.Some? ==>
      && r.closed.value == fetched.value[position - 1].id
      && r.reply == CloseReply(fetched.value[position - 1], close(r.closed.value))
    ensures fetched.Ok? && r.closed.None? ==> r.reply == InvalidIdPrefix + DecimalString(|fetched.value|)
    ensures fetched.Raised? ==> r.reply == CompleteErrorPrefix + fetched.message
  {
    match fetched
    case Raised(message) => CompleteRun(None, CompleteErrorPrefix + message)
    case Ok(tasks) =>
      if 1 <= position <= |tasks| then
        var task := tasks[position - 1];
        CompleteRun(Some(task.id), CloseReply(task, close(task.id)))
      else CompleteRun(None, InvalidIdPrefix + DecimalString(|tasks|))
  }

  /** The reply starts with the success mark exactly when a close was requested and the store accepted it. */
  lemma CompleteReplyReportsOutcome(position: int, fetched: StoreReply<seq<Task>>, close: string -> StoreReply<bool>)
    ensures var r := CompleteTask(position, fetched, close);
      StartsWith(r.reply, Success) <==> r.closed.Some? && close(r.closed.value).Ok?
  {
    var r := CompleteTask(position, fetched, close);
    assert r.reply[0] == (if r.closed.Some? && close(r.closed.value).Ok? then Success[0] else Failure[0]);
  }

  /**
   * Within one fetch, completing position k closes the task the listing of
   * that fetch shows on line k, and the reply names its content.
   */
  lemma CompleteMatchesListing(tasks: seq<Task>, k: int, close: string -> StoreReply<bool>)
    requires 1 <= k <= |tasks| && Listable(tasks)
    requires forall i | 0 <= i < |tasks| :: SingleLine(tasks[i])
    ensures var r := CompleteTask(k, Ok(tasks), close);
      && r.closed == Some(tasks[k - 1].id)
      && |Split(Listing(tasks), '\n')| == |tasks| + 1
      && StartsWith(Split(Listing(tasks), '\n')[k], DecimalString(k) + ". " + tasks[k - 1].content)
      && (close(tasks[k - 1].id).Ok? ==> r.reply == CompletedPrefix + tasks[k - 1].content)
  {
    ListingLines(tasks);
  }

  /** On an empty fetch no position is valid, and the reply cites the range 1 to 0. */
  lemma CompleteOnEmptyFetch(position: int, close: string -> StoreReply<bool>)
    ensures CompleteTask(position, Ok([]), close) == CompleteRun(None, InvalidIdPrefix + "0")
  {
  }
}
