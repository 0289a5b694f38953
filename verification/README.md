# todoistAi: a Dafny model of the task tools and the chat loop

todoistAi is a command-line assistant. A language model reads each line the
user types and may call one of three tools against a Todoist account:

- `add_task` creates a task;
- `list_tasks` prints the active tasks as a numbered list;
- `complete_task` closes the task at a position in that list.

This project models the deterministic part of `main.py`:

- the due-date normaliser and the reply of `add_task`;
- the formatter of `list_tasks`;
- the range check and selection of `complete_task`;
- the read-eval-print loop of `main`.

It proves what each of them promises.

The Todoist store is a parameter. `add_task` talks to a function from the
request to the stored task or an exception message. `get_tasks` is a value:
a sequence of tasks or an exception message. `close_task` is a function from
a store id to an acknowledgement or an exception message. `complete_task`
records which id it asked the store to close, if any.

The language-model router is an opaque function. It maps the forwarded line
to an answer, an exception or a keyboard interrupt. What the terminal
delivers is a sequence of input events: a line, Ctrl-C, or an exception
raised by `input()`.

Files:

- `wrappers.dfy` holds `Option`.
- `text.dfy` holds the Python string operations used:
  - `str.strip()` is `Strip`, with the full `str.isspace` set of characters;
  - `str.lower()` is `Lower`;
  - `str(n)` is `DecimalString` and `int(s)` is `DecimalValue`;
  - `sep.join` is `Join`, `s.split(sep)` is `Split` and `s[:n]` is `Take`.
- `due_date.dfy` holds the normaliser `Normalize`. `ParseDate` computes the
  date `strptime` reads. `StrptimeAccepts` states separately which strings
  `strptime` accepts: there are two dashes at which the pieces match the
  three field patterns and form a calendar date. This models
  `datetime.strptime(s, '%d-%m-%Y')` exactly, for ASCII digits:
  - the day pattern is `3[01]|[12]\d|0[1-9]|[1-9]| [1-9]`;
  - the month pattern is `1[0-2]|0[1-9]|[1-9]`;
  - the year pattern is four digits;
  - the match must cover the whole string;
  - the proleptic Gregorian calendar then rejects day 29 February outside leap years, other days past the end of the month, and year 0.
- `tools.dfy` holds the three tools:
  - `AddTask` is `add_task`.
  - For `list_tasks`, `DueSuffix` is the due part of one line, `TimeOfDay` cuts the time out of it, and `ListReply` specifies the whole answer. `Listing` gives that answer for a successful fetch by joining `ListingParts`, the header and the numbered lines. The method `ListTasks` is the loop itself.
  - `CompleteTask` is `complete_task`, and `CloseReply` is its answer once a close has been requested.
- `session.dfy` holds the loop:
  - `Step` is one pass through its body for one input event;
  - `Ends` says which turns leave the loop;
  - the method `RunSession` is the loop itself.

Details of `main.py` that the model keeps:

- The time shown by `list_tasks` is cut from the piece between the first
  `T` and the next one: `split('T')[1][:5]`.
- A date-time without any `T` makes the whole listing fail with
  `❌ Error fetching tasks: list index out of range`.
- `strptime` accepts unpadded day and month (`5-1-2025`) and a day written
  as a space and one digit (` 5-01-2025`). All of these are forwarded
  unchanged.
- An empty `due_date` is treated like an absent one.
- The priority is forwarded unchecked.
- `list_tasks` joins each task's content, date and date-time as they are.
  A line break in any of them adds lines to the listing, and line k is
  then no longer task k's line. The claims about listing lines therefore
  hold for tasks whose fields contain no line break (`SingleLine`) and
  whose lines can all be formatted (`Listable`).
- At the end of input, `input()` raises `EOFError`. The generic handler
  catches it, reports it, and the loop goes on.

## Model

| member | source | states |
|---|---|---|
| DueDate.DaysInMonth | main.py:73 | every month has 28 to 31 days, and exactly February of a leap year has 29 |
| DueDate.DashFields | main.py:73 | when a string has two dashes, it is rebuilt from the three pieces around the first two, and the first two pieces hold no dash |
| DueDate.DashFieldsAt | main.py:73 | any split at two dashes with no dash before them is the one `DashFields` finds |
| DueDate.ReadDate | main.py:73 | matched field texts yield only dates that exist in the calendar |
| DueDate.ParseDate | main.py:73 | every date read is a real calendar date in years 1 to 9999 |
| DueDate.ParseDateSound | main.py:73 | whatever `ParseDate` reads is accepted by `strptime`'s pattern match and `date()` check |
| DueDate.ParseDateComplete | main.py:73 | whatever the pattern and the calendar accept, `ParseDate` reads as the same day, month and year |
| DueDate.ParseDateMatchesStrptime | main.py:73 | `ParseDate` succeeds exactly on the strings `strptime(s, '%d-%m-%Y')` accepts |
| DueDate.ParseFormattedDate | main.py:73 | every calendar date written as zero-padded `DD-MM-YYYY` reads back as itself |
| DueDate.ParseDateExample | main.py:73 | `25-12-2025` reads as 25 December 2025 |
| DueDate.ParseDateRejectsWords | main.py:73 | `not-a-date` is refused |
| DueDate.ParseDateUnpadded | main.py:73 | the unpadded `5-1-2025` is accepted as 5 January 2025 |
| DueDate.ParseDateSpacedDay | main.py:73 | ` 5-01-2025`, with a space before the day digit, is accepted |
| DueDate.ParseDateLeapDay | main.py:73 | 29 February 2024 exists |
| DueDate.ParseDateNoLeapDay | main.py:73 | 29 February 2025 is refused |
| DueDate.ParseDateDayOutOfRange | main.py:73 | 31 April is refused |
| DueDate.ParseDateYearZero | main.py:73 | year 0000 is refused |
| DueDate.Normalize | main.py:63-76 | a due string is produced only from a present, non-empty input, and it is either that input or its lower-case form |
| DueDate.DatesAreNotKeywords | main.py:66-74 | text that parses as a date never equals `today` or `tomorrow` in any letter case, so the order of the branches does not matter for dates |
| DueDate.NormalizeAbsent | main.py:64-65 | absent or empty input gives no due string |
| DueDate.NormalizeKeywords | main.py:66-69 | the result is the keyword `today` (or `tomorrow`) if and only if the input lowers to that keyword |
| DueDate.NormalizeKeywordExamples | main.py:66-69 | `TOMORROW` and `Today` give the lower-case keywords |
| DueDate.NormalizeOtherText | main.py:70-76 | any other non-empty text is forwarded unchanged when `strptime` accepts it and dropped otherwise; no input raises |
| DueDate.NormalizeKeepsDates | main.py:72-74 | any text `ParseDate` reads is forwarded byte for byte |
| DueDate.NormalizeForwardsDates | main.py:72-74 | every zero-padded calendar date is forwarded unchanged |
| Tools.AddTask | main.py:79-86 | the store receives the description and priority unchanged and the normalised due string; on success the reply is `✅ Task added: ` with the stored content and the stored due date or `No due date`; on an exception it is `❌ Error adding task: ` with the message |
| Tools.AddReplyReportsOutcome | main.py:84-86 | the reply starts with ✅ exactly when the store succeeded and with ❌ exactly when it raised; a failure reply carries the store's message verbatim after its prefix, and a success reply starts with the prefix and the stored content |
| Tools.AddTaskExample | main.py:64-84 | `add_task("Buy milk", "TODAY", 1)` sends the due string `today` and reports the date the store stored |
| Tools.TimeOfDay | main.py:98 | the time can be cut out exactly when the date-time contains a `T` |
| Tools.TimeOfDayPiece | main.py:98 | the time comes from the piece that follows the first `T` |
| Tools.TimeOfDayShape | main.py:98 | the time shown has at most five characters and no `T`, is read right after the first `T`, and is shorter than five only at the end of the string or at the next `T` |
| Tools.TimeOfDayIso | main.py:98 | for `<date>T<time>`, the time shown is the first five characters of `<time>` |
| Tools.TimeOfDayExample | main.py:98 | `2025-12-25T14:30:00` shows `14:30` |
| Tools.DueSuffixFails | main.py:98 | formatting a line raises exactly for a task whose due date has a non-empty date-time without `T` |
| Tools.DueSuffixShape | main.py:98 | a line gets a due part exactly when its task has a due date; that part starts with ` (Due: ` and the date and ends with `)`; with no time set it is exactly ` (Due: <date>)`, and with a time set it is ` (Due: <date> <time>)` for the time `TimeOfDay` cuts out |
| Tools.DueSuffixSingleLine | main.py:98 | the due part of a task whose fields hold no line break holds none either |
| Tools.ListTasks | main.py:91-103 | the loop that appends one line per task returns the reply `ListReply` specifies: the store's error message, the no-tasks message, the index error, or the header joined with line i for the i-th task |
| Tools.ListingPartsSingleLine | main.py:96-101 | the header and every numbered line are free of line breaks when the tasks are |
| Tools.ListingPartAt | main.py:99 | line i is `i. `, then the content of the i-th fetched task, then its due part |
| Tools.ListingSplitsIntoParts | main.py:101 | when every line can be formatted and no task's content, date or date-time contains a line break, splitting the listing at line breaks gives back exactly the header and the task lines |
| Tools.ListingLines | main.py:96-101 | for n ≥ 1 tasks whose lines can all be formatted and whose content, date and date-time contain no line break, the listing has n + 1 lines: the header `📋 Your tasks:`, then line i starts with `i. ` and the content of the i-th task, in fetch order |
| Tools.ListReplyEdgeCases | main.py:92-103 | an empty fetch gives `No tasks found in your Todoist account.`, and a failed fetch gives `❌ Error fetching tasks: ` with the message |
| Tools.CompleteTask | main.py:112-120 | a close is requested if and only if the fetch succeeded and 1 ≤ k ≤ the number of tasks; then it is the store id of task k − 1 and the reply names the task or the close error; otherwise the reply cites the range 1 to the count, or the fetch error |
| Tools.CompleteReplyReportsOutcome | main.py:116-120 | the reply starts with ✅ exactly when a close was requested and the store accepted it |
| Tools.CompleteMatchesListing | main.py:113-117 | within one fetch whose lines can all be formatted and whose tasks contain no line breaks, completing position k closes the task whose listing line k starts with `k. ` and its content, and the success reply names that content |
| Tools.CompleteOnEmptyFetch | main.py:114-118 | on an empty fetch nothing is closed and the reply says `between 1 and 0` |
| Text.Split | main.py:98 | `split` gives at least one piece, no piece holds the separator, there is one piece exactly when the separator is absent, and the first piece runs up to the first separator |
| Text.SplitJoin | main.py:101 | splitting a line-joined list of pieces without line breaks gives the pieces back |
| Text.JoinSplit | main.py:98 | joining the pieces of a split with the same separator gives the string back |
| Text.DecimalString | main.py:99 | `str(n)` is a non-empty run of digits with no leading zero unless n is 0 |
| Text.DecimalRoundTrip | main.py:99 | reading back `str(n)` gives n |
| Text.StripEnds | main.py:151 | the stripped line has no whitespace at either end |
| Text.StripIsSlice | main.py:151 | the stripped line is a contiguous piece of the input |
| Text.StripIdempotent | main.py:151 | stripping twice is stripping once |
| Text.StripEmptyIffBlank | main.py:151-158 | a line strips to empty exactly when every character is whitespace |
| Session.StepClassifiesLine | main.py:151-161 | a line ends the session exactly when its stripped, lower-cased form is `exit`, `quit` or `bye`; it is skipped exactly when it is all whitespace; otherwise the router gets the stripped line, which is non-blank, has no surrounding whitespace and is not an exit word |
| Session.ShoutedExit | main.py:151-153 | `EXIT` strips to itself and lowers to `exit` |
| Session.ExitAnyCase | main.py:153-155 | `EXIT` ends the session |
| Session.StepIgnoresSurroundingSpace | main.py:151 | whitespace around a line never changes how it is handled |
| Session.FailuresDoNotEnd | main.py:160-168 | an exception from `input()`, including `EOFError` at the end of input, or from the router on a line that is not an exit word, does not end the loop |
| Session.RunSession | main.py:149-168 | the loop's turns are the steps of the input events in order; no turn before the last ends the loop; it reports ending exactly when the last turn is an exit, Ctrl-C at the prompt, or Ctrl-C in the router; otherwise every event has been consumed |
| Session.ForwardedRequestsAreNonBlank | main.py:151-161 | only lines reach the router, always stripped, and never blank |

## Left out

- Loading `.env`, checking the API keys, and creating and testing the Todoist and Gemini clients (main.py:14-50) are configuration and network I/O, so they are not modelled.
- The LangChain agent (main.py:122-143) and its `invoke` (main.py:161) are an opaque router function. Which tool it calls, and with which arguments, is a language model's choice and is not modelled.
- Session.Step: the router is one fixed function of the forwarded line, so within a run the same line always gets the same outcome. The real agent may answer a repeated line differently. No proved property depends on repeated lines getting the same answer.
- The Todoist HTTP calls are parameters: a function for `add_task`, a value for `get_tasks`, and a function for `close_task`. `get_tasks` is taken to return a list of task records.
- Each tool call is modelled against a single fetch. Staleness between a `list_tasks` and a later `complete_task` is not modelled, because each call re-fetches independently (main.py:92, 113).
- The welcome banner and the `print` calls of the loop (main.py:146-147, 154, 162, 165, 168) are represented by `Turn` values. The printed text is not modelled.
- Text.Lower: lowers only ASCII letters. This decides equality with the all-ASCII keywords (`today`, `tomorrow`, `exit`, `quit`, `bye`) exactly as Python's `str.lower` does. Only two non-ASCII characters lower to text that contains an ASCII letter. The Kelvin sign lowers to `k`, and no keyword contains `k`. The dotted capital I lowers to `i` followed by a combining dot, and no keyword contains that dot. The full lower-case text of other strings is not modelled.
- DueDate.ParseDate: takes only ASCII digits. Python's `\d` and `int()` also accept other Unicode decimal digits, which are not modelled.
- test_gemini.py is a one-off network smoke test with no logic to model.
