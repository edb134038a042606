# Shift monitor and booking worker, modelled in Dafny

The system watches the weekly schedule of a shift-booking web application and
books shifts automatically. A monitor (monitor.py) polls the seven day
columns of the current week. For each day it extracts the AIN and CSE shift
cards and diffs them against the last stored snapshot. On every significant
change it writes a change log, overwrites a signal file with `trigger` and
POSTs to a booking worker. The worker (shift_booking.py) answers `POST
/trigger`. It logs in, finds today's column and clicks every AIN or CSE shift
in its Available section, accepting and confirming each popup.

The model covers these parts:

- `Week`: the week labels of `get_days_of_week`. A day is a proleptic
  Gregorian ordinal, and a label is a (weekday, day of month) pair.
- `Extract`: the role filter and join of `extract_ng_star_inserted_content`.
  It works over a parsed document given as a sequence of elements.
- `Strings`: `'\n'.join` and `str.splitlines`.
- `Diff`: `compare_html`, a unified diff of the extracted line lists, with the
  HTML parser as a parameter.
- `Cycle`: one iteration of the monitor's polling loop, as a function of the
  loop state and what the browser returned. It also gives an independent
  description of a cycle in terms of the baseline at its start.
- `Monitor`: the run bound `max_runs`, the loop state as a class
  (`MonitorLoop`) whose methods update it in place, and
  `monitor_available_section` itself.
- `Booking`: `check_and_click_shifts`, `handle_popup`, `confirm_job`,
  `check_and_book_shifts` and `RequestHandler.do_POST`. The browser is an
  input and clicks are recorded as actions.

The monitor's per-day dictionary is filled in label order and iterated in
insertion order. That order decides which day is posted first, and where a
refused POST stops the cycle. So a cycle's input pairs the seven labels
of the current week with a sequence of seven sections, in that order, rather
than an unordered map.

Inputs from the outside world are parameters: the login outcome, the current
date of each cycle, the retrieved sections, whether each day's trigger POST
would be answered, and the shifts and popups the worker finds. Everything the programs
write or send is recorded in an effect or action log.

In the code, `requests.post` is not inside any `try`, so a connection error
ends `monitor_available_section`. Each POST is a separate call, so within one
cycle some days' POSTs may be answered before one is refused. The model follows
the code: the cycle stops at the first refused POST (`crashed`), after every
qualifying day before it has been posted, and the run ends with
`TriggerUnreachable`.

## Model

| member | source | states |
|---|---|---|
| Week.Weekday | monitor.py:28 | the weekday index (Monday 0 … Sunday 6) is in 0..6 |
| Week.DayOfMonth | monitor.py:29 | the day of month of any date is in 1..31 |
| Week.StartOfWeek | monitor.py:28 | the week starts on a Sunday at most 6 days before today; it is today on a Sunday, otherwise `weekday+1` days back |
| Week.GetDaysOfWeek | monitor.py:25-30 | seven labels, the i-th being the label of the date i days after the week's Sunday, so it falls on weekday Sunday+i; today's label is among them, at position `(weekday+1) % 7` |
| Week.DaysOfWeekDistinct | monitor.py:29 | the seven labels are pairwise distinct, so the per-day dictionary has seven keys |
| Week.WeekIsStable | monitor.py:25-30 | every date of a week yields the same seven labels |
| Strings.Join | monitor.py:74 | joining no parts gives `""`, and joining one part gives that part |
| Strings.Lines | monitor.py:81-82 | `splitlines` gives no lines exactly for the empty text, and no line it gives contains a line boundary |
| Strings.LinesOfJoin | monitor.py:74-82 | splitting a `'\n'`-join of non-empty single-line parts gives the parts back |
| Extract.ExtractNgStarInsertedContent | monitor.py:67-74 | the loop that appends the retained elements and joins them computes the role-filtered, newline-joined markup |
| Extract.RetainedMarkupMembers | monitor.py:69-73 | a markup is retained iff some element has class `ng-star-inserted` and its role text is exactly `AIN` or `CSE` |
| Extract.RetainedMarkupDistributes | monitor.py:71-73 | filtering keeps document order: the result for a concatenation is the concatenation of the results |
| Extract.ExtractionIgnoresOtherElements | monitor.py:72 | inserting an element that is not an AIN/CSE event leaves the extracted content unchanged |
| Extract.ExtractedWithoutEvents | monitor.py:70-74 | a document without a role event, including the empty one, extracts to `""` |
| Extract.LinesOfExtracted | monitor.py:74-81 | the lines the diff sees are exactly the retained markups when those are single-line and non-empty |
| Diff.SpanOf | monitor.py:80-86 | the hunk covers the changed region plus at most three context lines per side, with equal trailing context |
| Diff.SpanAgrees | monitor.py:80-86 | outside the changed region the old and new line lists agree |
| Diff.UnifiedDiff | monitor.py:80-87 | the diff is empty iff the line lists are equal; otherwise it starts with the `---`/`+++` headers and has a hunk |
| Diff.CompareHtml | monitor.py:76-87 | `compare_html` is empty iff the extracted line lists are equal; a non-empty result starts with `--- old_event_container.html` and `+++ new_event_container.html` |
| Diff.OldSideOfBody | monitor.py:80-86 | the old side of a hunk body is its context and removed lines |
| Diff.NewSideOfBody | monitor.py:80-86 | the new side of a hunk body is its context and added lines |
| Diff.HunkIsPatch | monitor.py:80-86 | the hunk's old side is the old lines it covers, its new side the new ones, and applying it turns the old list into the new one |
| Diff.DiffFromNothing | monitor.py:80-86 | diffing from an empty list gives the headers, `@@ -0,0 +1,n @@` and every new line prefixed with `+` |
| Diff.CompareFromEmpty | monitor.py:117 | a day's first snapshot, compared with `''`, yields no diff if nothing is extracted, otherwise exactly the added lines |
| Cycle.Entries | monitor.py:47-62 | a retrieval yields seven entries, the i-th pairing the week's i-th label with its section (None when it was not found), in label order |
| Cycle.StepDay | monitor.py:116-132 | one day leaves the counter alone; it changes the state iff the loop has not crashed and the day qualifies; the loop crashes iff the day qualifies and its POST is refused; no other day's baseline moves; a triggering day is stored, so the same section is no longer fresh, and its log, signal write and POST are appended |
| Cycle.StepDays | monitor.py:115-134 | the per-day loop keeps the run counter, never forgets a baseline key, only appends effects, and changes nothing once crashed |
| Cycle.CycleStep | monitor.py:107-136 | a failed retrieval is skipped and not counted; a retrieved cycle counts once, even with every day missing, unless the POST raised |
| Cycle.Qualifying | monitor.py:116-118 | the triggering days of a cycle are those with a present, non-empty, changed section whose diff is non-empty |
| Cycle.CycleOutcome | monitor.py:115-132 | a cycle logs, stores, signals and POSTs the days that qualify against the baseline at its start, in order, up to and including the first whose POST is refused, which ends the loop |
| Cycle.FirstRefused | monitor.py:126 | every qualifying day before the position it gives had its POST answered, and the day at that position, if any, had its POST refused |
| Cycle.CycleReachable | monitor.py:115-132 | when every qualifying day's POST is answered, a cycle stores the section of exactly the qualifying days and logs, signals and POSTs once for each, in order |
| Cycle.PostsOfAnnounce | monitor.py:118-126 | each qualifying day issues exactly one POST |
| Cycle.CyclePosts | monitor.py:115-132 | a cycle sends one POST per qualifying day up to and including the first refused one; the loop ends iff some qualifying day's POST is refused; the baseline moves for exactly the days posted |
| Cycle.RebaseOutside | monitor.py:121 | a day's baseline moves only when that day's section is stored |
| Cycle.NothingQualifiesTwice | monitor.py:116-121 | after a cycle, no day of the same retrieval qualifies again |
| Cycle.RepeatedSnapshotIsQuiet | monitor.py:116-121 | the same retrieval seen twice in a row triggers nothing the second time; the second cycle only counts |
| Monitor.FloorDiv | monitor.py:98 | Python's `//`: the quotient rounded toward negative infinity, for either sign of divisor |
| Monitor.MaxRuns | monitor.py:98 | `max_runs` is undefined (ZeroDivisionError) for a zero interval, is the floor of `mins*60/interval` for either sign of the interval, and is 200 for the defaults 3 and 10 |
| Monitor.QualifiesOnlyOnChange | monitor.py:116-118 | a day triggers only if its extracted lines differ from its baseline's |
| Monitor.RunSpec | monitor.py:107-137 | the run counter never decreases and never passes `max_runs`; effects are only appended |
| Monitor.RunCounts | monitor.py:103-136 | with every POST answered, the run counter ends at `min(max_runs, retrieved cycles)` and the loop never crashes |
| Monitor.MonitorLoop.constructor | monitor.py:103-104 | the loop starts with `run_count = 0`, an empty baseline and nothing written |
| Monitor.MonitorLoop.VisitDays | monitor.py:115-134 | the in-place per-day loop leaves the state the per-day specification gives |
| Monitor.MonitorLoop.Poll | monitor.py:108-136 | one in-place loop iteration leaves the state the cycle specification gives |
| Monitor.MonitorLoop.Run | monitor.py:107-137 | the in-place `while run_count < max_runs` loop leaves the state the run specification gives |
| Monitor.MonitorAvailableSection | monitor.py:97-143 | a zero interval raises before login; a failed login returns with nothing polled, stored, written or sent; a negative interval raises at the first sleep; otherwise the loop runs and its state is the run specification's, and the ending tells which exit was taken |
| Booking.ConfirmJob | shift_booking.py:31-37 | confirming clicks Confirm exactly when the button is there and clicking it succeeds, and otherwise does nothing |
| Booking.HandlePopup | shift_booking.py:16-29 | the popup actions are a prefix of enter name, accept, confirm; the name is entered iff the panel, field and button are found and typing succeeds; Accept is clicked iff in addition its click succeeds; Confirm iff it succeeds as well |
| Booking.MatchingIndices | shift_booking.py:57-62 | the filtered shifts are exactly those whose role text is `AIN` or `CSE`, in page order |
| Booking.FilterShifts | shift_booking.py:57-62 | the filtering loop fails iff some shift lacks a role element, and otherwise yields exactly the matching shifts |
| Booking.ClickEach | shift_booking.py:70-73 | the clicking loop clicks each filtered shift, each followed by its popup |
| Booking.CheckAndClickShifts | shift_booking.py:39-80 | the method's result and actions are those of the click specification |
| Booking.ClickAllClicks | shift_booking.py:70-73 | the shifts clicked are the selected ones, each once, in order |
| Booking.BookedIffBookable | shift_booking.py:51-75 | True is returned iff the section exists, has shifts, all have a role element and one is AIN or CSE |
| Booking.BookedClicksMatching | shift_booking.py:70-75 | when True is returned, exactly the matching shifts were clicked, in order |
| Booking.UnbookedClicksNothing | shift_booking.py:51-80 | when False is returned, nothing was clicked and one debug capture was saved: `no_ain_cse_shifts_found` exactly when there are shifts, all with a role element, and none matches, otherwise `no_shifts_found` |
| Booking.PopupsDoNotMatter | shift_booking.py:16-37 | popup or confirm failures never change the result or which shifts are clicked |
| Booking.CheckAndBookShifts | shift_booking.py:82-92 | booking runs only after a successful login and a found column, and ignores the click result |
| Booking.BookingGated | shift_booking.py:89-92 | a shift is clicked only if login succeeded and today's column was found |
| Booking.DoPost | shift_booking.py:99-107 | `/trigger` runs the booking and answers 200 `Shift booking triggered` whatever the outcome; any other path answers 404 and books nothing |

## Left out

- Browser automation is not modelled: login, `get_all_sections_html`, `find_today_column`, the element lookups, `driver.refresh`. Their results are inputs: the login outcome, the retrieved sections, today's column and the shifts.
- `get_specific_section_html` is not modelled: nothing in the two programs calls it.
- HTML parsing and `str(element)` are not modelled. The parser is a function parameter, and each element carries its serialised markup.
- Diff.UnifiedDiff: it emits one hunk from the common prefix to the common suffix. `difflib` matches lines by longest matching blocks and splits changes that are more than six equal lines apart into several hunks. Only emptiness, the header lines and the from-empty output are stated as `difflib` gives them.
- `strftime('%a %-d')` is not modelled. Labels are (weekday, day of month) pairs. So is the XPath `contains(text(), day)` match, which can also find a longer day number such as `Sun 12` for `Sun 1`; it belongs to the browser side.
- `datetime.now()` is not modelled. Each cycle's date is an input.
- Files and logging are recorded as effects, not performed: the change-log files and their timestamped names, the signal file, `app.log` re-read and printed, and the log messages. A `ChangeLog` effect is a write, not a distinct file: `log_changes` names its file by the second and opens it with mode `'w'`, so days that change within the same second overwrite one file and only the last diff survives on disk.
- `time.sleep`, `asyncio`, the HTTP server loop and the port are left out, because the steps are sequential.
- The trigger POST's response status is not modelled, because it is only logged. The model keeps only whether the POST raises.
- The Faker first name is not modelled. `EnterName` records that a name was typed, but not which one.
- Exceptions outside the caught ones are not modelled: a failing `shift.click`, errors escaping `check_and_book_shifts` (which would leave `do_POST` without a response), and errors in `get_webdriver`.
- Monitor.MonitorLoop.Run consumes a finite sequence of cycle inputs and stops when they run out (`OutOfObservations`). The program would keep polling forever if every retrieval failed.
- shared_utils.py is not part of this model beyond the inputs above.
