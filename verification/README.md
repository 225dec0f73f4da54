# Verified models of etl-craft

This Dafny project models the parts of etl-craft whose correctness rests on whole runs rather than on single
functions, and proves what those parts are for. `dafny verify dfyconfig.toml` verifies everything.

- **Task graph** (`TaskGraphs`, `CycleCheck`, `GraphBuild`, `TaskOrder`, `Readiness`, `RunSafety`, `RunProgress`,
  `RunConfluence`, `RunOutcome`, `Confluence`, `ReportLimits`, `CycleList`): validation, waves, readiness and dead ends
  of a pipeline's dependency graph, and a pipeline run as steps over it. Task ids are natural numbers, codes are
  numbers in their sorting order.
- **Multipart uploads** (`Bytes`, `MultipartFormat`, `MultipartDecoder`, `MultipartSlicing`, `MultipartDecision`,
  `MultipartReceive`, `MultipartExactness`, `MultipartRoundTrip`): the streaming decoder of RFC 7578 bodies, as a class
  over its buffer, with the receipt's calls as a ghost log, against a one-shot reading of the whole body.
- **SQL text** (`SqlScanner`, `SqlGuards`, `SqlLocality`, `SqlSplit`, `SqlStatements`, `SqlOpeners`,
  `SqlSplitLoop`): the scanner for quotes, comments and dollar quotes, and the statement splitter. `isalpha` and `isalnum` are two predicates of which only that
  `isalnum` rejects `$` and `;` is assumed; `strip` removes Python's whitespace.
- **Schedules** (`Gregorian`, `CronFields`, `CronTicks`, `CronGaps`, `CronSearch`, `CronTerms`,
  `BusinessCalendars`, `TickLists`, `ScheduleTicks`, `CatchUp`, `Schedules`): cron fields, the
  day-by-day search for the next tick, business days, moved ticks, and the controller's catch-up. Dates are day numbers under the Gregorian leap rule; a time zone is a map from
  wall minutes to instants with gaps and overlaps, assumed monotone on the minutes that exist and never to go back a
  day (`CronTicks.ZoneFits`).
- **Agent leases** (`LeaseFence`, `AgentTasks`): one attempt's lease as a timed protocol of server, agent, child and
  watcher, in milliseconds, and the agent's own bookkeeping of its tasks.
- **Fan-out** (`FanOut`, `FanOutRun`): the bounded worker loop. The item store and the item function are functions of
  an item and its attempt number, the completion order is arbitrary.
- **Row protection** (`RowProtections`, `ProtectionHistory`): per-cell locks and writers over any history of calls.

Where the code and its text disagree, the model follows the code:

- `ready` documents an `ALWAYS` edge as met by SUCCESS, FAILED or SKIPPED; the code's terminal statuses include
  CANCELLED too, and so do the model's (`src/etl_craft/core/graph.py:223`, `src/etl_craft/core/enums.py:120-122`).
- `ready` documents only never-run and FAILED tasks as startable; the statuses that keep a task out are SUCCESS, SKIPPED
  and IN-PROGRESS, so CANCELLED and QUEUED tasks are let through, by `Readiness.IsReady` too
  (`src/etl_craft/core/graph.py:217-218`, `src/etl_craft/core/enums.py:128-129`).
- `unsatisfiable` promises the tasks that can never become ready. Everything it reports can never start
  (`RunSafety.UnsatisfiableNeverReady`), but it reports less than that (`ReportLimits.ContradictionNotReported`); it is
  exact once the upstreams have an outcome (`RunProgress.ReportedExactlyWhenNotReady`), CANCELLED ones included unless
  the task is stranded on them (`RunProgress.NeitherExactlyWhenStranded`).
- The header limit of 8192 bytes depends on how a body is sliced when a header block has 8190 to 8192 bytes.
  `MultipartExactness.SlicingDoesNotMatter` gives the exact condition.
- The cron search says that it covers the leap-day cycle. It does for a plain `*` in a day field, or no star in
  either; a starred step such as `*/7` in one day field beside a restricted other one can match nothing for longer
  (`CronSearch.StarredDayFieldsCanMiss`). `CronSearch.SearchFindsExactlyWhen` gives the exact condition, a check of one
  400-year cycle of days.
- The watcher is to fence a child before its server lease expires. This needs a bound on the time between a claim and
  its launch, which `_start` does not set: `LeaseFence.FenceHoldsExactlyWhen` says which bound is enough and that no
  weaker one is.

## Model

| member | source | states |
|---|---|---|
| `Confluence.RunsAreConfluent` | src/etl_craft/core/graph.py:140-262 | with each outcome and gate count fixed, every order of starting, refusing, finishing and skipping tasks that ends gives every task the status of the wave-by-wave evaluation, in at most two steps a task |
| `Confluence.StoppedRunsAreFinal` | src/etl_craft/core/graph.py:210-313 | with nothing cancelled, a run in which no step is possible any more is over and has the wave-by-wave result |
| `Confluence.RunsCanEnd` | src/etl_craft/core/graph.py:210-313 | every run so far can be carried on to an end |
| `RunConfluence.FinalIsVerdict` | src/etl_craft/core/graph.py:140-160 | evaluating wave by wave is a fixed point: each never-run task has the verdict its upstreams' final statuses give it |
| `RunProgress.NoDeadlock` | src/etl_craft/core/graph.py:210-313 | with nothing in progress or cancelled and failures final, once the reported tasks are recorded SKIPPED some never-run task is ready or none is left |
| `RunProgress.ReportedExactlyWhenNotReady` | src/etl_craft/core/graph.py:264-302 | once all upstreams of a never-run task have an outcome, it is reported unsatisfiable exactly when it is not ready |
| `RunProgress.LeastDoomedExists` | src/etl_craft/core/graph.py:276-290 | the search for unsatisfiable tasks has a least fixpoint to end in |
| `RunSafety.UnsatisfiableNeverReady` | src/etl_craft/core/graph.py:264-325 | a never-run task reported by `unsatisfiable` is never started and never in `ready`, in any state any sequence of starts, outcomes, skips and cancellations leads to |
| `RunProgress.NeitherExactlyWhenStranded` | src/etl_craft/core/graph.py:210-313 | once all upstreams of a never-run task are terminal, it is never both ready and reported, and it is neither if and only if too few dependencies are met but enough are met or sit unmet on CANCELLED upstreams |
| `RunProgress.StuckOnlyOnCancelled` | src/etl_craft/core/graph.py:210-313 | with nothing in progress and failures final, once the reported tasks are recorded SKIPPED, some never-run task is ready, none is left, or one is stranded on CANCELLED upstreams |
| `ReportLimits.ReportedExactlyWhenOneIsLost` | src/etl_craft/core/graph.py:264-302 | a never-run ALL task is reported if and only if one of its dependencies is lost for good, in the run or by the skips |
| `ReportLimits.ContradictionNeverReady` | src/etl_craft/core/graph.py:191-262 | an ALL task with a SUCCESS and a FAILURE edge on one upstream is never ready, in whatever state the run is |
| `ReportLimits.ContradictionNotReported` | src/etl_craft/core/graph.py:264-302 | a two-task graph with such a task on an upstream that has not run: it is not reported, so the report is not complete |
| `ReportLimits.CancelledUpstreamStrands` | src/etl_craft/core/graph.py:304-325 | a two-task graph whose one SUCCESS edge is on a CANCELLED upstream: the dependent is stranded, neither ready nor reported |
| `Readiness.Ready` | src/etl_craft/core/graph.py:210-262 | the sorted ids of exactly the tasks that have no status, or QUEUED, FAILED or CANCELLED, and enough met dependencies: under ALL each, under ANY one, under N its count; a SUCCESS one is met by a succeeded upstream, a FAILURE one by a failed one, an ALWAYS one by any ended one, a HAS_DATA one by one that succeeded with a positive row or target count; cross-pipeline ones not looked at count, but never carry a task past an unfinished upstream |
| `Readiness.Unsatisfiable` | src/etl_craft/core/graph.py:264-290 | the search ends, in the least set of never-run tasks closed under "too few dependencies are still possible once these are skipped", sorted; which dependencies are still possible is said by type and upstream status |
| `Readiness.DoomedMonotone` | src/etl_craft/core/graph.py:276-302 | skipping more tasks never makes a doomed task possible again |
| `CycleCheck.CheckAcyclic` | src/etl_craft/core/graph.py:393-427 | the search ends, and reports a cycle exactly when the edges have one; what it reports is a closed path of dependency edges whose other ids are distinct |
| `CycleCheck.NextUpstream` | src/etl_craft/core/graph.py:412-423 | a resumed frame closes a cycle at a gray upstream, descends into a white one, or has yielded only finished upstreams |
| `TaskGraphs.OrderedIsAcyclic` | src/etl_craft/core/graph.py:393-427 | a listing in which upstreams come first shows that there is no closed path |
| `GraphBuild.BuildGraph` | src/etl_craft/core/graph.py:328-363 | the rows are accepted exactly when ids differ, each edge is of a known type between two different tasks of the list, an N count is at least one and at most the dependencies, no other condition has a count, and no rows form a circle; a refusal names a fault that is really there |
| `GraphBuild.CheckRunCondition` | src/etl_craft/core/graph.py:366-390 | a run condition is accepted exactly when it and its count fit the number of dependencies |
| `TaskOrder.Waves` | src/etl_craft/core/graph.py:140-160 | the loop ends; wave n is exactly the sorted list of tasks whose longest upstream chain has n edges, and no wave is empty |
| `TaskOrder.WavesPlaceEachTask` | src/etl_craft/core/graph.py:140-160 | each task is listed once, in the wave numbered by its longest upstream chain |
| `TaskOrder.DepthIsEarliest` | src/etl_craft/core/graph.py:140-160 | no layering that puts every upstream in an earlier layer puts a task sooner, so the waves are as few as possible |
| `TaskOrder.DownstreamOf` | src/etl_craft/core/graph.py:126-138 | exactly the transitive closure of dependents; on an acyclic graph never the task itself |
| `CycleList.Cycles` | src/etl_craft/core/graph.py:430-452 | every list of distinct codes in which each waits by some edge on the next, the last on the first, and the first is smallest, exactly once, and nothing else |
| `CycleList.RotatedIsListed` | src/etl_craft/core/graph.py:441-446 | turning a closed path to start at its smallest code keeps it a simple cycle |
| `MultipartDecision.SlicingBounds` | src/etl_craft/api/uploads.py:47-144 | however a body is sliced, it is accepted only as the one-shot reading with the 8192-byte header limit accepts it, and whenever the one-shot reading with an 8189-byte limit does, with the same parts and bytes |
| `MultipartExactness.SlicingDoesNotMatter` | src/etl_craft/api/uploads.py:85-92 | every slicing gives the decision of the whole body if and only if that decision is a refusal or every accepted header block has at most 8189 bytes |
| `MultipartDecision.WholeIsOneShot` | src/etl_craft/api/uploads.py:47-144 | fed whole, a body is decided as the one-shot reading that cuts at the first marker followed by `--` or CRLF |
| `MultipartExactness.BytewiseIsSafeOneShot` | src/etl_craft/api/uploads.py:47-144 | fed byte by byte, a body is decided as the one-shot reading with header blocks of at most 8189 bytes |
| `MultipartExactness.PartsKept` | src/etl_craft/api/uploads.py:85-136 | no later byte changes a part already received, except by adding to the content of the one still open |
| `MultipartDecision.BufferStaysSmall` | src/etl_craft/api/uploads.py:73-136 | after each `feed` the buffer holds less than the opening line, at most 8192 header bytes, at most the marker plus two body bytes, or at most two bytes after the end |
| `MultipartRoundTrip.RoundTrip` | src/etl_craft/cli/client.py:75-91 | the client's boundary line, header, content and closing line, written out byte by byte and sliced anyhow, decode to exactly that content if and only if the content nowhere holds CRLF and the boundary line before `--`, CRLF or its own end |
| `MultipartRoundTrip.FilesRoundTrip` | src/etl_craft/api/uploads.py:47-144 | the same for any number of parts and any bytes behind the closing line: exactly the parts are accepted if and only if every content fits and at most one CRLF follows |
| `MultipartRoundTrip.LongHeaderIsRefused` | src/etl_craft/api/uploads.py:85-95 | a first header block of more than 8192 bytes is refused, however it arrives |
| `MultipartDecoder.MultipartFile.Feed` | src/etl_craft/api/uploads.py:47-71 | refuses a body over the maximum, else leaves the buffer drained, with the log of received parts extended by exactly what draining writes; the loop ends because every change shrinks the buffer |
| `MultipartDecoder.MultipartFile.InitialTurn` | src/etl_craft/api/uploads.py:73-83 | one turn on the opening boundary |
| `MultipartDecoder.MultipartFile.HeadersTurn` | src/etl_craft/api/uploads.py:85-112 | one turn on a header block: refused, begun as a part, or waiting for more |
| `MultipartDecoder.MultipartFile.BodyTurn` | src/etl_craft/api/uploads.py:114-136 | one turn on file content: writes what no delimiter can start in, or ends the part at a delimiter |
| `MultipartDecoder.MultipartFile.Finish` | src/etl_craft/api/uploads.py:138-144 | accepts only after the closing boundary with nothing but CRLF behind it |
| `MultipartDecoder.ScanFindsFirst` | src/etl_craft/api/uploads.py:114-136 | the body scan cuts at the first delimiter, and never writes ahead a byte in which a delimiter starts |
| `MultipartReceive.Receive` | src/etl_craft/api/uploads.py:147-161 | the verdict on a stream is the decision on its pieces of 1 to 16384 bytes, and the pieces make up the stream |
| `MultipartReceive.PiecesAreFull` | src/etl_craft/api/uploads.py:158-159 | every piece of a chunk but its last has 16384 bytes |
| `SqlLocality.CodeSemicolonSeparates` | src/etl_craft/core/text.py:227-270 | locality: the guarded stretches around a semicolon read as code are those of the two sides, each read alone |
| `SqlLocality.EndInSuffix` | src/etl_craft/core/text.py:227-262 | quotes, comments and dollar quotes end where they would if the text began later, unless the cut follows an E |
| `SqlLocality.EndInPrefix` | src/etl_craft/core/text.py:227-262 | what ends before a semicolon ends there too when the text stops at the semicolon |
| `SqlScanner.SqlParts` | src/etl_craft/core/text.py:227-270 | the loop yields the parts of the one-pass reading |
| `SqlScanner.PartsAreText` | src/etl_craft/core/text.py:227-270 | the parts are never empty and concatenate to the input |
| `SqlScanner.GuardedEnd` | src/etl_craft/core/text.py:234-261 | the inner loops end where the guarded text that opens there ends |
| `SqlOpeners.GuardOpens` | src/etl_craft/core/text.py:234-261 | guarded text opens exactly at a quote of the three kinds, at `--`, at `/*`, and at a dollar followed by a tag name and a dollar |
| `SqlOpeners.CutAtEverySemicolon` | src/etl_craft/core/text.py:284-297 | a text in which none of these stands is cut at every semicolon |
| `SqlOpeners.QuotedStaysWhole` | src/etl_craft/core/text.py:284-298 | between two quotes of one kind, without that quote and behind an E without backslash in between, semicolons are text: one statement |
| `SqlOpeners.EscapedQuoteStaysWhole` | src/etl_craft/core/text.py:312-327 | behind an E or e a quote after a backslash is text too |
| `SqlOpeners.LineCommentStaysWhole` | src/etl_craft/core/text.py:236-238 | semicolons between `--` and the end of the line are text |
| `SqlOpeners.BlockCommentStaysWhole` | src/etl_craft/core/text.py:239-250 | semicolons between `/*` and the next `*/` are text |
| `SqlOpeners.DollarQuoteStaysWhole` | src/etl_craft/core/text.py:253-264 | semicolons between a dollar-quote tag and its next occurrence are text: one statement |
| `SqlScanner.EndOfStringLiteral` | src/etl_craft/core/text.py:312-327 | quoted text ends after its closing quote, past doubled quotes and E-string escapes |
| `SqlGuards.LiteralEndsAtFirstClose` | src/etl_craft/core/text.py:312-327 | quoted text ends behind the first quote that is not escaped by an odd run of backslashes, is not followed by another, and has an even number of unescaped quotes before it; without one it runs to the end of the text |
| `SqlGuards.CommentEndsUnnested` | src/etl_craft/core/text.py:237-250 | a block comment ends behind the first mark at which the opening marks no longer outnumber the closing ones, every second mark of an overlapping chain such as `/*/` not counting; without one it runs to the end of the text |
| `SqlSplit.OnePassIsCutting` | src/etl_craft/core/text.py:284-297 | one pass over the whole text finds the statements that cutting at the first code semicolon and reading the rest alone finds |
| `SqlSplit.PiecesJoin` | src/etl_craft/core/text.py:284-297 | the raw pieces rejoined with `;` are the input |
| `SqlSplit.PiecesAreWhole` | src/etl_craft/core/text.py:284-297 | no piece, read alone, has a code semicolon left |
| `SqlSplitLoop.RawStatements` | src/etl_craft/core/text.py:286-297 | the loop over parts, splitting code parts at semicolons, gathers exactly those pieces |
| `SqlSplitLoop.SplitStatements` | src/etl_craft/core/text.py:284-298 | the returned statements are the stripped pieces that hold more than comments |
| `SqlSplitLoop.IsOnlyComments` | src/etl_craft/core/text.py:346-351 | true exactly when the text holds nothing but comments and whitespace |
| `SqlStatements.SplitAgain` | src/etl_craft/core/text.py:284-298 | splitting any returned statement returns that one statement |
| `SqlStatements.StripTrims` | src/etl_craft/core/text.py:298 | stripping cuts off exactly the whitespace at both ends |
| `SqlStatements.StrippedCodes` | src/etl_craft/core/text.py:298 | whitespace is what Python's `strip` removes, by code point |
| `SqlStatements.StripKeeps` | src/etl_craft/core/text.py:298 | stripping keeps a statement free of code semicolons and does not turn it into comments |
| `CronSearch.NextAfter` | src/etl_craft/core/cron.py:146-170 | the least tick strictly after the instant, or a failure exactly when no tick lies in the searched days; it never fails for a searchable expression |
| `CronSearch.SearchFindsExactlyWhen` | src/etl_craft/core/cron.py:160-170 | where clock changes stay clear of midnight, as in UTC, the search finds a tick after every instant if and only if, in one 400-year cycle of the calendar, each day is followed within the search by a day that the month and day fields select |
| `CronSearch.CloseMatchesAreFound` | src/etl_craft/core/cron.py:160-170 | in any zone the search never fails when that holds not counting the day right after |
| `CronSearch.SearchFinds` | src/etl_craft/core/cron.py:160-170 | an expression whose day field is `*`, or whose day fields both hold no star, has a tick within 366*8+1 days of any instant, 29 February across a plain century year included |
| `CronSearch.LeapSundaysAccepted` | src/etl_craft/core/cron.py:67-143 | `0 0 29 2 */7` meets the conditions of acceptance and selects midnight of 29 February on Sundays |
| `CronSearch.StarredDayFieldsCanMiss` | src/etl_craft/core/cron.py:160-170 | for that expression the search from 1 March 2004 in UTC fails, although 29 February 2032 is a tick still to come |
| `CronGaps.MatchesRepeat` | src/etl_craft/core/cron.py:173-177 | an expression selects a day exactly when it selects the day 146097 days later |
| `CronGaps.OneCycleDecides` | src/etl_craft/core/cron.py:160-177 | the check of one cycle of days decides for every day |
| `CronGaps.MatchAhead` | src/etl_craft/core/cron.py:160-177 | a searchable expression has a matching day between 2 and 2922 days after any day |
| `CronTerms.AcceptedIs` | src/etl_craft/core/cron.py:67-143 | accepted are exactly the expressions with positive steps, values in order and inside their fields, `*` beside a business-day rule, and, when both day fields must match, a named day of a named month that a leap year has |
| `CronTerms.TicksFromTerms` | src/etl_craft/core/cron.py:173-195 | in every zone the ticks of an accepted expression are exactly the instants at which its named minutes first show: minute, hour and month each named by a term, and the day by a day or a weekday term when neither field has a star, by both otherwise; a term names its start and every whole step from it up to its end |
| `CronTerms.UtcTicksFromTerms` | src/etl_craft/core/cron.py:173-195 | in UTC, minute by minute: a minute of a date is a tick exactly when the terms name it |
| `CronTerms.NextInUtc` | src/etl_craft/core/cron.py:146-170 | what the search answers in UTC is a named minute, and none is named between |
| `CronFields.PlainStarIsSearchable` | src/etl_craft/core/cron.py:134 | a plain `*` in one day field, or no star in either, makes the expression searchable |
| `CronFields.Parse` | src/etl_craft/core/cron.py:67-143 | accepts exactly the expressions whose terms are in range and, when both day fields must match, that some date meets; the fields come out sorted |
| `CronFields.ParseField` | src/etl_craft/core/cron.py:110-132 | accepts exactly the fields whose terms have a positive step and a range within bounds, and selects exactly the values some term covers |
| `CronTicks.DayTicks` | src/etl_craft/core/cron.py:180-195 | the day's instants, in order, each at its wall minute or the first valid one after a gap |
| `CronTicks.FirstValidMinute` | src/etl_craft/core/cron.py:189-193 | the loop over a gap stops at the first wall minute that exists |
| `CronTicks.LaterDaysAreAhead` | src/etl_craft/core/cron.py:146-170 | the ticks of a day two or more after an instant's own lie after the instant, given that no clock goes back by a day |
| `Gregorian.DateOfNumber` | src/etl_craft/core/cron.py:134-167 | numbering dates and reading them back is the identity, with the Gregorian leap rule |
| `ScheduleTicks.NextScheduleTick` | src/etl_craft/core/calendars.py:99-119 | the least tick strictly after the instant under the calendar and policy, on a day that has it, skipped for the reason of that day or not at all; it fails for want of a tick exactly when no searched day has one, and for want of dates exactly when a backward scan that the search comes to runs past the first date |
| `ScheduleTicks.RepeatedCallsListTicks` | src/etl_craft/core/calendars.py:99-119 | asking again and again lists every tick exactly once, in increasing order |
| `ScheduleTicks.NthBusinessDayOnce` | src/etl_craft/core/calendars.py:129-135 | an `nBD` rule selects exactly one day, the nth business day, of each of its months with at least n business days, and none of the others |
| `ScheduleTicks.MovedTicksAreDue` | src/etl_craft/core/calendars.py:136-147 | a closed matching day's ticks fall due on its next business day, not on the day itself and on no later day |
| `BusinessCalendars.DueDay` | src/etl_craft/core/calendars.py:121-147 | the day's ticks run, are skipped for a reason or do not exist, as the rule, the policy and the moved days say; no answer exactly when the backward scan runs past the first date |
| `BusinessCalendars.ScanBack` | src/etl_craft/core/calendars.py:140-147 | the backward scan marks an open day exactly when some closed matching day has it as its next business day, and runs out of dates exactly when no open day comes before it within the search |
| `BusinessCalendars.ClosedDays` | src/etl_craft/core/calendars.py:37-51 | closed are exactly the holidays and the days that come a weekend number of days after a Monday; a holiday is named as such even on a weekend day |
| `BusinessCalendars.WeekendIsCronWeekday` | src/etl_craft/core/calendars.py:46-50 | a weekend number closes exactly the days that the next cron weekday number selects |
| `BusinessCalendars.RuleSelects` | src/etl_craft/core/calendars.py:129-135 | an open day is selected exactly when its place among the month's business days is an ordinal of the rule, or it is the last and the rule says so |
| `BusinessCalendars.PositionIsOrdinal` | src/etl_craft/core/calendars.py:133-134 | a business day stands in its month's list right after the business days before it, and last exactly when none follows |
| `BusinessCalendars.NextBusinessDay` | src/etl_craft/core/calendars.py:54-60 | the first business day after a day, or none within the search and the calendar |
| `Schedules.Schedules.Refresh` | src/etl_craft/controller/schedules.py:32-95 | every scheduled pipeline that is not paused has a row for each tick between its cursor and now, whether its deadline was cached or not; no other row appears, no row changes, and only scheduled pipelines keep a deadline; it stops early only where a search for a next tick fails |
| `Schedules.Schedules.CatchUp` | src/etl_craft/controller/schedules.py:76-95 | records every tick after the cursor up to now exactly once: closed days skipped, the last `count` runnable ones queued, or skipped when the previous run is active, all others missed; the deadline left is the first tick after now |
| `Schedules.OutcomeByRank` | src/etl_craft/controller/schedules.py:75-95 | a recorded tick carries its closed day as reason, or that it was missed when as many runnable ticks are later as may catch up (one without catch-up), or that the last run is active when one is pending under SKIP, or is queued |
| `Schedules.CursorIsLatest` | src/etl_craft/engine/schedule_ticks.py:40-72 | the cursor is the latest of start or creation, resume and last tick |
| `Schedules.Schedules.Walk` | src/etl_craft/controller/schedules.py:76-82 | the ticks seen are all ticks between the cursor and now, and those waiting are the last `count` runnable ones |
| `Schedules.Schedules.CreateTick` | src/etl_craft/controller/schedules.py:98-119 | inserts a row unless the tick has one |
| `Schedules.CatchingUpTwice` | src/etl_craft/controller/schedules.py:98-119 | recording up to the same instant again, from the same cursor or a later one, changes no row |
| `CatchUp.LastAreLatest` | src/etl_craft/controller/schedules.py:80-82 | the ticks that still wait are exactly the runnable ones with fewer than `count` runnable ticks later |
| `CatchUp.WaitOneMore` | src/etl_craft/controller/schedules.py:80-82 | one more runnable tick pushes out exactly the oldest when `count` are waiting |
| `TickLists.RepeatedListsAll` | src/etl_craft/controller/schedules.py:76-83 | the answers of repeated next-tick calls are all ticks up to the last, once each |
| `LeaseFence.FenceHoldsExactlyWhen` | src/etl_craft/agent/loop.py:62 | over every interleaving of claims, renewals, lost or late replies, polls and crashes no child is alive once its server lease is over, if and only if it polls at least once per margin and is launched early enough that its first poll still falls within the lease |
| `LeaseFence.RunCovers` | src/etl_craft/agent/loop.py:395-432 | every run within both timing bounds keeps each published deadline a margin before the server's expiry |
| `LeaseFence.EnvironmentIsFree` | src/etl_craft/agent/loop.py:395-432 | the runs considered are all: requests may be lost, granted for 60 seconds or refused, replies may arrive late, the lease file may vanish and the agent die at any moment |
| `LeaseFence.PollEnds` | src/etl_craft/agent/child.py:43-53 | a poll ends the child exactly when its agent is gone, its file is gone or its deadline has come |
| `LeaseFence.LateLaunchOutlives` | src/etl_craft/agent/loop.py:299-358 | a launch that comes too late after its request lets the child outlive the lease; `_start` does not rule such a launch out |
| `LeaseFence.SlowPollOutlives` | src/etl_craft/agent/child.py:43-53 | polling less often than once per margin lets the child outlive the lease |
| `AgentTasks.Watch` | src/etl_craft/agent/child.py:43-53 | the watcher kills its group on the first poll that finds its lease over or unreadable, or its agent gone |
| `AgentTasks.RunningTask.Lease` | src/etl_craft/agent/loop.py:113-118 | the child is told exactly the deadline the agent goes by |
| `AgentTasks.AgentLoop.Start` | src/etl_craft/agent/loop.py:299-308 | a claimed task starts under a deadline counted from when its claim began, and publishes what delivering that claim's grant publishes in the lease protocol |
| `AgentTasks.AgentLoop.Renew` | src/etl_craft/agent/loop.py:403-437 | a renewal extends exactly the granted tasks still running, fences exactly the others, and cancels those to be cancelled or fenced |
| `AgentTasks.AgentLoop.FenceExpired` | src/etl_craft/agent/loop.py:394-398 | exactly the tasks past their deadline are fenced and told to stop |
| `AgentTasks.RenewalSteps` | src/etl_craft/agent/loop.py:403-437 | for each task a renewal is the protocol step that delivers its granted reply, or no step |
| `AgentTasks.FencedExactlyWhenPollEnds` | src/etl_craft/agent/loop.py:394-398 | the agent finds a deadline passed exactly when the child's next poll would end it |
| `AgentTasks.UnfencedIsHeld` | src/etl_craft/agent/loop.py:394-398 | in every run within the timing bounds a task whose deadline has not passed is the server's for at least the margin |
| `FanOutRun.Run` | src/etl_craft/fan_out.py:214-268 | in any completion order every item goes through exactly the events it would go through alone, at most `width` are in flight at any moment, the loop ends with `completed` equal to `goal`, and the result says whether any failure was permanent; each history is written out: a failure that is not permanent, with retries left, is followed by the next number's start or refusal, any other end by nothing, and the item's record is that of its last event |
| `FanOutRun.EveryItemInARun` | src/etl_craft/fan_out.py:214-268 | a kept item is never executed; any other at most `retries` + 1 times, under consecutive numbers, and never again after an end that is not a retryable failure |
| `FanOutRun.MemoryStaysAdmitted` | src/etl_craft/fan_out.py:54-64 | the workers of a run never need more memory than was admitted |
| `FanOut.Options` | src/etl_craft/fan_out.py:42-64 | a request is accepted exactly when its width, or one worker by default, is at most 256, has 64 MB a process or 2 MB a thread, and has a processor for each process; the default is the widest that fits up to 16 |
| `FanOut.PrepareWork` | src/etl_craft/fan_out.py:166-201 | the work list is the recorded items in order, then the new ones in order, each once, within the bound; a rerun of items queued with an error refuses new ones; succeeded and skipped items become SKIPPED, others stay as recorded, new ones are QUEUED; batches of 1000, the last perhaps shorter, make up the list |
| `FanOut.ChosenAre` | src/etl_craft/fan_out.py:141-143 | an attempt runs the marked items, or all when none is marked, each once |
| `FanOut.SoloIsProper` | src/etl_craft/fan_out.py:252-266 | alone, an item goes on after a failure exactly when it is not permanent and a retry is left, under the next number |
| `FanOut.SoloStarts` | src/etl_craft/fan_out.py:258-264 | alone, an item starts at most `retries` + 1 times under consecutive numbers |
| `FanOut.NothingAfterLastEnd` | src/etl_craft/fan_out.py:252-266 | only a failure that is not permanent is followed by anything |
| `ProtectionHistory.LockLostOnlyByRelease` | src/etl_craft/core/protection_state.py:87-167 | over any history, a locked cell that is no longer locked lost its lock at an `unlocked` call that names it or names no columns |
| `ProtectionHistory.WriterChangesWithValue` | src/etl_craft/core/protection_state.py:87-167 | over any history, a business cell whose writer differs had its value hash changed by some call |
| `ProtectionHistory.UntouchedStays` | src/etl_craft/core/protection_state.py:87-167 | a cell that no call of a history touches is as it was, or still absent |
| `ProtectionHistory.RevisionsOrderTouches` | src/etl_craft/core/protection_state.py:105-167 | the row's revision never decreases and bounds every cell's, and a cell that differs is newer than the row was |
| `ProtectionHistory.LockedExactlyWhen` | src/etl_craft/core/protection_state.py:107-165 | after one call a cell is locked exactly when it was and is not released, or a deliberate user's write locks it |
| `RowProtections.AfterChange` | src/etl_craft/core/protection_state.py:87-146 | a written cell with a new hash takes the asking actor as writer and keeps a lock or takes one from a user who does not insert; with its old hash it keeps writer and hash and is locked only by a user's upload; the row's own entry is locked by a user who inserts or asks; all else stays |
| `RowProtections.AfterUnlock` | src/etl_craft/core/protection_state.py:148-167 | exactly the locked cells named, or all, are released and touched, with writer and hash kept, and the revision rises only then |
| `RowProtections.NewHashesAre` | src/etl_craft/core/protection_state.py:105-125 | the returned columns are those whose hash is new |
| `RowProtections.RowProtection.Changed` | src/etl_craft/core/protection_state.py:87-146 | leaves exactly the written cells changed, and returns the columns whose hash was new, in order |
| `RowProtections.RowProtection.Unlocked` | src/etl_craft/core/protection_state.py:148-167 | releases exactly the locked cells named, or all when none is named, keeping their writers |

## Left out

- Database queries, sessions, HTTP transport, process launching and threads: steps of the models happen in any order
  the source allows, or are assumed as stated above.
- MIME parsing: whether a header block is one well-formed file field is a predicate of its bytes, and the boundary comes
  from a Content-Type header already read; a second file in one body is the receipt's to refuse.
- Graph errors carry which rule was broken, not their message texts; an unknown dependency type makes an edge unmet
  instead of raising, which no accepted graph can show.
- `sql_parts` with `placeholders=True`, token substitution and `as_subquery`.
- The text of a cron expression: fields arrive as terms, so macros, month and weekday names and number syntax are not
  modelled, nor `parse_weekend`. Seconds and microseconds are not either; every tick is on a whole minute.
- CronSearch.SearchFindsExactlyWhen: for a clock that changes across midnight only the one direction of
  `CronSearch.CloseMatchesAreFound` is stated.
- ScheduleTicks.NextScheduleTick: a local date outside years 1 to 9999 is not modelled; the source's conversion raises.
- ScheduleTicks.RepeatedCallsListTicks: two ticks of different days that a clock gap moves to one instant are one tick.
- `Schedule.first_run`: its jump to the last microsecond of a skipped day needs clock arithmetic inside a minute.
- Schedules.Schedules.Refresh: an interruption by `stop` is not modelled, nor are the reading of pipeline rows and the switch that turns schedules off.
- `cursor` in `engine/schedule_ticks.py`: the start date arrives as an instant, and malformed keys are not modelled.
- LeaseFence.FenceHoldsExactlyWhen: one attempt at a time, and one clock for server and agent; log uploads, END reports
  and the supervisor's own termination signals are only the step that ends a child.
- AgentTasks.RenewalSteps: for a budget of the server's full lease of 60 seconds, as renewals state it; a claim states
  what is left of the lease it was just granted.
- AgentTasks.AgentLoop.Start: the working directory, the environment and the launch itself.
- FanOutRun.Run: a store that raises ends the run in the source; the model has no such step. Progress text and result
  offsets are left out.
- FanOut.PrepareWork: whether a key is valid text is decided before, by code outside this model.
- `evaluate`, `finish` and `importable` in `fan_out.py`: their outcome is the ending the loop meets.
- RowProtections.RowProtection.Unlocked: returns the released columns as a set, not in insertion order.
- `RowProtection.load` and `encoded`: JSON text, and the merge contract that no call here changes.
- Configuration, credentials, redaction, sizing, documentation and release scripts: plumbing.
