# Mouse: index, scheduler and message pipeline

Mouse is an agent runtime: Telegram messages and cron jobs go to an LLM, everything said is recorded in Markdown files and mirrored in SQLite, and an indexer makes the Markdown files searchable. This project models the three stateful parts of it and proves what they are relied on for.

**The indexer.** `indextable.dfy` is the `index_entries` table, `indexer.dfy` the sequential scan over it, `search.dfy` the ranking, with `text.dfy`, `tokenizer.dfy` and `similarity.dfy` below them. A scan is compared with a full rebuild, and a search with ranking freshly tokenized files. `scanruns.dfy` is the concurrent form: any number of scans, whose reads and SQL statements interleave with each other and with changes to the files, as a step system with invariants over all runs. `recency.dfy` has the time stamps, and asks whether their text order is time order.

**The scheduler.** `calendar.dfy` has instants (nanoseconds since 0001-01-01 UTC) and the proleptic Gregorian calendar, `schedule.dfy` the parser, the daily slots and the next one, `firing.dfy` one job over any sequence of clock readings, `scheduler.dfy` the class that loads and ticks all of them.

**The pipeline.** `sessions.dfy` is the Markdown store. `pipeline.dfy` is the step system in which webhook tasks and cron tasks interleave and any step may fail; `conservation.dfy`, `balance.dfy` and `delivery.dfy` are the laws of all its runs. `orchestrator.dfy` and `sender.dfy` are the code of one task, and `refinement.dfy` proves that it and the step system agree: every way the code can handle a task is a path of the step system with the same stores, reply and posts, and every way a task that no other disturbs ends in the step system is one the code can handle it; `records.dfy` says word for word what a message and a job leave behind, and `sequential.dfy` has tasks one after the other. `endtoend.dfy` goes from an appended message to the search that finds it.

How the model reads the source:

- Text is a sequence of characters. Lower-casing is fixed on ASCII and on white space, and an arbitrary table (`unicodeLower`) everywhere else.
- `hashContent` is an arbitrary function into strings of 64 characters. No such function is injective, so nothing assumes that it is: where a collision matters, the result says that it holds if and only if there is none.
- Scores are exact rationals. Sorting is any sort by decreasing score, and rows with equal stamps come in any order.
- File operations, SQL statements, LLM calls and HTTP requests are single steps that wholly succeed or wholly fail. In the classes a ghost counter `faults` counts the failures, so that a method's failure has to be accounted for: it fails if and only if an operation did, or the input is one that the code refuses.
- In `scanruns.dfy` a walk must report the files that exist all through it, may report those that exist for part of it, and may come to a file that is gone, which ends the scan.
- `scanruns.dfy` presupposes at least one configured path entry. With none, `ScanOnce` returns success without scanning, and nothing said there about successful scans applies; `Indexer.Indexer.ScanOnce` covers that case.
- The clock that stamps index rows and session entries reads years 0 to 9999, which is what a stamp has room for.
- The clock of a tick is a parameter and may go backwards. Load time and the ticks that follow it are taken from year 1 on where firing is counted, because the zero time stands for "never" (`Firing.WhenNextIsZero` and `Firing.ZeroTimeNeverFires` say what happens otherwise).
- A reading is taken once per tick, before any job runs, so the time that jobs take loses no slot: it is part of the gap to the next reading.

Where the code is followed and not what one might expect of it:

- `docs/SECURITY.md` calls SQLite a mirror of the Markdown files. It is one up to the law `Conservation.MirrorIsConserved`: a file and its mirror that agreed at first agree exactly when no task owes the file a line (`Conservation.EqualUnlessOwed`). A failed SQLite append leaves such a debt, and so does a blank session, which is filed under `unknown` and refused by SQLite (`Conservation.BlankSessionIsOwed`).
- Overlapping scans can move a row back to an earlier content of its file, exactly when one of them may still store an older version than the row shows (`ScanRuns.RowsMoveBackOnlyByOverwriting`; `ScanRuns.OverlappingScansMoveARowBack` is such a run). The row stays sound, and the next scan of resting files repairs it.
- A `*` in a minute or hour field means 0, and fields after the second are not read.
- Rows of one second can be listed in the wrong order: a stamp without a fraction sorts after every other of its second (`Recency.WholeSecondsAreMisordered`).
- A row with a blank path makes every removal fail, because no statement deletes it (`Indexer.Indexer.ScanOnce`).
- A list of watched paths that holds only blank entries deletes every row; an empty list deletes none.
- Sanitizing a file name can change it when the 64-character cut leaves a dash at its end.

## Model

| member | source | states |
|---|---|---|
| Text.TrimIsMiddle | internal/sessions/store.go:57-80 | Trimming yields the middle stretch of a text: everything before and after it is trimmed characters, and neither of its ends is one. |
| Text.BlankIsTrimmedToNothing | internal/sessions/store.go:23-28 | The emptiness test after trimming holds exactly of texts that are all white space. |
| Text.AsciiTrim | internal/sessions/store.go:23-57 | In ASCII text exactly space, tab, line feed, vertical tab, form feed and carriage return are trimmed, at both ends. |
| Text.LoweredAscii | internal/indexer/indexer.go:187 | An ASCII text is lowered to the one text without capitals that differs from it only where a capital letter has become the small one. |
| Text.RunsAreTheMaximalRuns | internal/indexer/indexer.go:186-206 | The one-pass split yields exactly the maximal runs of wanted characters, all of them, from left to right. |
| Text.RunsOfConcatenation | internal/indexer/indexer.go:186-206 | Splitting distributes over any non-empty separator without wanted characters. |
| Text.RunsOfJoin | internal/indexer/indexer.go:120-154 | Splitting undoes joining with such a separator. |
| Tokenizer.Tokenize | internal/indexer/indexer.go:186-206 | The builder-and-flush loop computes the token list that the lemmas below characterise, for every text. |
| Tokenizer.UniqueTokens | internal/indexer/indexer.go:208-222 | The loop with a seen-set computes the specified list of first appearances. |
| Tokenizer.UniqueKeepsEachWordOnce | internal/indexer/indexer.go:208-222 | No word is lost, none is listed twice, the empty word is dropped. |
| Tokenizer.UniqueKeepsFirstAppearanceOrder | internal/indexer/indexer.go:208-222 | Words come out in the order of their first appearances. |
| Tokenizer.TokensAreDistinctWords | internal/indexer/indexer.go:186-222 | Tokens are non-empty words over [a-z0-9], each listed once. |
| Tokenizer.TokensAreTheMaximalRuns | internal/indexer/indexer.go:186-206 | A word is a token if and only if it is a maximal [a-z0-9] run of the lowered text, for every text and lower-case table. |
| Tokenizer.TokensOfAscii | internal/indexer/indexer.go:186-206 | A word is a token of an ASCII text if and only if it stands, as far as letters and digits reach on both sides, in that text with its capitals made small. |
| Tokenizer.TokensIgnoreCapitals | internal/indexer/indexer.go:187 | Making any ASCII capitals of any text small changes no token and no order. |
| Tokenizer.TokensOfConcatenation | internal/indexer/indexer.go:186-222 | Tokenizing a text made of two parts and a separator gives the distinct tokens of the parts, in order. |
| Tokenizer.ColumnRoundTrip | internal/indexer/indexer.go:120-154 | Splitting the stored token column, or tokenizing it again, gives the tokens of the content back. |
| Similarity.Compare | internal/indexer/indexer.go:224-245 | The counting loop returns intersection over union of the two token sets when the entry's tokens are distinct, and what it counts for any lists. |
| Similarity.CountingIsJaccard | internal/indexer/indexer.go:228-244 | Counting positions equals the set definition on lists without duplicates. |
| Similarity.JaccardMeasuresOverlap | internal/indexer/indexer.go:224-245 | The score lies in [0,1], is symmetric, is positive exactly when the sets meet, and 1 exactly when they are equal and not empty. |
| IndexTable.Table.UpsertIndexEntry | internal/sqlite/sqlite.go:265-284 | Exactly the row of that path is written, stamped with the clock's reading; it fails only for a blank path or a failed statement, and then nothing changes. |
| IndexTable.Table.GetIndexHash | internal/sqlite/sqlite.go:286-302 | The stored hash, or the empty text when there is no row. |
| IndexTable.Table.ListIndexEntries | internal/sqlite/sqlite.go:304-332 | Distinct rows, latest stamp first, no row left out that was written later than one listed, as many as the limit (200 by default) allows. |
| IndexTable.Table.ListIndexPaths | internal/sqlite/sqlite.go:334-356 | The paths of all rows. |
| IndexTable.Table.DeleteIndexEntry | internal/sqlite/sqlite.go:358-369 | Exactly that row is removed, or nothing on failure. |
| IndexTable.ShortListingIsComplete | internal/sqlite/sqlite.go:304-314 | When there are no more rows than the limit, every row is listed. |
| IndexTable.ListingIsNewestFirst | internal/sqlite/sqlite.go:312 | Of two rows written at different times, both listed, the later one comes first if and only if their times are not misordered, which is a condition on the two numbers of nanoseconds; a row left out is later than a listed one only if they are. |
| Indexer.Indexer.IndexFile | internal/indexer/indexer.go:140-163 | A row whose hash is current is left alone to its stamp, any other is rewritten from the file; no other row changes; failure exactly when the file cannot be read, its path is blank, or a statement failed. |
| Indexer.Indexer.RemoveMissing | internal/indexer/indexer.go:165-184 | Removes exactly the rows that were not seen; it goes through if and only if no statement fails and none of them has a blank path; a failure part-way has removed only such rows. |
| Indexer.Indexer.Walk | internal/indexer/indexer.go:83-98 | One root's walk refreshes the rows of its Markdown files and nothing else, and goes through exactly when no callback fails; which files those are is `Indexer.WatchedByName`. |
| Indexer.Indexer.ScanOnce | internal/indexer/indexer.go:69-101 | After success the table holds exactly the watched files, each row refreshed; with paths configured, success if and only if no statement fails, every walk is clean and no row has a blank path; a failed walk deletes no row; a failed removal leaves all watched rows refreshed; an empty path list does nothing. |
| Indexer.WatchedByName | internal/indexer/indexer.go:78-94 | Where names are ASCII, a path is watched if and only if walking some root, blank ones aside, reports a file with it that is no directory and whose name ends in a dot and the letters m and d, small or capital. |
| Indexer.RowsAreMarkdownFiles | internal/indexer/indexer.go:83-100 | So after a successful scan a path has a row if and only if such a file is reported. |
| Indexer.ScanRefinesRebuild | internal/indexer/indexer.go:69-184 | From any sound table, for any overlapping or repeated roots, a scan leaves what a full rebuild would if and only if no stored content shares its hash with a different current content; soundness is kept either way. |
| Indexer.ScanOfEmptyTableRebuilds | internal/indexer/indexer.go:145-156 | From an empty table it always does: "no row" is never taken for a current hash. |
| Indexer.SecondScanChangesNothing | internal/indexer/indexer.go:150-152 | A second scan of the same files changes no row, not even a stamp. |
| Search.SortByScore | internal/indexer/indexer.go:131-133 | Any sort by decreasing score: an ordered permutation. |
| Search.SearchRows | internal/indexer/indexer.go:103-138 | The results are the best min(limit or 5, number of candidates) distinct candidates among the listed rows, best first, with none left out that scores above one returned; failure exactly when the listing failed; no statement is made for a query without tokens. |
| Search.RelevanceIsJaccardOfContent | internal/indexer/indexer.go:120-121 | On a sound row the stored tokens score as freshly tokenized content does, and the row is a candidate exactly when it shares a token with the query. |
| Search.RelevanceIgnoresCapitals | internal/indexer/indexer.go:107-121 | Queries that differ only in ASCII capitals score every row alike. |
| Search.IndexingIgnoresCapitals | internal/indexer/indexer.go:153-154 | Contents that differ only in ASCII capitals are stored with the same tokens. |
| Search.SearchRanksTheFiles | internal/indexer/indexer.go:103-138 | With at most 200 rows that agree with the files, the candidates are those found by tokenizing all files afresh. |
| Search.SharedTokenIsFound | internal/indexer/indexer.go:119-136 | A listed row sharing a token with the query is returned when the limit admits every candidate. |
| ScanRuns.StepKeepsConsistent | internal/indexer/indexer.go:140-184 | Every step of every scan, and every change to a file, keeps rows and reads under way consistent with the files' histories. |
| ScanRuns.WalksMeetChanges | internal/indexer/indexer.go:83-98 | A walk under way may meet a file that appears, and reads what it then holds; need not see one that is removed; may fail at any time, leaving the rows as they are. |
| ScanRuns.RowsHoldPastContents | internal/indexer/indexer.go:140-184 | In every state of every interleaving, each row is exactly what indexing some content that its file really had would store. |
| ScanRuns.StepKeepsAtLeastVersion | internal/indexer/indexer.go:140-163 | If a row is absent or at some version or later, and no scan may store an older one, every step keeps that so. |
| ScanRuns.RowsMoveBackOnlyByOverwriting | internal/indexer/indexer.go:140-163 | From any state in which a row is made from a version that its file had, some run makes it from an earlier version if and only if a scan holds an earlier version that it may still store: it has read it and not looked the row up, or found another hash there. |
| ScanRuns.SoloRowsNeverMoveBack | internal/indexer/indexer.go:140-163 | So, when no scans overlap before some state, no row that stands there moves back later, even if scans overlap then. |
| ScanRuns.OverlappingScansMoveARowBack | internal/indexer/indexer.go:50-66 | From an empty index overlapping scans reach such a state, for any two contents: a slower scan overwrites the newer row with the older content. |
| ScanRuns.StepKeepsQuiet | internal/indexer/indexer.go:140-184 | While the files rest, each step keeps every scan that began since on track, and no row once clean becomes unclean. |
| ScanRuns.SuccessfulScanRefreshes | internal/indexer/indexer.go:69-101 | Whatever scans run beside it, a scan that succeeds while files rest has the effect of a sequential one: a row for each file and no other, left as it was if its hash was current, else made from the file. |
| ScanRuns.ScansConverge | internal/indexer/indexer.go:69-101 | Once files rest and earlier scans are over, after any successful scan the index equals a full rebuild, for good, whatever other scans do; if and only if it held no hash collision when the files came to rest. |
| ScanRuns.OneScanRestoresTheIndex | internal/indexer/handler.go:79-88 | From every consistent state at rest, one scan left to itself can finish, and restores the index on the same condition. |
| Calendar.DateRoundTrip | internal/cron/cron.go:221-222 | Splitting a day count into year, month and day gives a valid date that composes back to it, for every day, past or future. |
| Calendar.DayNumberRoundTrip | internal/cron/cron.go:221-222 | Composing and splitting is the identity on valid dates, leap days and year ends included. |
| Calendar.DayNumberOrder | internal/cron/cron.go:222-223 | Day counts are ordered as dates are. |
| Calendar.InstantRoundTrip | internal/cron/cron.go:222 | An instant is recomposed from its date and clock fields. |
| Calendar.UnixEpoch | internal/cron/cron.go:222 | The first of January 1970 lies 719162 days and 62135596800 seconds after the zero time. |
| Schedule.EveryTimeOfDayParses | internal/cron/cron.go:191-219 | Every minute and hour, written in decimal and followed by any fields, parses to itself; two stars parse to midnight. |
| Schedule.ParsesExactly | internal/cron/cron.go:191-219 | An expression parses to a minute and an hour if and only if its first field stands for the one and its second for the other: a star for 0, or, within range, an optional sign, any zeros and the number in decimal. All else is refused. |
| Decimal.AtoiExactly | internal/cron/cron.go:211-214 | Exactly those texts are numbers, and of that value. |
| Schedule.ParsedScheduleIsValid | internal/cron/cron.go:207-219 | What parses is a time of day. |
| Schedule.SlotsAreDaily | internal/cron/cron.go:221-227 | The instants at the schedule's hour and minute, on the dot, are those at one offset in the day. |
| Schedule.NextIsTheFirstSlotAfter | internal/cron/cron.go:221-227 | The next time is a slot, strictly after now, at most 24 hours away, and no slot lies before it. |
| Schedule.SomeSlotElapsed | internal/cron/cron.go:110 | A slot has passed since an earlier reading exactly when the next time computed then has come. |
| Schedule.ElapsedByDays | internal/cron/cron.go:221-227 | The number of slots in an interval, in closed form. |
| Schedule.ShortGapHoldsOneSlot | internal/cron/cron.go:221-227 | An interval of up to 24 hours holds at most one slot. |
| Firing.WaitsForTheNextSlot | internal/cron/cron.go:108-124 | With a clock that does not go back, after any ticks the job waits for the first slot after the last reading. |
| Firing.FiresExactlyWhenASlotHasPassed | internal/cron/cron.go:108-124 | A tick fires the job if and only if one of its slots lies after the previous reading and not after this one. |
| Firing.FiresPlusMissedIsElapsed | internal/cron/cron.go:108-124 | Over any run, fires plus the sum over gaps of the slots beyond the first equals the slots that elapsed. |
| Firing.FiresOncePerSlot | internal/cron/cron.go:108-124 | With gaps of at most 24 hours, there are exactly as many fires as slots. |
| Firing.NextStaysOnSlots | internal/cron/cron.go:110-124 | Under any clock, the next time keeps its time of day and never moves back. |
| Firing.FireMovesNextByWholeDays | internal/cron/cron.go:110-124 | Under any clock, a fire moves it forward by a positive number of whole days, and nothing else moves it. |
| Firing.NoSlotFiresTwice | internal/cron/cron.go:110-124 | Under any clock, even one set back, two fires of a job are for different slots, in order. |
| Firing.WhenNextIsZero | internal/cron/cron.go:110 | The next time is the zero time exactly for a midnight job on the day before year 1. |
| Firing.ZeroTimeNeverFires | internal/cron/cron.go:110-112 | Such a job never fires. |
| Scheduler.Scheduler.UpsertCronJob | internal/sqlite/sqlite.go:371-394 | Exactly the job's row is written, with the job's schedule, session and prompt each in its column, enabled; failure exactly for a blank id or a failed statement. |
| Scheduler.Scheduler.LoadJobs | internal/cron/cron.go:82-100 | Loading succeeds exactly when every schedule parses, no id is blank and no statement fails; then jobs and rows agree, field by field, for every configured id, the last duplicate winning, each job waits for its next slot, other rows are untouched, and every loaded schedule parses. |
| Scheduler.Scheduler.RunJob | internal/cron/cron.go:128-184 | Nothing for a blank prompt; otherwise the conversation of the job: its writes up to the first failure, which operation that was, and what the LLM was asked. |
| Records.JobRecords | internal/cron/cron.go:129-178 | Running a job records its trimmed prompt in its own session in the role `system`, then the reply in the role `assistant`, end by end, and nothing else in any file or in the table. |
| Records.CompleteJobRecords | internal/cron/cron.go:129-178 | When nothing fails and the session is not blank: exactly those two lines in the file of the session, those two messages under the session, and the LLM asked the trimmed prompt once. |
| Records.BlankJobRecords | internal/cron/cron.go:133-150 | When nothing fails and the session is blank: the prompt goes to `unknown`, and that is all. |
| Scheduler.Scheduler.TickOne | internal/cron/cron.go:109-125 | The job is run exactly when it is due, with the effect of `Records.JobRecords`, its next time moves whether or not running it failed, and no other job changes. |
| Scheduler.Scheduler.Tick | internal/cron/cron.go:102-126 | In whatever order the map is walked: the due jobs hold their conversations once each, one after the other, no other job does, and every job ends with the same next time. |
| Scheduler.JobFollowsItsSchedule | internal/cron/cron.go:102-126 | Over any ticks, each job of the map moves as the one-job model of its schedule, and nothing else of it changes. |
| Scheduler.TicksFireOnSchedule | internal/cron/cron.go:114-123 | After a successful load no tick ever meets a schedule that does not parse, and the jobs due at a tick are those whose schedules fire then. |
| Scheduler.LoadedJobFiresWhenASlotHasPassed | internal/cron/cron.go:82-126 | A loaded job is due at a tick if and only if one of its configured slots has passed since the reading before. |
| Sessions.KeyIsSafe | internal/sessions/store.go:64-88 | A file name has 1 to 64 characters of [a-z0-9_-] and does not begin with a dash. |
| Sessions.KeyByCharacter | internal/sessions/store.go:64-88 | A file name, character by character: of the stretch between the first and the last that do not become dashes, the first 64, capitals made small, letters, digits, `-` and `_` kept, all else a dash; `session` when there is none. |
| Sessions.SanitizingAgain | internal/sessions/store.go:64-88 | Sanitizing a file name leaves it alone if and only if it does not end in a dash. |
| Sessions.CutLeavesDash | internal/sessions/store.go:84-86 | The case occurs: for an id of 65 key characters whose 64th is a dash and whose first and last are not, the cut leaves the dash, and sanitizing again changes the name. |
| Sessions.SanitizingTwiceIsStable | internal/sessions/store.go:64-88 | Sanitizing twice reaches a fixed point. |
| Sessions.ChatsShareAFile | internal/orchestrator/orchestrator.go:68 | Two 64-bit chat numbers share a Markdown file if and only if they differ at most in sign. |
| Sessions.Store.Append | internal/sessions/store.go:22-62 | The entry, trimmed, with its role lowered and stamped with the clock's reading, goes to the end of its file, below a heading if the file is new; no other file changes; failure exactly when an operation failed, and then no entry has been added anywhere. |
| Sessions.AppendedText | internal/sessions/store.go:56-60 | An append leaves all earlier text in place and adds a title with stamp and role, in that order, a blank line, the content, and a blank line. |
| Sessions.FirstText | internal/sessions/store.go:49-60 | The first append to a session begins its file with a title that names the session as given, or `unknown`. |
| Conservation.StoresAfterStep | internal/orchestrator/orchestrator.go:73-92 | Each step appends at most one line to one file and at most one message to the table, and leaves everything else. |
| Conservation.StepKeepsImbalance | internal/cron/cron.go:133-178 | No step, whether it succeeds or fails, changes copies filed less copies mirrored less copies owed. |
| Conservation.MirrorIsConserved | internal/orchestrator/orchestrator.go:73-92 | In every state of every interleaving: copies of a line in a file are its copies in SQLite, over all raw sessions that map to the file, plus the tasks between the two appends and those whose SQLite append failed. |
| Conservation.EqualUnlessOwed | docs/SECURITY.md:18-20 | A file and its mirror, equal at first, hold the same lines, counted with repetitions, if and only if no task owes that file a line; what other files are owed does not matter. |
| Conservation.BlankSessionIsOwed | internal/cron/cron.go:133-150 | The failing case: from empty stores, every job with a blank session and a prompt has a run that leaves the prompt filed under `unknown` and SQLite empty. |
| Conservation.BlankSessionsAreNeverMirrored | internal/sqlite/sqlite.go:112-114 | In every run no message of a blank session reaches SQLite, and its task goes no further than its prompt. |
| Conservation.BlankSessionsAreFiledUnderUnknown | internal/sessions/store.go:23-25 | A blank session's file is named `unknown`. |
| Balance.FilesBalance | internal/orchestrator/orchestrator.go:73-87 | In every run, prompts less replies in a file are exactly the tasks that have filed a prompt there and not its reply; no prefix of the file has more replies than prompts. |
| Balance.LogsBalance | internal/cron/cron.go:142-178 | The same of every SQLite session log, for tasks that have mirrored a prompt and not its reply. |
| Delivery.TasksAreInOrder | internal/orchestrator/orchestrator.go:73-97 | In every run each task's stage vouches for what has been added to both stores since before it was submitted, in order, and for its reply and requests. |
| Delivery.SendingFollowsRecording | internal/orchestrator/orchestrator.go:81-97 | In every run a request is made only for an allowed user, with non-blank text, after prompt and reply have been added in that order to both stores since any state before the task was submitted; there are at most two, and the send succeeds exactly when the last one did. |
| Delivery.SenderRefusesOnlyChatZero | internal/telegram/sender.go:51-60 | For a message from the webhook, the sender's checks for a stranger and for blank text never fire; only chat 0 is refused. |
| Allow.AllowedExactly | internal/telegram/allow.go:8-24 | On ASCII lists and names, a user is allowed if and only if some entry, white space around it and one `@` aside, is the user's number or, but for case, the user's name, and not empty; a missing user never is. |
| Sender.Sender.SendMessage | internal/telegram/sender.go:50-99 | Which check refuses, in order; with none, one request, and a second exactly when the first was not delivered; success exactly when the last was; delivered are the answers with a status from 200 to 299; all carry the trimmed text to that chat. |
| Orchestrator.UndisturbedTask | internal/orchestrator/orchestrator.go:61-99 | A step of a task that no other disturbs keeps the stores at what its writes so far make of them. |
| Refinement.HandledTasksAreAdmitted | internal/telegram/telegram.go:90-102 | A message from an allowed user, once trimmed and not blank, and a trimmed cron prompt are tasks that the step system admits. |
| Refinement.ConversationIsAPath | internal/cron/cron.go:133-178 | Whatever the conversation can do, from any state of the step system a path does, to the same end, reply and stores. |
| Refinement.HandlingIsAPath | internal/orchestrator/orchestrator.go:61-99 | Whatever handling a task can do, a path does, to the same end, reply and stores, with a post for each request and its outcome. |
| Refinement.LoneTaskIsHandled | internal/orchestrator/orchestrator.go:61-99 | However a task ends that runs alone in the step system, handling it can end so, with the same stores and posts. |
| Orchestrator.AppendIsFile | internal/sessions/store.go:49-60 | A file append, seen as lines, is the filing step of the step system. |
| Orchestrator.SessionTable.AppendSessionMessage | internal/sqlite/sqlite.go:108-128 | The message is added at the end with session and content as they are; failure exactly for a blank session or a failed statement. |
| Orchestrator.Client.Complete | internal/llm/llm.go:103-153 | An answer is never blank; every prompt is kept. |
| Orchestrator.Recorder.FileLine | internal/orchestrator/orchestrator.go:73-75 | One filing step on both stores, or none when an operation failed. |
| Orchestrator.Recorder.MirrorLine | internal/orchestrator/orchestrator.go:76-80 | One mirroring step, or none when the session is blank or the statement failed. |
| Orchestrator.Recorder.Converse | internal/cron/cron.go:133-178 | The stores hold the task's writes up to its first failure and no other; which operation failed, or that SQLite refused a blank session, decides the end, and the other way round; the LLM is asked the prompt exactly once, and only after it is in both stores; a complete conversation means that nothing failed and the session is not blank. |
| Orchestrator.Orchestrator.Process | internal/orchestrator/orchestrator.go:61-99 | Unusable updates change nothing; otherwise the conversation of the task with the trimmed text, its end decided by what failed; after a complete one and no other, requests, two at most, carry the reply to the chat, none exactly when the sender refuses; the result is that of the last request. |
| Records.MessageRecords | internal/orchestrator/orchestrator.go:68-92 | Handling a message records its trimmed text under the chat's number in the role `user`, then the reply in the role `assistant`, end by end, in the file named after the number without its sign, and nothing else in any file or in the table. |
| Sequential.FilesEqualTheirMirror | internal/orchestrator/orchestrator.go:73-92 | After any tasks that run one after the other without failure, each file is its mirror, line for line and in order. |
| Sequential.LogIsPartOfItsFile | internal/sqlite/sqlite.go:108-128 | Each session's log, trimmed, is an ordered part of its file, and all of it if and only if no other session shares the file. |
| Recency.StampsOrderLikeTime | internal/sqlite/sqlite.go:272-312 | For instants of years 0 to 9999, stamps compare as times do, except exactly when both lie in one second and for some k below 9 the nanoseconds of the earlier end in 9 - k zeros and agree with those of the later in the k digits before; then they compare the other way round. |
| Recency.StampLayout | internal/sqlite/sqlite.go:272 | A stamp is year, month, day, hour, minute and second, each in its digits between the marks of RFC 3339, then the fraction, then `Z`. |
| Recency.FractionReadsBack | internal/sqlite/sqlite.go:272 | A fraction is a point and up to nine digits that do not end in zero, and reads back as its nanoseconds. |
| Recency.WholeSecondsAreMisordered | internal/sqlite/sqlite.go:272 | The exception occurs: every whole second against every later instant of that second. |
| EndToEnd.AppendAddsWords | internal/sessions/store.go:49-60 | After an append the file's text holds every token of the message and every token it held before. |
| EndToEnd.CoveredSessionIsWatched | internal/indexer/indexer.go:78-94 | When walking one of the roots reports the session file, the file is among those that a scan indexes, by its name. |
| EndToEnd.AppendedWordsAreStored | internal/indexer/indexer.go:140-163 | After the next successful scan of roots that cover the sessions directory, the file's row is what indexing the new text gives, and stores all those tokens, unless the old row collides with the new content. |
| EndToEnd.AppendedMessageIsFound | internal/indexer/indexer.go:103-138 | Any query that shares a token with them then returns the file, with at most 200 rows stored and a limit that admits all matches, unless the old row collides with the new content. |

## Left out

- Sha-256 and lower-casing tables: arbitrary functions, as said above.
- Score rounding: `float64` division is exact division here, so two scores that round to the same float are told apart.
- Search.SearchRows: matches carry path and score, not the snippet; `snippet` cuts bytes, which a text of characters does not have.
- Scheduler.Scheduler.UpsertCronJob: the `updated_at` column, which nothing reads, is not modelled.
- Orchestrator.SessionTable.AppendSessionMessage: a message's id is its place in the sequence; `created_at`, which nothing in the pipeline reads, is not modelled.
- Orchestrator.Client.Complete: the kinds of failure, and which text block is the answer, are one arbitrary outcome.
- Invalid UTF-8: files and session ids are characters, so lengths count characters; a sanitized id is ASCII, where both agree.
- Indexer.Indexer.ScanOnce: one picture of the disk for the whole scan; files that change during a scan are the subject of `ScanRuns`.
- Directory walking: what a walk reports is a sequence of callbacks, any of which may be an error; order, links and `filepath` are not modelled.
- EndToEnd.AppendedMessageIsFound: the sessions directory is taken as already clean, so that `filepath.Join` only adds a separator; heading and entry are the file's whole text, as they are in a file that only `Append` writes.
- Indexer.Indexer.Walk: it records a path as seen after indexing it, where the code records it just before; the order cannot be told apart, because a failed walk drops the set.
- Sessions.Store.Append: creating the directory, looking for the file and opening it are one operation; in the step system the whole append is one, so two first appends that race for the heading are not modelled.
- Orchestrator.Recorder.Converse: stands for the middle of both `Process` and `runJob`, which differ there only in role and in logging; the database is taken as present, and so is the sender.
- Scheduler.Scheduler.TickOne: the body of the loop in `tick`, kept apart; the mutex makes ticks run one at a time.
- Numbers too large for a machine integer in a cron field: `Decimal.Atoi` reads them, and the range test refuses them as the parser would.
- Constructors' checks for missing dependencies, `Start`, tickers, logging, error texts and wrapping.
- HTTP handlers, JSON, the webhook secret, the Anthropic client's requests, pauses between attempts, webhook registration, `mousectl`.
- SQL text, drivers, migrations, stamps of the other tables.
- `ListSessionMessages` and `DeleteSession`: nothing in the repository calls them, and they would add easy members.
- The memory table: the same upsert as the index table, with less depth.
- Tool policy, Docker arguments, sandbox, approvals, configuration checks: short branches without state.
