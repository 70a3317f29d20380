# Notes playground timers, chains and session storage in Dafny

This project models the timer engine of the notes playground board. The board holds task cards. Each card is a countdown timer (`MM:SS`) or a wall-clock alarm (`HH:MM`, optionally on a date). Cards can be linked into workflow chains: when a task completes, the tasks it links to are started one second apart.

The model covers four parts of the repository:

- **Engine** (`engine.dfy`): the client-side task provider as a class `NotesEngine`. It holds the task list, the derived link records and the three timer registries (`timerIntervals`, `alarmCheckers`, `chainTimeouts`). Everything the browser keeps on the provider's behalf is made explicit: the pending one-shot timeouts with their handles, a logical clock in milliseconds, and the Telegram messages sent so far. Each exported operation (add, delete, clear, toggle, reset, custom time, alarm time, mode toggle, link, unlink, load, import, start chain, reset chain, save settings) is a method. So is each timer event: an interval tick, an alarm check, the earliest timeout falling due, and time passing.
  - The re-run of the timer effect after every change of the list is part of `SetTasks`.
  - The pure reducers the provider applies with `prev.map(...)` live in `tasks.dfy`, `link_graph.dfy` and `chain.dfy`.
  - Timeouts and their registry live in `timeouts.dfy`; the Telegram messages and the alarm match test live in `notify.dfy`.
- **Session store** (`session_store.dfy`): the server's `SessionTasksStore` as a class. It holds one map from session to task list and one from session to last sync time. The order in which the `Map` first saw each session is kept explicitly, because `keys()` reproduces it.
- **Time picker** (`time_picker.dfy`): the preset durations, the initial minute and second fields, and the custom time the submit button produces.
- **Progress figures** (`adaptive_timer.dfy`): the countdown's elapsed share and the alarm's closeness within twelve hours.

`js_text.dfy` gives exact meanings to the few pieces of JavaScript the timer code depends on: `Number`, `Number.parseInt` with and without a radix, `String(n)`, `padStart(2, "0")`, `split(":")` and `replace` with a string pattern. A JavaScript number is `NaN` or an exact integer there. `wrappers.dfy` holds `Option`, which stands for an optional field that may be `undefined`.

What is proved, in outline:

- **Clock texts.**
  - The countdown tick reads back exactly the numbers a clock text was printed from.
  - A countdown of `n` seconds shows `00:00` after `n` ticks and completes on tick `n + 1`.
  - Every preset and every custom time is a clock text that the tick reads back exactly.
  - Submitting the picker unchanged gives the same time back.
- **Links.**
  - Linking and unlinking add or remove exactly one edge.
  - Deleting a task removes every edge touching it. The deletion is two events, the prune before the API call and the filter after it, and a running task keeps ticking in between.
  - Linking, unlinking (of two different tasks) and deleting keep the two halves of every link in agreement.
  - A task unlinked from itself breaks that agreement.
- **Chains.**
  - The depth-first chain walk collects exactly the distinct tasks reachable from the start, in the order the recursive walk pushes them; new tasks, whose positions are all unset, keep that order through the stable sort and are numbered by it.
  - The chain sort is sorted, a permutation and stable.
  - Chain progress is 100 exactly when at most one task in 200 is unfinished, so it means "all done" only for chains shorter than 200.
  - A completion schedules the `k`-th downstream task `k` seconds later, under a fresh handle.
  - A later duplicate overwrites the handle of an earlier one in `chainTimeouts`.
  - Cancelling by handle keeps exactly the other timeouts.
- **Session store.**
  - Upsert replaces in place or appends.
  - Merge keeps the id.
  - Splice removes exactly one task.
  - Statistics list every session once, in first-write order.
  - A write to one session leaves the others alone.

## Model

| member | source | states |
|---|---|---|
| JsText.Clamp | components/time-picker-modal.tsx:42-43 | `Math.max(lo, Math.min(hi, x))` lies in `lo..hi`, is `x` inside the range and the nearer bound outside it |
| JsText.DigitChar | components/context/notes-context.tsx:242 | the digit character printed for `d < 10` is a digit whose value is `d` |
| JsText.NatToString | components/time-picker-modal.tsx:44 | `String(n)` of a natural number is a non-empty digit run, one character long exactly when `n < 10` |
| JsText.LeadingDigits | components/context/notes-context.tsx:226-227 | the prefix `parseInt` consumes is all digits |
| JsText.LeadingHexDigits | components/time-picker-modal.tsx:42-43 | the prefix `parseInt` consumes after `0x` is all hexadecimal digits |
| JsText.Split | components/adaptive-timer.tsx:18-19 | `split` always yields at least one piece |
| JsText.TrimStartSpec | components/adaptive-timer.tsx:18-19 | trimming the front removes the leading run of JavaScript white space and nothing else |
| JsText.TrimEndSpec | components/adaptive-timer.tsx:18-19 | trimming the back removes the trailing run of white space and nothing else |
| JsText.LeadingDigitsSpec | components/context/notes-context.tsx:226-227 | the digits `parseInt` reads are the longest digit prefix |
| JsText.SplitSpec | components/adaptive-timer.tsx:18-19 | no piece of `split(sep)` contains `sep`, and `Join`ing the pieces with `sep` gives back exactly the text that was split |
| JsText.NatToStringValue | components/time-picker-modal.tsx:44 | printing a natural number and reading its digits gives it back |
| JsText.LeadingZeroValue | components/time-picker-modal.tsx:44 | the `0` that `padStart` adds does not change a digit run's value |
| JsText.Pad2Digits | components/time-picker-modal.tsx:44 | `String(n).padStart(2, "0")` of a natural `n` is a digit run of value `n`, exactly two long iff `n < 100` |
| JsText.Pad2Injective | components/context/notes-context.tsx:242 | two different numbers never print alike |
| JsText.LeadingDigitsOf | components/context/notes-context.tsx:226-227 | a digit run followed by a non-digit is exactly the prefix `parseInt` reads |
| JsText.ParseDigitsThen | components/context/notes-context.tsx:226-227 | `parseInt(_, 10)` reads a digit run whatever non-digit text follows |
| JsText.ParseNegativeDigitsThen | components/context/notes-context.tsx:226-227 | `parseInt(_, 10)` reads a minus sign and a digit run as the negated value |
| JsText.ParsePad2 | components/context/notes-context.tsx:225-227 | `parseInt(_, 10)` reads back every integer printed with `padStart(2, "0")`, whatever non-digit text follows |
| JsText.ParsePad2Negative | components/context/notes-context.tsx:225-227 | the same for negative integers, which `padStart` leaves unpadded |
| JsText.NumberOfDigits | components/adaptive-timer.tsx:18-19 | `Number` reads an optionally negated digit run as its signed value |
| JsText.NumberOfPad2 | components/adaptive-timer.tsx:18-19 | `Number` reads back every integer printed with `padStart(2, "0")` |
| JsText.NumberOfNegativePad2 | components/adaptive-timer.tsx:18-19 | the negative half of `NumberOfPad2` |
| JsText.NumberOfNaturalPad2 | components/adaptive-timer.tsx:18-19 | the natural half of `NumberOfPad2` |
| JsText.ParseIntAutoOfNat | components/time-picker-modal.tsx:42-43 | `Number.parseInt` without a radix reads back every printed natural number |
| JsText.Pad2OneDigit | components/context/notes-context.tsx:242 | a one-digit number prints as `0` and its digit |
| JsText.Pad2TwoDigits | components/time-picker-modal.tsx:17-24 | a number below 100 prints as its two decimal digits |
| JsText.Pad2NoColon | components/context/notes-context.tsx:242 | no printed integer contains a colon |
| JsText.SplitWithout | components/time-picker-modal.tsx:33-34 | a text without the separator splits into itself alone |
| JsText.SplitPair | components/adaptive-timer.tsx:18-19 | two separator-free pieces joined by the separator split back into those two pieces |
| JsText.ReplaceFirstAbsent | components/context/notes-context.tsx:309 | `replace` with a pattern that does not occur changes nothing |
| JsText.ReplaceFirstAt | components/context/notes-context.tsx:309 | `replace` substitutes the first occurrence of the pattern and keeps the rest of the text |
| JsText.ReplaceAfterPrefix | components/context/notes-context.tsx:309 | a pattern placed after a text lacking its first character is the one replaced |
| Tasks.ClockTextOneDigit | components/context/notes-context.tsx:240-242 | one-digit fields print with a leading zero (`05:00`, `00:01`, `00:00`) |
| Tasks.ReadClockText | components/context/notes-context.tsx:225-227 | the tick's `split(":")` and `parseInt(_, 10)` read back exactly the minutes and seconds a clock text was printed from |
| Tasks.CompletedByTick | components/context/notes-context.tsx:229-230 | the tasks for which a tick calls the completion handler are exactly the ones it applies to at `00:00` |
| Tasks.TickListFrame | components/context/notes-context.tsx:221-223 | a tick keeps the list's length and ids, leaves every task it does not apply to as it was, and applies the step to the others |
| Tasks.TickBorrow | components/context/notes-context.tsx:240-248 | `MM:SS` with `SS > 0` becomes `MM:(SS-1)`, and `MM:00` becomes `(MM-1):59`; nothing else changes |
| Tasks.TickAtZero | components/context/notes-context.tsx:229-237 | at `00:00` the tick stops the task, marks it completed and counts one more completion |
| Tasks.TickFromOneSecond | components/context/notes-context.tsx:240-248 | from `00:01` the tick reaches `00:00` without completing |
| Tasks.TickCountsDown | components/context/notes-context.tsx:225-248 | on the clock text of `n > 0` seconds the tick shows the clock text of `n - 1` |
| Tasks.ClockOfPrevious | components/context/notes-context.tsx:240-241 | one second less is one less in the seconds field, or one minute less and 59 |
| Tasks.CountdownRunsOut | components/context/notes-context.tsx:220-251 | a countdown of `n` seconds shows `00:00` after `n` ticks, is stopped, completed and counted after `n + 1`, and no further tick applies |
| Tasks.CountdownEnd | components/context/notes-context.tsx:229-237 | the last tick of a countdown at zero seconds completes the task |
| Tasks.CountdownAfter | components/context/notes-context.tsx:220-251 | after `k <= n` ticks of a countdown of `n` seconds, `n - k` seconds are shown |
| Tasks.RepeatCountsDown | components/context/notes-context.tsx:220-251 | a step that lowers a shown count by one, repeated `k` times, lowers it by `k` |
| Tasks.TickKeepsCoherent | components/context/notes-context.tsx:229-248 | a tick never leaves a task both running and completed, and keeps its id and links |
| Tasks.UpdateWhere | components/context/notes-context.tsx:752-766 | `prev.map(task => task.id === id ? f(task) : task)`: the same length, `f` applied exactly to the tasks with the id |
| Tasks.EditsLeaveIdle | components/context/notes-context.tsx:740-817 | reset, custom time, alarm time and mode toggle leave a task stopped and not completed; reset restores the configured time and leaves the chain; a custom time becomes the configured time; toggling twice restores the mode |
| Tasks.ListEditsSpec | components/context/notes-context.tsx:731 | each list edit makes every task with the id idle (start/pause sets only the running state) and leaves every other task and the length as they were |
| Tasks.ToggleStartsCompletedTask | components/context/notes-context.tsx:712-731 | `toggleTimer` starts a completed task without clearing its completion, leaving it both running and completed |
| Tasks.NewTaskDefaults | components/context/notes-context.tsx:537-559 | a new card is an idle five-minute timer with no links and no completions; the welcome card differs only in its title |
| Tasks.MigrateAll | components/context/notes-context.tsx:503-509 | the load migration maps every stored record, in order |
| Tasks.ExportThenMigrate | components/context/notes-context.tsx:997-1003 | exporting and re-importing a task gives it back, with a missing completion count as 0; migration is idempotent |
| Tasks.MigrateFillsDefaults | components/context/notes-context.tsx:503-509 | a missing mode becomes timer, missing links become empty, and a missing count becomes 0; the id and position are kept |
| Tasks.FindIndex | components/context/notes-context.tsx:398 | `findIndex` gives the first index with the id, or None exactly when no task has it |
| Tasks.Find | components/context/notes-context.tsx:189 | `find` returns the task at `findIndex`, and only when there is one |
| Tasks.FindHasTask | components/context/notes-context.tsx:713-714 | `find` succeeds exactly when some task has the id |
| Tasks.RegistryContents | components/context/notes-context.tsx:218-275 | the registry the effect rebuilds holds exactly the ids of tasks that satisfy its condition, each bound to one such task |
| Tasks.RegistryKeys | components/context/notes-context.tsx:253 | the ids in the registry are exactly those of the tasks that satisfy its condition |
| Tasks.RegistryEntry | components/context/notes-context.tsx:273 | each registry entry is a task of the list with that id that satisfies the condition |
| Tasks.EditedTaskRegistries | components/context/notes-context.tsx:752-817 | after reset, custom time, alarm time or mode toggle, the task has no countdown interval; it gets an alarm checker when its edited form is an armed alarm |
| LinkGraph.Dedup | components/context/notes-context.tsx:831 | `[...new Set(s)]` has no duplicates and the same members as `s` |
| LinkGraph.DedupOfNoDup | components/context/notes-context.tsx:831 | a list without duplicates is its own deduplication |
| LinkGraph.Remove | components/context/notes-context.tsx:638-639 | `filter(y => y !== x)` keeps exactly the members other than `x`, and is no longer |
| LinkGraph.RemoveAbsent | components/context/notes-context.tsx:858 | filtering out an absent id changes nothing |
| LinkGraph.LinkList | components/context/notes-context.tsx:826-844 | linking keeps the list's length |
| LinkGraph.UnlinkList | components/context/notes-context.tsx:853-871 | unlinking keeps the list's length |
| LinkGraph.PruneList | components/context/notes-context.tsx:635-641 | pruning keeps the list's length |
| LinkGraph.RemoveTasks | components/context/notes-context.tsx:660 | `filter(task => task.id !== x)` keeps exactly the tasks with another id |
| LinkGraph.LinkSelf | components/context/notes-context.tsx:824 | linking a task to itself changes nothing |
| LinkGraph.LinkEdges | components/context/notes-context.tsx:828-834 | after `linkTasks(a, b)` the forward edges are the old ones plus `a -> b` when task `a` exists |
| LinkGraph.LinkBackEdges | components/context/notes-context.tsx:835-841 | after `linkTasks(a, b)` the back edges are the old ones plus `a` in the `linkedFrom` of task `b` when it exists |
| LinkGraph.LinkKeepsFields | components/context/notes-context.tsx:826-844 | linking changes only the two link lists of each task |
| LinkGraph.LinkTaskFacts | components/context/notes-context.tsx:828-841 | on one task linking keeps the id and adds exactly `b` to task `a`'s `linkedTo` and `a` to task `b`'s `linkedFrom` |
| LinkGraph.LinkKeepsSymmetric | components/context/notes-context.tsx:826-844 | linking two existing tasks keeps the halves of every link in agreement |
| LinkGraph.LinkIdempotent | components/context/notes-context.tsx:831-838 | linking twice is linking once |
| LinkGraph.DedupAgain | components/context/notes-context.tsx:831 | appending an id that is already present and deduplicating again changes nothing |
| LinkGraph.UnlinkEdges | components/context/notes-context.tsx:855-861 | after `unlinkTasks(a, b)`, `a != b`, the forward edges are the old ones without `a -> b` |
| LinkGraph.UnlinkBackEdges | components/context/notes-context.tsx:862-868 | after `unlinkTasks(a, b)`, `a != b`, the back edges are the old ones without `a -> b` |
| LinkGraph.UnlinkKeepsSymmetric | components/context/notes-context.tsx:852-871 | unlinking two different tasks keeps the halves in agreement |
| LinkGraph.UnlinkSelfBreaksSymmetry | components/context/notes-context.tsx:852-871 | without a self-link guard, unlinking a task from itself drops only its `linkedTo` half and breaks the agreement |
| LinkGraph.DeleteEdges | components/context/notes-context.tsx:635-669 | after `deleteTask(x)` the forward and back edges are exactly the old ones not touching `x` |
| LinkGraph.OwnEdges | components/context/notes-context.tsx:635-641 | a list in which no task mentions `x` has no edge ending at `x` |
| LinkGraph.PruneEdges | components/context/notes-context.tsx:638 | pruning removes exactly the forward edges into `x` |
| LinkGraph.PruneBackEdges | components/context/notes-context.tsx:639 | pruning removes exactly the back edges from `x` |
| LinkGraph.PruneClears | components/context/notes-context.tsx:635-641 | after pruning no task mentions `x` and the ids are unchanged |
| LinkGraph.RemoveTasksEdges | components/context/notes-context.tsx:660 | dropping the tasks with id `x` removes exactly the edges out of `x` |
| LinkGraph.DeleteKeepsSymmetric | components/context/notes-context.tsx:635-669 | deleting a task keeps the halves in agreement |
| LinkGraph.DeleteRemoves | components/context/notes-context.tsx:635-669 | after `deleteTask(x)` no task mentions `x`; an existing `x` is gone and the list is shorter; a missing one only prunes |
| LinkGraph.DeleteInTwoSteps | components/context/notes-context.tsx:635-669 | `deleteTask`'s prune followed directly by its filter is the whole deletion, the filter happening exactly when the task existed |
| LinkGraph.RemoveTasksShorter | components/context/notes-context.tsx:660 | dropping an id that occurs shortens the list |
| LinkGraph.RemoveTasksNoLonger | components/context/notes-context.tsx:660 | dropping an id never lengthens the list |
| LinkGraph.ReachSelf | components/context/notes-context.tsx:185-196 | the start of a chain walk is reachable from itself |
| LinkGraph.ReachStep | components/context/notes-context.tsx:192 | following a link of a reachable task reaches its target |
| LinkGraph.ClosedHoldsReach | components/context/notes-context.tsx:185-196 | a visited set closed under links holds everything reachable from the start |
| LinkGraph.PathInside | components/context/notes-context.tsx:185-196 | every id on a walk from a visited id stays inside a closed visited set |
| LinkGraph.BuildChain | components/context/notes-context.tsx:185-194 | the recursive `buildChain`: its marks and pushes are exactly those of `Visit`, the depth-first walk; the visited set stays reachable and closed except for ids still on the stack, and the chain keeps one `find` result per visited id |
| LinkGraph.BuildLinks | components/context/notes-context.tsx:191 | `task.linkedTo.forEach(buildChain)`: its marks and pushes are exactly those of `VisitAll`, the walks from the links one after the other |
| LinkGraph.Visit | components/context/notes-context.tsx:185-194 | the walk from an id marks that id and stays within the ids a walk can meet |
| LinkGraph.VisitAll | components/context/notes-context.tsx:191 | the walks from a list of ids only add marks, within the ids a walk can meet |
| LinkGraph.DepthFirstFollowsLinks | components/context/notes-context.tsx:185-194 | the walk follows links in list order: links `[2, 3]` give the chain 1, 2, 3 and links `[3, 2]` give 1, 3, 2 |
| LinkGraph.Mark | components/context/notes-context.tsx:186-191 | marking an id and pushing its task keeps the chain invariant |
| LinkGraph.Unmark | components/context/notes-context.tsx:192 | once every link of an id is visited, the id is closed |
| LinkGraph.CollectChain | components/context/notes-context.tsx:182-196 | the unsorted chain is `DepthFirst(ts, s)`, the walk's order; it holds exactly one task per reachable id that has a task, distinct, starting with the start task when it exists |
| LinkGraph.StartlessReach | components/context/notes-context.tsx:189-190 | without a task for the start id the walk reaches nothing else |
| LinkGraph.LinksOf | components/context/notes-context.tsx:166-175 | one record per entry of a task's `linkedTo`, in order, with id `from-to` |
| LinkGraph.DeriveLinksMembers | components/context/notes-context.tsx:163-178 | the derived records are exactly those of the tasks' own lists |
| LinkGraph.RecordInLinksOf | components/context/notes-context.tsx:167-173 | a task's records hold the record `a -> b` exactly when it is task `a` listing `b` |
| LinkGraph.DeriveLinksEdges | components/context/notes-context.tsx:163-178 | a record `a -> b` is derived exactly when some task `a` lists `b` |
| Chain.InsertMultiset | components/context/notes-context.tsx:197 | inserting into the sorted prefix adds exactly that task |
| Chain.InsertSorted | components/context/notes-context.tsx:197 | inserting keeps the list sorted by `chainPosition \|\| 0` |
| Chain.WithKeyPush | components/context/notes-context.tsx:197 | the tasks of a key in `s + [y]` are those of `s`, plus `y` when it has that key |
| Chain.InsertWithKey | components/context/notes-context.tsx:197 | inserting appends the task to the tasks of its own key and leaves other keys alone |
| Chain.SortByPositionSpec | components/context/notes-context.tsx:197 | the chain sort is sorted by position and is a permutation |
| Chain.SortByPositionSorted | components/context/notes-context.tsx:197 | the chain sort is sorted by position |
| Chain.SortByPositionMultiset | components/context/notes-context.tsx:197 | the chain sort is a permutation |
| Chain.SortByPositionStable | components/context/notes-context.tsx:197 | the sort is stable: tasks of one position keep their visiting order |
| Chain.SortSortedChain | components/context/notes-context.tsx:197 | a chain already in position order is left as it is |
| Chain.CompletedCount | components/context/notes-context.tsx:204 | the completed count is at most the chain's length, equals it iff every task is completed, and is 0 iff none is |
| Chain.RoundedPercent | components/context/notes-context.tsx:205 | `Math.round(done / n * 100)` lies in 0..100, is 100 iff at most one task in 200 is unfinished, 100 when all are done and 0 when none is |
| Chain.ProgressRange | components/context/notes-context.tsx:202-206 | chain progress is a percentage |
| Chain.ProgressEnds | components/context/notes-context.tsx:203-205 | a non-empty chain with every task completed shows 100, with none completed 0 |
| Chain.ProgressFull | components/context/notes-context.tsx:205 | progress is 100 exactly when at most one task in 200 is unfinished |
| Chain.ProgressFullShortChain | components/context/notes-context.tsx:205 | below 200 tasks, 100 means every task is completed |
| Chain.Downstream | components/context/notes-context.tsx:335 | the downstream tasks number at most the links, and each is a task of the list whose id is one of the links |
| Chain.DownstreamMembers | components/context/notes-context.tsx:335 | a task is downstream exactly when `find` returns it for one of the links |
| Chain.DownstreamNoneFound | components/context/notes-context.tsx:335 | links naming no existing task give no downstream task |
| Chain.DownstreamAllFound | components/context/notes-context.tsx:335 | when every link names a task, the downstream tasks are exactly those, in link order |
| Chain.ActivateList | components/context/notes-context.tsx:342-354 | activation keeps the list's length |
| Chain.ActivateSpec | components/context/notes-context.tsx:343-352 | activation starts exactly the idle tasks with the id at position `index + 1`, leaves the rest, keeps tasks coherent and is idempotent |
| Chain.StartChainList | components/context/notes-context.tsx:389-404 | the reset of `startChain` keeps the list's length |
| Chain.StartChainPositions | components/context/notes-context.tsx:389-404 | after the reset every chain task is idle at a position `1..\|chain\|` naming itself in the chain; distinct ids get distinct positions; other tasks are untouched |
| Chain.StartChainInOrder | components/context/notes-context.tsx:389-404 | a chain started in its own order numbers its tasks 1, 2, 3, ... by their place |
| Chain.StartFreshChainNumbering | components/context/notes-context.tsx:384-404 | starting the chain of three new tasks, the first linking to `[2, 3]`, gives tasks 1, 2 and 3 the positions 1, 2 and 3: the walk order survives the stable sort because unset positions tie |
| Chain.ChainMember | components/context/notes-context.tsx:391-398 | an id is in the chain exactly when `findIndex` finds it |
| Chain.ResetChainList | components/context/notes-context.tsx:439-454 | `resetChain` keeps the list's length |
| Chain.ResetChainSpec | components/context/notes-context.tsx:439-454 | listed tasks become idle, leave the chain and return to their configured time; others are untouched; resetting twice is resetting once |
| Chain.StartThenReset | components/context/notes-context.tsx:384-454 | a started chain that is then reset leaves every chain task without a position |
| Timeouts.Scheduled | components/context/notes-context.tsx:338-361 | one timeout per downstream task |
| Timeouts.ScheduledSpec | components/context/notes-context.tsx:338-361 | the `k`-th downstream task is activated as index `k`, `k * 1000` ms after the completion, under handle `first + k` |
| Timeouts.ScheduledBounds | components/context/notes-context.tsx:339-361 | every scheduled timeout falls due no earlier than now, under a handle from the fresh range |
| Timeouts.RegisterDomain | components/context/notes-context.tsx:363 | `chainTimeouts` holds an id exactly when it held it or some downstream task has it |
| Timeouts.RegisterKept | components/context/notes-context.tsx:363 | an id no downstream task has keeps its old handle |
| Timeouts.RegisterLast | components/context/notes-context.tsx:363 | a downstream id ends with the handle of the last downstream task that has it |
| Timeouts.RegisterBounds | components/context/notes-context.tsx:363 | every recorded handle stays below the next free handle |
| Timeouts.RegisterOverwrites | components/context/notes-context.tsx:363 | for two downstream tasks with the same id, the earlier one's handle is no longer recorded, so `resetChain` cannot cancel it |
| Timeouts.KeepPending | components/context/notes-context.tsx:434 | cancelling never adds a timeout |
| Timeouts.KeepPendingMembers | components/context/notes-context.tsx:431-437 | `clearTimeout` keeps exactly the timeouts whose handle is not cancelled |
| Timeouts.KeepPendingTwice | components/context/notes-context.tsx:431-437 | cancelling two groups in turn is cancelling both at once |
| Timeouts.KeepPendingUnknown | components/context/notes-context.tsx:685 | cancelling handles no pending timeout has changes nothing |
| Notify.CompletionMessages | components/context/notes-context.tsx:307-310 | a completion sends one message exactly when the task asks for notifications and the settings are enabled with notify-on-complete |
| Notify.StartMessages | components/context/notes-context.tsx:718-725 | `toggleTimer` sends one start message exactly when it starts the task and start notifications are on |
| Notify.EnabledMessages | components/context/notes-context.tsx:1030-1032 | saving sends the confirmation exactly when enabled with a non-empty chat id and token |
| Notify.DefaultSettingsSilent | components/context/notes-context.tsx:105-112 | the default settings send nothing |
| Notify.DefaultCompletionText | components/context/notes-context.tsx:111 | the default template yields `Timer completed for: ` followed by the title |
| Notify.TemplateWithoutTitle | components/context/notes-context.tsx:309 | a template without `{title}` is sent as written |
| Notify.AlarmMatchesIff | components/context/notes-context.tsx:258-268 | the checker fires exactly when the alarm date (or today when it is absent or empty) is today and the alarm time is the current `HH:MM` |
| Notify.AlarmMatchesOnce | components/context/notes-context.tsx:261-266 | an alarm matches at most one minute of the day |
| Notify.AlarmNeedsFiveChars | components/context/notes-context.tsx:261-266 | an alarm time that is not five characters long never matches within a day |
| Engine.CompleteSideSpec | components/context/notes-context.tsx:307-364 | a completion keeps earlier messages and timeouts, adds at most one message, and schedules the `k`-th downstream task as index `k`, `k` s later, under a handle never used before |
| Engine.CompleteWithoutDownstream | components/context/notes-context.tsx:334-335 | a task whose links name no existing task schedules nothing |
| Engine.PerformOnEmpty | components/context/notes-context.tsx:341-354 | a timeout that fires after the list was cleared changes nothing |
| Engine.ActivationKeepsAlarms | components/context/notes-context.tsx:343-352 | a chain activation never adds or removes an alarm checker |
| Engine.LoadedNeverEmpty | components/context/notes-context.tsx:467-510 | a successful load never leaves the board empty and keeps the number of stored tasks |
| Engine.CancelStep | components/context/notes-context.tsx:431-437 | one step of `resetChain`'s cancelling loop extends the cancelled handles and the forgotten ids by the next id |
| Engine.ScheduleKeepsOk | components/context/notes-context.tsx:338-364 | scheduling from the next free handle keeps every timeout due in the future and every handle handed out |
| Engine.CancelKeepsOk | components/context/notes-context.tsx:629-633 | cancelling the recorded timeout of an id and forgetting the id keeps the timeouts sound |
| Engine.NoTaskNoEntry | components/context/notes-context.tsx:218-275 | an id no task has is in neither registry |
| Engine.PruneKeepsRegistries | components/context/notes-context.tsx:635-641 | pruning an id from the link lists leaves both registries' ids unchanged, so the effect registers again every interval and checker the list had |
| Engine.PushLinks | components/context/notes-context.tsx:166-175 | the inner loop pushes exactly the task's link records, in order |
| Engine.ScheduleDownstream | components/context/notes-context.tsx:338-364 | the `forEach` appends the scheduled timeouts and registers their handles |
| Engine.NotesEngine.constructor | components/context/notes-context.tsx:103-121 | the provider starts with no tasks, timeouts or messages, and the default settings |
| Engine.NotesEngine.SetTasks | components/context/notes-context.tsx:150-155 | a new list re-runs the effect: registries and link records are rebuilt from it, and its callbacks see the current settings |
| Engine.NotesEngine.RebuildRegistries | components/context/notes-context.tsx:208-278 | the effect registers exactly the ticking and the armed tasks |
| Engine.NotesEngine.UpdateLinksFromTasks | components/context/notes-context.tsx:163-178 | the link records are derived from the list |
| Engine.NotesEngine.Complete | components/context/notes-context.tsx:280-364 | `handleTaskComplete`: clears the task's interval and checker, sends, and schedules the downstream tasks |
| Engine.NotesEngine.ClearRegistered | components/context/notes-context.tsx:281-290 | clears exactly the interval and the checker of the id |
| Engine.NotesEngine.SendAndSchedule | components/context/notes-context.tsx:307-364 | the message and the downstream activations of a completion |
| Engine.NotesEngine.TimerFires | components/context/notes-context.tsx:220-251 | an interval firing applies the tick to the list and runs the completion handler for every task it completes, in order; the registries are rebuilt and the effect's settings become the current ones |
| Engine.NotesEngine.CompleteAll | components/context/notes-context.tsx:229-230 | completions of several tasks apply one after the other; both registries lose exactly the ids of the completed tasks |
| Engine.NotesEngine.AlarmCheck | components/context/notes-context.tsx:257-271 | the checker completes the task it closed over on a match and changes nothing otherwise |
| Engine.NotesEngine.FireTimeout | components/context/notes-context.tsx:341-354 | the earliest pending timeout fires: the clock moves to its due time, it leaves the pending list, and its update is applied; the registries are rebuilt and the effect's settings become the current ones |
| Engine.NotesEngine.Wait | components/context/notes-context.tsx:220 | time passes without any timeout falling due |
| Engine.NotesEngine.LoadTasks | components/context/notes-context.tsx:462-526 | the API list, else the migrated stored list, else the welcome card; the registries are rebuilt and the effect's settings become the current ones |
| Engine.NotesEngine.AddTask | components/context/notes-context.tsx:533-563 | the new card is appended; the registries are rebuilt and the effect's settings become the current ones |
| Engine.NotesEngine.ImportTasks | components/context/notes-context.tsx:988-1005 | a file that is not a task array changes nothing, the effect's settings included; otherwise the list becomes the migrated import, the registries are rebuilt and the effect's settings become the current ones |
| Engine.NotesEngine.ToggleTimer | components/context/notes-context.tsx:712-731 | an unknown id changes nothing, the effect's settings included; otherwise the running state flips after the start message, the registries are rebuilt and the effect's settings become the current ones |
| Engine.NotesEngine.ResetTimer | components/context/notes-context.tsx:740-767 | resets the task; a pending chain activation is left in place; the registries are rebuilt and the effect's settings become the current ones |
| Engine.NotesEngine.SetCustomTime | components/context/notes-context.tsx:769-784 | the custom-time list edit; the registries are rebuilt and the effect's settings become the current ones |
| Engine.NotesEngine.SetAlarmTime | components/context/notes-context.tsx:786-801 | the alarm-time list edit; the registries are rebuilt and the effect's settings become the current ones |
| Engine.NotesEngine.ToggleTaskMode | components/context/notes-context.tsx:803-817 | the mode-toggle list edit; the registries are rebuilt and the effect's settings become the current ones |
| Engine.NotesEngine.LinkTasks | components/context/notes-context.tsx:819-850 | a self-link is refused and changes nothing, the effect's settings included; otherwise the link edit, with the registries rebuilt and the effect's settings the current ones |
| Engine.NotesEngine.UnlinkTasks | components/context/notes-context.tsx:852-877 | the unlink edit; the registries are rebuilt and the effect's settings become the current ones |
| Engine.NotesEngine.DeleteTask | components/context/notes-context.tsx:616-657 | before the API call: cancels the id's interval, checker and chain timeout and prunes the id from every link list; reports whether the task exists; the effect registers an interval or checker for the still-listed task again exactly when it had one before |
| Engine.NotesEngine.FinishDeleteTask | components/context/notes-context.tsx:657-669 | after the API call settles, successfully or not: the task is filtered out of the list as it is by then, and its id has no interval or checker |
| Engine.NotesEngine.CancelChainTimeout | components/context/notes-context.tsx:629-633 | clears the recorded chain timeout of the id and forgets it |
| Engine.NotesEngine.ClearAllTasks | components/context/notes-context.tsx:678-689 | before the API call: clears every interval, checker and recorded chain timeout and cancels those timeouts, leaving the list as it is |
| Engine.NotesEngine.FinishClearAllTasks | components/context/notes-context.tsx:689-703 | after the API call settles, successfully or not: the list and the link records are emptied and no interval or checker is left |
| Engine.NotesEngine.GetTaskChain | components/context/notes-context.tsx:180-200 | the reachable tasks in the depth-first walk's order, then sorted stably by position: sorted and a permutation of the walk |
| Engine.NotesEngine.StartChain | components/context/notes-context.tsx:384-427 | numbers the tasks of the depth-first walk, sorted by position, resets them, and schedules the start of the first task 500 ms later; the effect's settings become the current ones |
| Engine.NotesEngine.ApplyChainStart | components/context/notes-context.tsx:389-419 | the state changes once the sorted chain is known; the registries are rebuilt and the effect's settings become the current ones |
| Engine.NotesEngine.ResetChain | components/context/notes-context.tsx:429-460 | cancels the recorded chain timeouts of the listed ids, forgets them and resets the tasks; the registries are rebuilt and the effect's settings become the current ones |
| Engine.NotesEngine.SaveTelegramSettings | components/context/notes-context.tsx:1026-1045 | stores the settings and sends the confirmation when they are complete |
| TimePicker.SelectPreset | components/time-picker-modal.tsx:37-39 | a preset is handed on unchanged |
| TimePicker.PresetsAreClockTexts | components/time-picker-modal.tsx:16-25 | the eight presets are the clock texts of their minutes and zero seconds, read back exactly by the tick |
| TimePicker.InitialMinutes | components/time-picker-modal.tsx:28-31 | the minutes field always has an initial text |
| TimePicker.InitialSecondsWithoutColon | components/time-picker-modal.tsx:32-35 | without a colon the seconds field cannot be initialised (`undefined.toString()` throws) |
| TimePicker.FieldValue | components/time-picker-modal.tsx:42-43 | the clamped field value is in `0..hi`; NaN reads as 0, and otherwise the value is the clamped parse |
| TimePicker.CustomTimeFormat | components/time-picker-modal.tsx:41-46 | the custom time is `DD:DD`, its digits are the clamped fields, and the tick reads them back |
| TimePicker.UnchangedSubmitRoundTrip | components/time-picker-modal.tsx:28-46 | opening the picker on `MM:SS` within range and submitting unchanged returns the same time |
| AdaptiveTimer.ClampPercent | components/adaptive-timer.tsx:25 | the clamp lies in 0..100 and is the identity inside it |
| AdaptiveTimer.TotalOfClockText | components/adaptive-timer.tsx:18-22 | a clock text totals its minutes times sixty plus its seconds |
| AdaptiveTimer.CalculateProgress | components/adaptive-timer.tsx:17-26 | a number is always in 0..100, and a zero configured total gives 100 |
| AdaptiveTimer.ProgressOfClockTexts | components/adaptive-timer.tsx:17-26 | on clock texts the progress is the clamped elapsed share of the configured seconds |
| AdaptiveTimer.ProgressOfTotals | components/adaptive-timer.tsx:21-25 | two texts that read as totals give the clamped share of those totals |
| AdaptiveTimer.TimerPercentEnds | components/adaptive-timer.tsx:25 | nothing has elapsed at the full time, and everything at zero |
| AdaptiveTimer.TimerPercentMonotone | components/adaptive-timer.tsx:25 | less time remaining never shows less progress |
| AdaptiveTimer.MinutesUntilInDay | components/adaptive-timer.tsx:38-41 | the wait is in `0..1439` and equals the forward difference modulo a day |
| AdaptiveTimer.CalculateAlarmProgress | components/adaptive-timer.tsx:29-46 | a number is always in 0..100; no (or an empty) alarm time gives 0 |
| AdaptiveTimer.AlarmPercentShape | components/adaptive-timer.tsx:44-45 | 100 at the alarm minute, 0 at twelve hours or more, and growing as the alarm nears |
| AdaptiveTimer.AlarmProgressOfClockText | components/adaptive-timer.tsx:29-45 | on an `HH:MM` alarm time the figure depends only on the wait from now |
| SessionStore.UpsertSpec | lib/storage-server.ts:17-27 | the first task with the id is replaced in place, or the task is appended; the length grows by at most one and `find` gets the new task |
| SessionStore.FirstWithId | lib/storage-server.ts:19 | the first position with an id is what `findIndex` and `find` return |
| SessionStore.UpsertKeepsOtherIds | lib/storage-server.ts:17-27 | upserting never changes what a lookup of another id finds |
| SessionStore.UpsertIdempotent | lib/storage-server.ts:17-27 | upserting the same task twice is upserting once |
| SessionStore.MergeSpec | lib/storage-server.ts:35-40 | the merge keeps the looked-up id; an empty update is the identity, a full one replaces all but the id, and merging twice is merging once |
| SessionStore.MergeFields | lib/storage-server.ts:36-37 | the merged task has the given id; each of the other fourteen fields keeps the task's value when the update lacks it and takes the update's when it carries it |
| SessionStore.SpliceSpec | lib/storage-server.ts:51 | `splice(i, 1)` keeps the other tasks in order, shortens by one and removes exactly `ts[i]` |
| SessionStore.TasksIn | lib/storage-server.ts:9 | a session never written has no tasks |
| SessionStore.SyncTimeIn | lib/storage-server.ts:62 | a missing sync time reads as now; otherwise it is the stored one or now |
| SessionStore.StatsOf | lib/storage-server.ts:83-87 | one row per listed session, in order, with its task count and sync time |
| SessionStore.DistinctCard | lib/storage-server.ts:75 | a list without repeats has as many entries as its set |
| SessionStore.InsertOrder | lib/storage-server.ts:13 | `Map.set` keeps the keys distinct and adds the new one |
| SessionStore.SessionTasksStore.constructor | lib/storage-server.ts:5-6 | the store starts empty |
| SessionStore.SessionTasksStore.GetTasks | lib/storage-server.ts:8-10 | the stored list, or an empty one |
| SessionStore.SessionTasksStore.GetLastSyncTime | lib/storage-server.ts:61-63 | the stored time when it is non-zero, otherwise now |
| SessionStore.SessionTasksStore.GetTaskCount | lib/storage-server.ts:65-67 | the length of the stored list, 0 for an unknown session |
| SessionStore.SessionTasksStore.FindTask | lib/storage-server.ts:69-71 | finds a task with the id exactly when the session has one |
| SessionStore.SessionTasksStore.GetSessionCount | lib/storage-server.ts:74-76 | the number of sessions, which is also the length of the key order |
| SessionStore.SessionTasksStore.GetAllSessions | lib/storage-server.ts:78-80 | every written session exactly once |
| SessionStore.SessionTasksStore.GetSessionStats | lib/storage-server.ts:82-88 | one row per session in key order, with count and last sync |
| SessionStore.SessionTasksStore.SetTasks | lib/storage-server.ts:12-15 | stores the list and stamps the session with now |
| SessionStore.SessionTasksStore.AddTask | lib/storage-server.ts:17-28 | upserts the task; afterwards `findTask` finds it, and the count grows by at most one |
| SessionStore.SessionTasksStore.UpdateTask | lib/storage-server.ts:30-44 | null and no change without the id; otherwise merges in place and keeps the id |
| SessionStore.SessionTasksStore.DeleteTask | lib/storage-server.ts:46-54 | null and no change without the id; otherwise splices the first such task out and returns it, so the count drops by one |
| SessionStore.SessionTasksStore.ClearAllTasks | lib/storage-server.ts:56-59 | the session is left empty and stamped with now |
| SessionStore.WriteIsolated | lib/storage-server.ts:12-15 | a write to one session leaves every other session's tasks and sync time as they were |

## Left out

- Floating point: JavaScript numbers become exact integers or NaN, and the two progress divisions become exact division on reals. `Number` forms other than optionally signed decimal integers (fractions, exponents, `0x`/`0o`/`0b`, `Infinity`) read as NaN.
- `String.prototype.replace` treats `$` sequences in the replacement specially; the model substitutes the title literally.
- Task fields only the interface reads (description, position, createdAt, attachments, tags, backgroundColor, lastUpdated) are not in the model. As a result, `updatePosition`, `updateTask`, `addAttachment`, `removeAttachment` and `exportTasks` (apart from the JSON round trip `ExportThenMigrate`) are not modelled.
- `Date.now()`, `new Date()`, the local hour and minute, and today's date are parameters. `Math.random()` only chooses a card colour, which is not modelled. The browser `Notification`, toasts, console output and `apiClient` calls are left out, except that API results are the arguments of `LoadTasks` and `ImportTasks`. An import that fails as a whole is the argument `None`: a file that is not JSON, a value that is not an array, or an element (such as `null`) on which the migration's `map` throws, since the `catch` then leaves the list unchanged.
- Awaiting: `deleteTask` and `clearAllTasks` are each split at their `await` into two methods, so any event may come between them. The other awaited calls are not split: a Telegram send is modelled as happening at once. The chain activations are scheduled at the time of completion, not after the send settles. React's batching of state updates is not modelled: each `setTasks` is applied when it is issued.
- Engine.NotesEngine.LoadTasks: the error path, which sets the stored records without migrating them, and the `loading` flag are left out, because a typed task cannot hold missing fields.
- Engine.NotesEngine.FireTimeout: the entry a fired timeout leaves in `chainTimeouts` stays, as in the source; an interval leaked by a duplicate id is not modelled.
- SessionStore.SessionTasksStore.AddTask: the `lastUpdated` stamp is left out, so the stored task equals the argument.
- SessionStore.SessionTasksStore.UpdateTask: an update field explicitly set to `undefined` is treated as absent, not as overwriting the field.
- SessionStore.SessionTasksStore.GetTasks: the array the source returns is the stored one itself, and edits to it alias the store; the model stores values.
- Chain.ChainProgress: `Math.round(completed / length * 100)` is computed on exact rationals, not on double-precision numbers. The two can differ where the exact figure ends in one half: for 57 of 200 tasks the exact figure is 28.5 and rounds to 29, while in doubles `57 / 200 * 100` is 28.499999999999996 and rounds to 28.
- Chain.RoundedPercent: states its bounds and its "100 iff at most one task in 200 is unfinished" on the exact rational, with the same gap from double rounding as Chain.ChainProgress.
- Chain.ProgressFull: the figure is an exact rounding of a rational; for chains of 200 or more tasks, 100 does not mean that every task completed, and double rounding can move a figure that ends in one half down by one.
