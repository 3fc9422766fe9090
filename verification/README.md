# A verified model of Qoraal

Qoraal is a C framework for embedded systems: tasks, services and threads, a watchdog, locks,
logs in memory that survive a reset, and the small libraries they rest on. This project models
its algorithms and protocols in Dafny and proves what they keep. Nothing was executed.

Code that works in place is modelled in place: the ring of words of the cyclic queue, the
intrusive lists and the buckets of the dictionary as heap objects, the character buffers of the
paths and of the string substitution as arrays. Each such method is proved against a function
of the old state, and the theorems are about that function. Protocols of several threads are
state machines whose steps are the sections under one lock, and the theorems are about every run.

| module | what it models |
|---|---|
| `CyclicQueueSpec`, `CyclicQueue`, `CyclicQueueCheck` | the ring allocator with a doubly linked queue through it, and its validator over memory in any state |
| `MemLog` | the log in such a queue: eviction of the oldest records, iterators by type |
| `TaskMachine`, `TaskInvariants`, `TaskTiming`, `TaskEffects` | the task scheduler as a state machine, its invariants, its 32-bit ticks against the true time, and what each call does for its caller |
| `Lists`, `Tasks` | the intrusive lists, and the scheduler on them, a refinement of the state machine |
| `DictionarySpec`, `Dictionary`, `SortedWalk`, `DictionaryIter`, `DictionaryMove` | the hash dictionary as a map, its sorted iterator, and moving the entries of one table to another |
| `PathSpec`, `PathLaws`, `Paths`, `Wildcard` | the path normaliser, the current directory and the wildcard matcher of the Zephyr port |
| `Calendar` | day numbers, dates and Unix time |
| `StrSub`, `StrSubLaws` | string substitution into a bounded buffer, and what it makes of each piece of a text |
| `MLock` | the recursive lock, for any number of threads and locks |
| `WatchdogMachine`, `WatchdogRuns`, `WatchdogPace`, `Watchdog` | the watchdog's timeout groups, and how soon a silent handler is noticed |
| `Services`, `ServiceLaws` | services, their threads and the reaping of these |
| `Common` | what several of these share |

## Findings

Where the code does not keep what one would expect of it, the code is modelled as it is; a run or
an input shows the failure, and a condition says when the code does keep it.

| what fails | where | shown by | holds exactly if |
|---|---|---|---|
| The timer list is not always sorted by deadline: after a task was left unreleased for 2^31 ticks, a task with a later deadline goes before it. | src/svc/svc_tasks.c:496-500 | `TaskTiming.LateHeadIsOvertaken` | no waiting task due by then is, modulo 2^32, at least 2^31 ticks before the new one (`TaskTiming.SortedExactly`) |
| A timer event does not always release a due task: one that is looked at more than 2^31 ticks late stays, and the timer is set for the time at which the ticks have wrapped around. | src/svc/svc_tasks.c:326-346 | `TaskTiming.OverdueHeadWaits` | each due task is, modulo 2^32, at most 2^31 ticks late when it is looked at (`TaskTiming.EventReleasesDueExactly`) |
| A canceled call does not always get its own parameter: it goes through 32 bits. | src/svc/svc_tasks.c:552,609 | `TaskTiming.CanceledParameterIsCut` | the parameter is below 2^32 (`TaskTiming.OutcomesOverRuns`) |
| The expansion of a text is not always terminated: a buffer that is just full, or of the size that was asked for, is not. | src/common/strsub.c:198-222 | `StrSub.Unterminated` | the buffer is at least two characters longer than the expansion, it has one character only, or its last one was NUL before (`StrSub.ParseStringTo`) |
| The holder of a lock does not always run at the lock's ceiling: the priority a thread saved is never cleared. | src/os_mlock.c:145-151,195-200 | `MLock.HolderBelowCeiling`, `MLock.NeverRaisedAgain` | the thread had no priority saved when it passed the raise, or was at the ceiling then (`MLock.HolderAtCeilingExactly`) |
| Registering a watchdog handle that is registered already may lose other handlers: its link is cleared while it is in the list. | src/svc/svc_wdt.c:125-141 | `WatchdogRuns.CutOff` | the handle is the last one of its group (`WatchdogRuns.RegisterAgainCuts`) |
| A service may be marked stopped while its thread is live, or have two: a control function that calls a service stopped and accepts its start, while a reaped thread has not completed, lets it start too early. | src/svc/svc_services.c:186-198,415-506 | `Services.HarmfulIsReached`, `Services.HarmfulStartBreaks`, `Services.HarmfulStartEndsStopped` | no start meets a service with a control function, a run function, no thread and a status other than stopped, whose control function answers so (`Services.StartKeepsExactly`, `Services.InvOverRunsExactly`) |
| Moving every entry to another table may leave one entry in both: after the last entry of a chain has moved, the iterator keeps the entry before it as its `prev` in the next bucket. | src/common/dictionary.c:670-699 | `DictionaryMove.MoveThree`, on the table of `DictionaryMove.ThreeEntries` | no bucket of which an entry stays has its last one move right before the first one of the next bucket moves (`DictionaryMove.MoveAll`) |
| Replacing a present key does not always store the value: a shorter one leaves the end of the old one, and a longer one does not fit the memory of the entry. | src/common/dictionary.c:385-393 | `Dictionary.CopiedOverTwo` | the key is absent, or the value is as long as the one the key was installed with; all bytes go into the entry's memory if it is no longer (`Dictionary.Table.Replace`) |

## Model

| member | source | states |
|---|---|---|
| Wildcard.MatchSimple | src/qfs_zephyr.c:350-361 | The matcher, which goes back to the last star only, accepts exactly the names that the pattern means: `*` any run of characters, `?` any one. It always ends. |
| Wildcard.StarStep | src/qfs_zephyr.c:350-361 | Meeting a new star, the matcher may forget the one before it: what both restarts together can still match, the new one can. |
| Wildcard.RestartReaches | src/qfs_zephyr.c:350-361 | Whatever a later restart at the old star can match is matched by some later restart at the new one. |
| Wildcard.CharactersMean | src/qfs_zephyr.c:350-361 | What each character of a pattern stands for: `?` one character, `*` any run, any other one itself. |
| Wildcard.OneAndAny | src/qfs_zephyr.c:350-361 | `?` matches exactly the texts of one character, `*` all. |
| PathSpec.NormalizeIsNormal | src/qfs_zephyr.c:40-104 | Every result is the root followed by proper segments: no empty one, no `.` and no `..`. |
| PathSpec.NormalizeIsIdempotent | src/qfs_zephyr.c:40-104 | Normalizing a normalized path again changes nothing. |
| PathSpec.ParentsClampAtRoot | src/qfs_zephyr.c:71-81 | As many `..` as there are segments, or more, lead to the root and not above it. |
| PathSpec.SegmentsOfJoin | src/qfs_zephyr.c:54-64 | The segments of two texts joined by a slash are those of the first and then those of the second. |
| PathSpec.RelativeIsFold | src/qfs_zephyr.c:106-134 | Resolving a relative path from a normal directory folds its segments over that directory's own; one error code says that a path on the way is too long, the other that the result does not fit the caller's buffer. |
| PathSpec.ResolveInTwoSteps | src/qfs_zephyr.c:106-134 | Resolving `a/b` is resolving `b` from where `a` leads, whenever the joined texts fit. |
| PathSpec.ResolveFailsInTwoSteps | src/qfs_zephyr.c:106-134 | Where `a` leads nowhere `a/b` fails with the same code. |
| PathSpec.CwdStaysNormal | src/qfs_zephyr.c:309-324 | The current directory is in normal form after any sequence of changes, whatever the file system answers. |
| PathLaws.ParentOf | src/qfs_zephyr.c:71-81 | A path with `..` behind it normalizes to the path without its last segment. |
| PathLaws.SameAs | src/qfs_zephyr.c:56-69 | A path with `.`, or slashes too many, behind it normalizes to the path. |
| PathLaws.ChildOf | src/qfs_zephyr.c:83-104 | A path with one more segment is its own result, is refused with one code at 256 characters, and with another if it does not fit the caller's buffer. |
| PathLaws.TooLongOnTheWay | src/qfs_zephyr.c:83-93 | A path that reaches 256 characters on the way is refused, whatever follows. |
| PathLaws.NotRooted | src/qfs_zephyr.c:40-44 | An absolute path outside the root is refused. |
| PathLaws.AbsoluteIsFromRoot | src/qfs_zephyr.c:115-134 | An absolute path resolves, from any current directory, as what follows the root does from the root. |
| PathLaws.NormalResolves | src/qfs_zephyr.c:106-134 | A path in normal form resolves to itself from everywhere; the empty path to the current directory. |
| PathLaws.TooLong | src/qfs_zephyr.c:119-122 | A relative path that does not fit behind the current directory is refused with a code of its own. |
| PathLaws.LongIsCut | src/qfs_zephyr.c:108-118 | What is too long for the caller's buffer otherwise is cut. |
| PathLaws.ChangeToParent | src/qfs_zephyr.c:309-324 | Changing to `..` goes up by one segment if that is a directory, and nowhere if it is a file or cannot be found, with the code for each. |
| PathLaws.ChangeToChild | src/qfs_zephyr.c:309-324 | Changing to a directory in the current one appends its name. |
| Paths.NormalizePath | src/qfs_zephyr.c:40-104 | The in-place algorithm on the buffer gives the fold over segments, or its error with the path unchanged. |
| Paths.Walk | src/qfs_zephyr.c:54-93 | The loop over the bytes leaves in the buffer the path that the fold of the segments gives, and gives up exactly if a path on the way does not fit. |
| Paths.PopSegment | src/qfs_zephyr.c:71-81 | Going back byte by byte leaves the path of the stack without its last segment, and the root of an empty one. |
| Paths.PushSegment | src/qfs_zephyr.c:83-92 | A segment is appended exactly if the longer path and its terminator fit. |
| Paths.Cwd.MakePathInto | src/qfs_zephyr.c:106-134 | The buffer holds the absolute normal path, or the code says why not. |
| Paths.Cwd.ChangeDir | src/qfs_zephyr.c:309-324 | The current directory changes exactly if the path resolves and is a directory, and is in normal form afterwards. |
| Calendar.JDayCountsDays | src/common/rtclib.c:291-304 | The day number grows by exactly one from each day of the calendar to the next, under the leap rule. |
| Calendar.JDayIsIncreasing | src/common/rtclib.c:291-304 | Day numbers order dates as year, month and day do. |
| Calendar.JDayIsInjective | src/common/rtclib.c:291-304 | Two dates with the same day number are the same date. |
| Calendar.DayOfNumber | src/common/rtclib.c:291-304 | Every number from that of 1 January of the year 1 to that of the last representable day is the number of a date. |
| Calendar.GDateOfJDay | src/common/rtclib.c:319-340 | The date of the day number of a valid date is that date, in 32-bit arithmetic. |
| Calendar.JDayOfGDate | src/common/rtclib.c:319-340 | The date of a day number is valid, and its day number is that number. |
| Calendar.GetGDate | src/common/rtclib.c:319-340 | The sequence of assignments computes the function that the two lemmas before are about. |
| Calendar.Localtime | src/common/rtclib.c:46-61 | The date is the day that many whole days after 1 January 1970, and the time that many seconds into it. |
| Calendar.MktimeOfLocaltime | src/common/rtclib.c:46-78 | A date and time that belong to a 32-bit timestamp give that timestamp back. |
| Calendar.LocaltimeThenMktime | src/common/rtclib.c:46-78 | The round trip of every 32-bit timestamp. |
| Calendar.CompareAgreesWithDiff | src/common/rtclib.c:200-275 | Comparing two dates field by field and subtracting their day numbers agree in sign. |
| Calendar.DaysDiffCounts | src/common/rtclib.c:200-207 | The difference is none to the same date, one to the next, and adds up. |
| Calendar.KnownTime | src/common/rtclib.c:64-78 | The second 1000000000 is where it is known to be. |
| CyclicQueueSpec.LayoutApart | src/common/cbuffer.c:81-157 | Two live items never overlap, wrapped ring or not. |
| CyclicQueueSpec.EmptyLayout | src/common/cbuffer.c:135-157 | There is no live item exactly if read and write are equal, and both are at the start then. |
| CyclicQueueSpec.EnqueueStep | src/common/cbuffer.c:184-211 | Carving out, zeroing and linking an item keeps the tiling and the list, extends the queue by a zeroed payload, and changes no payload in it. |
| CyclicQueueSpec.DequeueStep | src/common/cbuffer.c:214-243 | Unlinking and filling over the oldest item, in each of the wrap cases, keeps the tiling and the list of the others and every one of their payloads. |
| CyclicQueue.Queue.Init | src/common/cbuffer.c:172-181 | On memory in any state: an empty valid queue, every word filled. |
| CyclicQueueSpec.PlaceExactly | src/common/cbuffer.c:81-122 | A block is placed if and only if there is a free spot for it in one piece, behind the newest item or at the start of the buffer: inside the buffer, apart from every live item, and not up to the read position. The spot behind the newest item is preferred. |
| CyclicQueue.Queue.Alloc | src/common/cbuffer.c:81-122 | The block of that placement, zeroed, or nothing changed. |
| CyclicQueue.Queue.Free | src/common/cbuffer.c:135-157 | Which words are filled over in each of the wrap cases, and the reset of a ring that gets empty. |
| CyclicQueue.Queue.Enqueue | src/common/cbuffer.c:184-211 | A new newest item if and only if there is such a free spot; the payloads are the old ones and a zeroed one, and on failure the queue is the old one. |
| CyclicQueue.Queue.Dequeue | src/common/cbuffer.c:214-243 | The oldest item leaves, its size is returned, and the other payloads stay in order; nothing happens to an empty queue or one without its magic. |
| CyclicQueue.Queue.Store | src/common/cbuffer.c:184-211 | What a caller writes through the data pointer of an item is in that payload, and in no other. |
| CyclicQueue.Queue.EndsOfQueue | src/common/cbuffer.c:263-300 | Front is the newest item and back the oldest, or nothing. |
| CyclicQueue.Queue.StepsFrom | src/common/cbuffer.c:314-343 | Forwards leads to the next newer item and backwards to the next older. |
| CyclicQueue.Queue.LiveItemsAreApart | src/common/cbuffer.c:81-243 | In a valid queue live items are apart and inside the buffer, and it is empty exactly if read and write are at the start. |
| CyclicQueue.Queue.ValidateItem | src/common/cbuffer.c:359-411 | On any memory: accepts exactly an item in range with its magic, a size that fits and neighbours that link back to it. |
| CyclicQueueCheck.ForwardIsReversible | src/common/cbuffer.c:450-527 | On any memory, the backward walk meets the items of a complete forward walk in reverse. |
| CyclicQueueCheck.CompleteWalkIsDistinct | src/common/cbuffer.c:450-527 | On any memory, no item comes twice on a complete forward walk. |
| CyclicQueueCheck.EqualWalksAreSound | src/common/cbuffer.c:428-527 | Two complete walks of equal length are a sound doubly linked list of distinct items in range. |
| CyclicQueueCheck.SoundListIs | src/common/cbuffer.c:359-527 | In words of the memory: each item of a sound list is in range with its size and magic, its links name the next and the one before, and those of the queue the first and the last. |
| CyclicQueueCheck.LiveItemOk | src/common/cbuffer.c:359-411 | Every live item of a valid queue passes the checks. |
| CyclicQueueCheck.WalkIsQueueOrder | src/common/cbuffer.c:428-527 | On a valid queue every walk meets the live items in their order. |
| CyclicQueue.Queue.Validate | src/common/cbuffer.c:428-527 | Sound on any memory: if it accepts a queue whose `next` is not itself, there is a list of `count` distinct items in range that the backward walk reverses. Complete: a valid queue passes, keeps its count and stays valid. Both walks end. |
| MemLog.Log.Reserve | src/common/mlog.c:137-141 | Records leave, the oldest first, only while there is no free spot for the item, at most 11 in all; without success all did, or 11. |
| MemLog.Log.Append | src/common/mlog.c:119-168 | The log is the longest suffix of the old one that leaves a free spot for the record, followed by it if it was stored; the shared counter grows exactly then. |
| MemLog.Log.RecordTells | src/common/mlog.c:142-154 | Each field of a stored record is what was asked for, with the counter and the text, and a mask finds the record if and only if it is zero or shares a bit with its type. |
| MemLog.ShareBitExactly | src/common/mlog.c:305-331 | The test of the type is whether the two masks have a binary digit in common. |
| MemLog.Log.RoomInEmptyRing | src/common/mlog.c:138-141 | A drained queue has room for every item that is no larger than the buffer. |
| MemLog.ListingIsComplete | src/common/mlog.c:305-393 | Stepping to older matches lists exactly the matching records, newest first. |
| MemLog.ListingIsCounted | src/common/mlog.c:274-393 | ... and as many as are counted. |
| MemLog.Log.IteratorFirst | src/common/mlog.c:305-331 | The newest matching record, or nothing. |
| MemLog.Log.IteratorLast | src/common/mlog.c:334-362 | The oldest matching record, or nothing. |
| MemLog.Log.IteratorPrev | src/common/mlog.c:365-393 | From a record the next older matching one. |
| MemLog.Log.IteratorNext | src/common/mlog.c:396-424 | From a record the next newer matching one. |
| MemLog.Log.ReadBackwards | src/common/mlog.c:305-393 | A reader that goes from first by prev to the end visits the items of the listing, in its order. |
| MemLog.Log.CountOf | src/common/mlog.c:274-302 | The count is the number of matching records and the length of the listing. |
| MemLog.Log.Get | src/common/mlog.c:182-207 | The record with so many newer ones after it, or nothing. |
| Lists.Linked.constructor | include/qoraal/common/lists.h:276-281 | The empty list. |
| Lists.Linked.AddHead | include/qoraal/common/lists_inline.h:82-92 | The objects are the new one and then the old ones; head, tail and links represent them. |
| Lists.Linked.AddTail | include/qoraal/common/lists_inline.h:112-129 | The objects are the old ones and then the new one. |
| Lists.Linked.AddNext | include/qoraal/common/lists_inline.h:132-143 | The new object stands behind the given one, and is the tail if that was. |
| Lists.Linked.RemoveHead | include/qoraal/common/lists_inline.h:146-154 | The first object leaves, if there is one. |
| Lists.Linked.RemoveNext | include/qoraal/common/lists_inline.h:157-169 | The object behind the given one leaves, if there is one; the tail is corrected. |
| Lists.Linked.Remove | include/qoraal/common/lists_inline.h:172-200 | The object leaves from wherever it is; the result says whether it was in the list. |
| TaskInvariants.StepKeeps | src/svc/svc_tasks.c:295-658 | In every step: a task is complete, queued or active; it is in exactly one list, once, exactly if it is queued, and if that is a ready queue it is that of its priority; both counters are the lengths of the lists; the history has one outcome for each accepted call. |
| TaskInvariants.TaskEventKeeps | src/svc/svc_tasks.c:312-356 | Releasing due tasks, for any readings of the clock, keeps that invariant, also while a task is in flight between two lists. |
| TaskInvariants.QueuedInItsQueue | src/svc/svc_tasks.c:544-590 | A queued task that is not in the timer list is in the ready queue of its priority: the assertion in the cancellation holds. |
| TaskInvariants.UnbrokenBalances | src/svc/svc_tasks.c:359-658 | Acceptances and outcomes alternate, so they differ by the open call. |
| TaskInvariants.OutcomeOfOpen | src/svc/svc_tasks.c:359-658 | Every outcome is that of the call open then: a run unchanged, a cancellation exactly if the parameter is below 2^32. |
| TaskTiming.EventReleasesDue | src/svc/svc_tasks.c:312-356 | A timer event releases exactly the tasks whose true deadline has come, in order, to the ends of their queues, and sets the timer to the deadline of the next one. |
| TaskTiming.EventReleasesDueExactly | src/svc/svc_tasks.c:312-356 | For tasks however late: a timer event does that if and only if no due task is, modulo 2^32, more than 2^31 ticks late when it is looked at. |
| TaskTiming.OverdueHeadWaits | src/svc/svc_tasks.c:312-356 | A run from the start after which an overdue task waits and the timer is armed 2^32 ticks after its deadline. |
| TaskTiming.ScheduledInOrder | src/svc/svc_tasks.c:458-541 | Comparing wrapped ticks puts a new task at its place by true deadline, behind equal ones, while delay and lateness of the head stay below 2^31. |
| TaskTiming.SortedExactly | src/svc/svc_tasks.c:493-505 | For tasks however late: the list stays sorted by true deadline if and only if no task due by then seems, in 32 bits, to be due later. |
| TaskTiming.SortedInWindow | src/svc/svc_tasks.c:493-505 | That condition follows if delay and lateness of the head stay below 2^31. |
| TaskTiming.LateHeadIsOvertaken | src/svc/svc_tasks.c:493-505 | Two schedules from the start, 2^31 ticks apart, after which the later deadline is the head. |
| TaskTiming.StepIsTimely | src/svc/svc_tasks.c:312-541 | Every step in time keeps the list sorted by true deadline, and a timer event pending or the timer armed no later than the head. |
| TaskTiming.InitialIsGood | src/svc/svc_tasks.c:175-188 | The state after initialization meets both invariants. |
| TaskTiming.InvOverRuns | src/svc/svc_tasks.c:295-658 | The invariant of lists, statuses and counters holds after every run, whatever the clock does. |
| TaskTiming.TimelyOverRuns | src/svc/svc_tasks.c:312-541 | Over every run whose steps are in time no wakeup is lost and the list is sorted by true deadline. |
| TaskTiming.ConservationOverRuns | src/svc/svc_tasks.c:359-658 | Over every run the accepted calls of a task are its runs, its cancellations, and one more if it is queued. |
| TaskTiming.OutcomesOverRuns | src/svc/svc_tasks.c:359-658 | Over every run each outcome belongs to the accepted call open then; a canceled one carries it unchanged if and only if its parameter is below 2^32. |
| TaskTiming.CanceledParameterIsCut | src/svc/svc_tasks.c:544-658 | A run that schedules and cancels a call with a parameter above 2^32 ends with another parameter. |
| TaskEffects.ScheduledFor | src/svc/svc_tasks.c:458-541 | A task scheduled with ticks gets the deadline now plus these ticks, or 0x7FFFFFFE for the longest ones, its call and priority; the acceptance is recorded, and no other task is changed. |
| TaskEffects.ScheduledAt | src/svc/svc_tasks.c:487-510 | Its place in the timer list is that of its true deadline, and the others keep their order. |
| TaskEffects.ScheduledThen | src/svc/svc_tasks.c:507-540 | First of all, it sets the timer to its deadline; behind others a set timer stays, and without one the due tasks are released. |
| TaskEffects.ScheduledAtOnce | src/svc/svc_tasks.c:433-479 | Without ticks the task goes to the end of the ready queue of its priority, or of the last one, at once. |
| TaskEffects.QueuedIsBusy | src/svc/svc_tasks.c:433-541 | Scheduling a queued task changes nothing. |
| TaskEffects.RunsHead | src/svc/svc_tasks.c:359-418 | A service of a queue runs its first task with its call, makes it active, and changes nothing else. |
| TaskEffects.CompletesActive | src/svc/svc_tasks.c:421-430 | A task that ran is complete then; no other is changed. |
| TaskEffects.CancelEnds | src/svc/svc_tasks.c:594-658 | A queued task is complete then, in no list, with its cancellation recorded; one that is not queued stays as it is, and so does every other task. |
| TaskEffects.CancelBehind | src/svc/svc_tasks.c:594-658 | Canceled behind others it leaves the timer list, and nothing else happens. |
| TaskEffects.CancelFirst | src/svc/svc_tasks.c:594-658 | Canceled as the first, the due tasks are released, and the timer is set for the next. |
| TaskEffects.CancelOfReady | src/svc/svc_tasks.c:544-590 | Canceled from its ready queue, the others keep their order there, and the due tasks are released. |
| TaskEffects.FireThenHandle | src/svc/svc_tasks.c:75-79 | The timer expires once, its event is pending until it is handled, and then exactly the due tasks are released. |
| TaskEffects.StepKeepsOrder | src/svc/svc_tasks.c:295-658 | In every step tasks enter a ready queue at its end only, and leave it at its head or canceled. |
| TaskEffects.RunsInTurn | src/svc/svc_tasks.c:295-658 | Over every run a ready task with k others before it has run once its queue was served more than k times, unless it was canceled. |
| TaskEffects.WaitsUntilDue | src/svc/svc_tasks.c:312-658 | Over every run in time that ends before its deadline a waiting task that is not canceled waits. |
| TaskEffects.NoEarlyRun | src/svc/svc_tasks.c:312-658 | Over every run in time a call accepted with d ticks at the time c is not run by a step that ends before c + d. |
| Tasks.Scheduler.constructor | src/svc/svc_tasks.c:175-188 | Empty lists and idle tasks are the initial state of the machine. |
| Tasks.Scheduler.ToReady | src/svc/svc_tasks.c:295-309 | On the linked lists: what the machine's step to the ready queue says. |
| Tasks.Scheduler.TaskEvent | src/svc/svc_tasks.c:312-356 | On the linked lists: the release of due tasks and the setting of the timer. |
| Tasks.Scheduler.ServiceTask | src/svc/svc_tasks.c:359-418 | The machine's run step; the call handed to the task's function is that of the head of the queue. |
| Tasks.Scheduler.Complete | src/svc/svc_tasks.c:421-430 | The machine's completion step. |
| Tasks.Scheduler.Add | src/svc/svc_tasks.c:433-454 | The machine's state and the status code, for an idle and for a queued task. |
| Tasks.Scheduler.FindPlace | src/svc/svc_tasks.c:493-505 | The search loop finds the place behind which the ticks say that the task belongs. |
| Tasks.Scheduler.Schedule | src/svc/svc_tasks.c:458-541 | The machine's schedule step for every delay, and the status code. |
| Tasks.Scheduler.CancelReady | src/svc/svc_tasks.c:544-590 | Taking a queued task from its ready queue, and its callback with the cancellation. |
| Tasks.Scheduler.Cancel | src/svc/svc_tasks.c:594-658 | The machine's cancel step for a task that waits, is ready, runs or is idle; busy exactly if it is active. |
| Tasks.Scheduler.HandleEvent | src/svc/svc_tasks.c:312-356 | The machine's step for a pending timer event. |
| Tasks.Scheduler.Expire | src/svc/svc_tasks.c:75-79 | The one-shot timer is used up and its event pending. |
| DictionarySpec.LookupIsMap | src/common/dictionary.c:280-290 | Searching the one bucket of the key's hash finds what the map has. |
| DictionarySpec.InsertIsUpdate | src/common/dictionary.c:367-382 | A new entry in front of its bucket keeps keys unique and entries in their buckets, and updates the map. |
| DictionarySpec.RemoveIsMinus | src/common/dictionary.c:256-276 | An entry that leaves its bucket takes exactly its key from the map. |
| DictionarySpec.SetIsUpdate | src/common/dictionary.c:385-393 | A value written in place updates the map at that key only. |
| DictionarySpec.SizeIsMapSize | src/common/dictionary.c:628-631 | The sum of the chain lengths is the number of keys. |
| Dictionary.Table.constructor | src/common/dictionary.c:293-363 | The empty map. |
| Dictionary.Table.Search | src/common/dictionary.c:280-290 | The loop over the linked chain ends at the entry with the key, or at none. |
| Dictionary.Table.InstallSize | src/common/dictionary.c:367-382 | A present key is found and nothing changes; an absent one gets memory from the allocator, or nothing changes if there is none. |
| Dictionary.Table.Replace | src/common/dictionary.c:385-393 | A new key gets the value. In the memory of a present one the value replaces the beginning, up to its end; the map has the value if and only if the lengths agree or the key is new, and every byte goes into that memory if and only if the value is no longer. |
| Dictionary.CopiedExactly | src/common/dictionary.c:385-393 | A copy onto a value keeps its length, and gives what was copied exactly for equal lengths. |
| Dictionary.CopiedOverTwo | src/common/dictionary.c:385-393 | A shorter and a longer value that replacing does not store. |
| Dictionary.Table.LookupOrAdd | src/common/dictionary.c:397-415 | An absent key gets the value; a present one keeps its own. |
| Dictionary.Table.Get | src/common/dictionary.c:419-422 | What the map has. |
| Dictionary.Table.Remove | src/common/dictionary.c:256-276 | The map without the key; the result says whether it was there. |
| Dictionary.Table.RemoveAll | src/common/dictionary.c:439-464 | The empty map and a count of zero. |
| Dictionary.Table.CountIsMapSize | src/common/dictionary.c:628-631 | The count is the number of keys. |
| SortedWalk.FirstIsLeast | src/common/dictionary.c:498-524 | For any total preorder, first is the entry before all others in the order of the comparator, ties in the order of the table. |
| SortedWalk.NextIsSuccessor | src/common/dictionary.c:528-570 | For any total preorder, next is the least of the entries still to be given. |
| SortedWalk.LaterShrinks | src/common/dictionary.c:528-570 | Each step leaves fewer entries: the walk ends. |
| SortedWalk.WalkSortsStably | src/common/dictionary.c:498-570 | Without a unique collection the walk is a stable sort of the table, each entry exactly once. |
| SortedWalk.WalkGivesClasses | src/common/dictionary.c:498-570 | With a unique collection it gives the first entry of each class and no other, strictly ascending. |
| DictionaryIter.Cursor.RawNext | src/common/dictionary.c:473-495 | The plain step goes to the next entry of the chain or of a later bucket, keeps the entry before it, and ends after the last. |
| DictionaryIter.Cursor.First | src/common/dictionary.c:498-524 | The scan of the linked table ends at the entry that the theory of the walk calls first. |
| DictionaryIter.Cursor.Next | src/common/dictionary.c:528-570 | The two scans end at the entry that it calls next. |
| DictionaryIter.ReadSorted | src/common/dictionary.c:498-570 | A reader that goes from first by next to the end visits the entries of that walk, in its order. |
| DictionaryIter.Cursor.Move | src/common/dictionary.c:670-699 | An entry goes to the other table exactly if that one has no such key; the tables stay whole exactly if it stays or `prev` is the entry before it; the iterator stands at what was behind it, in the same bucket or first in a later one. If not, the entry heads a bucket of both tables. |
| DictionaryMove.PrevAfterMove | src/common/dictionary.c:687-694 | After a move `prev` is the entry before the next one if and only if the moved one had none before it or the next one is in the same bucket. |
| DictionaryMove.MoveAll | src/common/dictionary.c:670-699 | For any two tables: they stay whole if and only if the walk has no trap, that is no first entry of a bucket that moves right after the last of a bucket of which one stays. Then the one keeps the entries whose keys the other has, and the other has the union, its own values first. Otherwise one entry heads a bucket of both. |
| DictionaryMove.MoveAllDisjoint | src/common/dictionary.c:670-699 | Without common keys the one ends empty and the other with the union. |
| DictionaryMove.DisjointHasNoTrap | src/common/dictionary.c:670-699 | Where no entry stays there is no trap. |
| DictionaryMove.TrapOfThree | src/common/dictionary.c:670-699 | Two entries of a bucket, the first of which stays, and one of a later bucket make a trap. |
| DictionaryMove.MoveThree | src/common/dictionary.c:670-699 | Moving three such entries ends with an entry in both tables. |
| DictionaryMove.WholeIsNotEntangled | src/common/dictionary.c:670-699 | Two whole tables that share nothing have no entry that heads a bucket of both. |
| StrSub.EscapedExpandsToItself | src/common/strsub.c:90-205 | Text whose escape and opening characters were escaped expands to itself, and no word in it is found. |
| StrSub.ExpandInPieces | src/common/strsub.c:90-205 | A text that ends outside words and escapes expands independently of what follows it. |
| StrSubLaws.KnownWord | src/common/strsub.c:112-196 | A closed word becomes what the first handler that knows it gives, and counts as one. |
| StrSubLaws.UnknownWord | src/common/strsub.c:112-196 | A closed word that no handler knows stays, with its delimiters. |
| StrSubLaws.OneCharacter | src/common/strsub.c:112-148 | An escaped character, and one without a meaning, stands for itself. |
| StrSubLaws.Dropped | src/common/strsub.c:90-205 | What is opened and never closed is dropped, and so is an escape character at the end. |
| StrSubLaws.UnknownStays | src/common/strsub.c:90-205 | A complete text without escapes of which no word is known expands to itself. |
| StrSub.Turn | src/common/strsub.c:104-196 | One turn of the state machine gives out exactly what the rest of the expansion begins with. |
| StrSub.Parse | src/common/strsub.c:90-205 | The buffer gets the longest beginning of the unbounded expansion that fits before its last character, nothing is written past it, and the words are counted. |
| StrSub.Emit | src/common/strsub.c:215-235 | A piece is cut to what fits; only a full buffer refuses. |
| StrSub.ParseStringTo | src/common/strsub.c:263-277 | The first characters of the expansion, and exactly when they are terminated. |
| StrSub.GetDstLength | src/common/strsub.c:238-260 | The length of the expansion and one, or an error exactly if no word is known. |
| StrSub.ExpandSized | src/common/strsub.c:238-277 | A buffer of that size loses no text. |
| StrSub.Unterminated | src/common/strsub.c:198-222 | An input whose expansion is not terminated. |
| MLock.StepKeeps | src/os_mlock.c:128-264 | Every step of every thread keeps the invariant of owner, counters, semaphore and places. |
| MLock.InvOverRuns | src/os_mlock.c:128-264 | ... and so does every interleaving. |
| MLock.MutualExclusion | src/os_mlock.c:128-264 | After every interleaving at most one thread is inside a lock or has its semaphore. |
| MLock.OwnerAndCounters | src/os_mlock.c:128-264 | The owner is exactly the thread inside, so the recursive path is taken exactly by the holder; the lock's count is its nesting depth, and a thread's own counter is the number of locks it is inside. |
| MLock.WaitsForAnother | src/os_mlock.c:128-170 | A thread that cannot go on waits for another thread that has the lock, never for itself. |
| MLock.LockOfFree | src/os_mlock.c:128-170 | The lock of a free lock, run on alone among any other threads, ends inside it. |
| MLock.TryOfFree | src/os_mlock.c:218-264 | So does a trylock, ... |
| MLock.TryOfTaken | src/os_mlock.c:218-264 | ... and one of a lock that another thread has changes nothing. |
| MLock.EntersAgain | src/os_mlock.c:128-264 | Both, of a lock that the thread is inside, end one deeper. |
| MLock.UnlockLeaves | src/os_mlock.c:173-215 | An unlock leaves by one, and the last one frees the lock. |
| MLock.PrioKept | src/os_mlock.c:128-264 | While a thread that saved its priority waits for a lock, comes in or is inside, no step of any thread changes its priority. |
| MLock.HolderAtCeilingExactly | src/os_mlock.c:128-264 | Over every interleaving, while a thread that passed the raise waits for the lock, comes in and is inside, it is at the ceiling if and only if it had no priority saved before or was at the ceiling then. |
| MLock.NeverRaisedAgain | src/os_mlock.c:145-200 | Over every interleaving a thread that saved its priority and has it again never rises above it. |
| MLock.HolderBelowCeiling | src/os_mlock.c:128-215 | A run of lock, unlock and lock after which the thread is inside with its own priority, for any ceiling. |
| WatchdogRuns.ProcessKeeps | src/svc/svc_wdt.c:247-294 | A pass over a group keeps the flags in step with the missed kicks, and withholds exactly if an active handler was missed twice in a row. |
| WatchdogRuns.TickKicksExactly | src/svc/svc_wdt.c:297-335 | A tick kicks the hardware if and only if no group it passed over has such a handler. |
| WatchdogRuns.InvOverRuns | src/svc/svc_wdt.c:125-335 | The flags are in step with the missed kicks over every run. |
| WatchdogRuns.SilentHandlerWithholds | src/svc/svc_wdt.c:182-335 | Over every run an active handler left alone withholds the kick in the third pass of its group and at every later tick. |
| WatchdogRuns.WithheldIsPassedAgain | src/svc/svc_wdt.c:297-335 | A group that withholds is passed over again at every tick, whatever the counter says. |
| WatchdogRuns.DiligenceKicks | src/svc/svc_wdt.c:182-335 | Over every run in which no active handler is missed twice in a row every tick kicks. |
| WatchdogRuns.RegisterAgainCuts | src/svc/svc_wdt.c:125-141 | Registering a handle again keeps the others of its group if and only if it was the last. |
| WatchdogRuns.CutOff | src/svc/svc_wdt.c:125-141 | Any handler behind it is lost. |
| WatchdogPace.PassesCounted | src/svc/svc_wdt.c:297-335 | Over every run in which each tick kicks, at a constant interval, the group of 10 seconds is passed at every tick, and those of 30 and 60 seconds as often as the counter goes through a multiple of 30 / interval and 60 / interval. |
| WatchdogPace.SilentIsCaught | src/svc/svc_wdt.c:182-335 | An active handler left alone makes a tick withhold the kick within 3 ticks, 3 * (30 / interval) or 3 * (60 / interval), by its group. |
| WatchdogPace.StepCounts | src/svc/svc_wdt.c:297-335 | A tick counts; a kick sets the interval that the hardware returns, and no other call changes the two. |
| WatchdogPace.CallsSetFlags | src/svc/svc_wdt.c:182-233 | The four flags after an activation, a deactivation and a kick, bit by bit. |
| WatchdogPace.CallsSetGroup | src/svc/svc_wdt.c:125-161 | Registering puts a new handle in front of its group without flags; unregistering takes it out and keeps the order of the others. |
| WatchdogPace.AgesOverRuns | src/svc/svc_wdt.c:125-335 | Over every run the flags of an active handler tell how many passes it has seen since it was kicked or activated. |
| WatchdogPace.TickKicksByAge | src/svc/svc_wdt.c:182-335 | After every run from the start a tick kicks the hardware if and only if every active handler of the groups it passes has seen at most one pass since its last kick or activation. |
| Watchdog.Monitor.Pass | src/svc/svc_wdt.c:247-294 | The flags of one handler after a pass, and whether it withholds. |
| Watchdog.Monitor.Process | src/svc/svc_wdt.c:247-294 | The loop over the handlers does the machine's pass. |
| Watchdog.Monitor.TaskCallback | src/svc/svc_wdt.c:297-335 | The callback does the machine's tick. |
| Watchdog.Monitor.Activate | src/svc/svc_wdt.c:182-191 | The machine's activation. |
| Watchdog.Monitor.Deactivate | src/svc/svc_wdt.c:201-215 | The machine's deactivation. |
| Watchdog.Monitor.Kick | src/svc/svc_wdt.c:218-233 | The machine's kick. |
| Watchdog.Monitor.Register | src/svc/svc_wdt.c:125-141 | The machine's registration, also of a handle that is in the group. |
| Watchdog.Monitor.Unregister | src/svc/svc_wdt.c:152-161 | The machine's removal from a group. |
| Services.StartKeepsExactly | src/svc/svc_services.c:415-550 | A start, with any answers of the control function, keeps the invariant if and only if it does no harm. |
| Services.HarmfulIsAwaiting | src/svc/svc_services.c:415-506 | A start does harm exactly if it is answered so while the completion of a reaped thread is to come. |
| Services.CreateKeeps | src/svc/svc_threads.c:116-145 | So does the creation of its thread, whether it succeeds or not. |
| Services.BeginKeeps | src/svc/svc_services.c:217-244 | ... the thread's beginning, |
| Services.EndKeeps | src/svc/svc_threads.c:158-193 | ... its end, |
| Services.ReapKeeps | src/svc/svc_threads.c:196-234 | ... its reaping by any thread, |
| Services.CompleteKeeps | src/svc/svc_services.c:201-213 | ... its completion callback, which may come later, |
| Services.StopKeeps | src/svc/svc_services.c:565-645 | ... and a stop, accepted or not. |
| Services.InvOverRunsExactly | src/svc/svc_services.c:186-645 | The invariant holds all along an interleaving if and only if no start on it does harm. |
| Services.ThreadsOverRuns | src/svc/svc_services.c:186-645 | After every interleaving without such a start a service has at most one thread from its creation to its completion; while no start of it is under way its thread object is taken exactly while the thread is in one of the two lists, and if it is stopped it has no thread that is live or awaits completion. |
| Services.HarmfulIsReached | src/svc/svc_services.c:186-645 | A run from the start, harmless so far, after which such a start is possible. |
| Services.HarmfulStartBreaks | src/svc/svc_services.c:415-550 | From any state a start that does harm breaks that promise before it is over, whether its thread can be created or not. |
| Services.HarmfulStartEndsStopped | src/svc/svc_services.c:186-550 | Where it can, the late completion marks the service stopped while the new thread is live. |
| ServiceLaws.Started | src/svc/svc_services.c:415-550 | An accepted start of a stopped service makes it starting with one thread to begin, or leaves it stopped if there can be none; no other service is changed. |
| ServiceLaws.NothingDone | src/svc/svc_services.c:415-645 | A refused start, one of a service not seen as stopped or with a thread, and a stop of one not seen as running change nothing. |
| ServiceLaws.WithoutThread | src/svc/svc_services.c:415-645 | A service without a run function is started and stopped at once. |
| ServiceLaws.Stopping | src/svc/svc_services.c:565-645 | A stop of a running service ends in stopping if it is accepted, and in started if not. |
| ServiceLaws.Begun | src/svc/svc_services.c:217-244 | The beginning of the thread marks the service started. |
| ServiceLaws.ThreadEnds | src/svc/svc_threads.c:158-193 | A thread that ends goes from the running ones to the front of those to be reaped. |
| ServiceLaws.ThreadReaped | src/svc/svc_threads.c:196-234 | The first of these is reaped, and its object is free. |
| ServiceLaws.ThreadCompletes | src/svc/svc_services.c:201-213 | The completion marks the service stopped. |
| ServiceLaws.FullCycle | src/svc/svc_services.c:201-645 | From start to completion a service is starting, started and stopping, and then the whole state is what it was. |

## Left out

- The ports to other kernels (src/os.c, src/os_posix.c, src/os_zephyr.c, src/qfs_posix.c): semaphores, mutexes, timers and the file system are what their callers rely on, and the file system's answers are parameters.
- Console, shell, file commands, logger and memory debugging: input, output and user interface.
- Memory allocation: an answer of the allocator is a parameter where it can fail.
- The formatting of a log message and the trimming of its line ends: the formatted text is a parameter of `MemLog.Log.Append`; `mlog_init` and the locks of the iterators are not modelled.
- The size of an item header is any number of words of at least three; memory is a sequence of words, and an address is an index.
- CyclicQueue.Queue.Enqueue: is stated for a size that with its header stays below 2^31 words, beyond which the size field of the header would not hold it.
- CyclicQueue.Queue.Validate: does not say that the read and write positions agree with the items, nor anything of `prev` when `next` is the queue itself, because the code does not check either.
- The recovery of `linked_add_tail` from a list with a head and no tail: no operation leaves one.
- The stack primitives of the watchdog's lists are sequences, not linked objects; what a second registration does to the list is modelled on the sequence.
- Waitable tasks, the signal that wakes the pool's threads, and the priorities of these threads.
- Tasks.Scheduler.Cancel: calls the callback within the step, because the interleaving of the callback after the unlock with other calls for the same task is not modelled; so is the setting of the timer after the unlock in a schedule.
- The bodies of callbacks, handlers and service functions.
- `rtc_seconds_diff` and the additions to a time: past midnight the first one adds more than a day, and they have no part in dates.
- `dictionary_it_remove` after sorted iteration and `dictionary_it_at`: the sorted iterator does not keep the entry before it.
- DictionaryMove.MoveAll: ends at the first step that leaves an entry in both tables, because from there on they are no tables; what the source's loop does on them is not modelled. Tables of different key types, between which nothing moves, are left out.
- Dictionary.Table.Replace: does not say what the bytes beyond the memory of an entry overwrite.
- The particular hash functions and key formats: the hash is any function with values below the table size, and keys are compared for equality.
- StrSub.ParseStringTo: is for a destination of at least one character; a length of zero wraps around to no limit at all in the source.
- A null text for the string substitution and the rule by which a length of zero stands for the whole text: the text is what is read.
- Handlers of the string substitution that answer in several pieces: a handler gives one replacement or none.
- Watchdog.Monitor.Register: is not for a handle that is in another group, whose two lists would join; the interval is 1 to 30 seconds, by which the code divides 30.
- WatchdogPace.PassesCounted: is stated before the 32-bit counter wraps around, where a group may be passed out of turn because 30 / interval need not divide 2^32.
- The messages of the watchdog and the times they report.
- Services.StartKeepsExactly: the control function is asked for the status twice in a start, and is taken to answer the same both times.
- Service notifications, exit statuses, the handlers told of changes, and starting or halting all services; waiting with a timeout for a start or stop.
- Creating and deleting locks; unlocking by a thread that does not hold the lock, against which the code asserts.
