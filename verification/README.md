# Verified model of ucmon

ucmon is a terminal system monitor for small Linux boards. Most of it reads files and draws text, but behind
the screen run a handful of stateful protocols and algorithms, and this project models those in Dafny and
proves what they promise, over whole runs and for all inputs. `dafny verify dfyconfig.toml` checks everything.

| file | subject |
|---|---|
| `AlertEngine.dfy` | the flap-damped alert engine: announcements, clears, the bounded log, the banner |
| `OomTracker.dfy` | OOM kills from a cumulative counter, and which victims belong to which kill |
| `OomAlerts.dfy` | those kills through to their alerts: which are announced, and when |
| `KernelLog.dfy` | kernel-log events grouped per device, composed with the alert engine |
| `Trend.dfy` | windowed series, rates and times to a target |
| `Exporter.dfy` | the metrics exporter's single-flight cache, as interleaved scrapes and collections |
| `InFlight.dfy` | the guards that keep one fetch of a kind outstanding, and the kernel-log descriptor's life |
| `Signal.dfy`, `DetailOverlay.dfy` | signals and process details against PIDs that the kernel may recycle |
| `ProcTree.dfy` | the process tree listing |
| `Kmsg.dfy` | lines recovered from a stream that arrives in arbitrary pieces |
| `Glob.dfy` | greedy matching of patterns with any number of stars |
| `Checksum.dfy` | the internet checksum of section 1 of RFC 1071, and the ping that carries it |
| `Ansi.dfy` | truncating text that holds escape sequences, UTF-8 and garbage |
| `TempLabels.dfy` | making sensor labels unique |
| `Backlight.dfy` | brightness percents against a panel's raw steps |
| `Strings.dfy`, `Decimal.dfy`, `Wrappers.dfy` | operations on strings and sequences, decimal numerals, optional values |

Code that changes fields is a class here too, and each method is proved equal to a function of the old state;
the lemmas are then about those functions, over sequences of inputs of any length. Concurrency is a state
machine whose steps interleave in every order. Go's map iteration is an arbitrary choice, so results hold for
every order. Floats are exact reals or integers, times are integer nanoseconds, and a Go width that can
overflow (`uint32` in the checksum, `uint64` in the OOM counts, `int64` durations) is written out.

## What the proofs found

- **Startup doubles fetches.** The guards promise one outstanding fetch of a kind. `Init` dispatches without
  raising them, and its comment argues that the replies land before the first guarded tick. For the CPU,
  memory, pressure and network fetches that tick is the first one, and it can put a second one in flight; for
  every other kind `Init` dispatches some later tick can, if the reply is slow enough (`StartupDoubles`). It is
  never more than two (`StartupNeverTriples`). From any state the promise holds for a dispatchable kind exactly
  when no outstanding command is unknown to its guard (`AtMostOneIff`). The overlay's own fetch is outside the
  guard, and outstanding ones are unbounded (`DetailIsUnguarded`).
- **Framing is exact up to the buffer length, and not beyond.** The kernel-log reader hands on the same lines
  for every way the stream can be cut up if and only if no completed line is longer than the buffer
  (`FramingExactIff`). A longer line loses its head whenever it arrives slowly enough.
- **A falling OOM counter repeats a key.** Alert keys are counter values, so a counter that falls and climbs
  back can give two kills on the list one key, and both claim the same victim (`FallingCounterSharesVictim`).
  Over any run the keys stay apart exactly when no reading raises a kill under the key of one still on the list;
  log lines never clash (`KeysDistinctThroughoutIff`). Two kills name a common victim exactly when they share a
  key and some listed victim belongs to it (`ShareVictimIff`). A counter that never falls never clashes.
- **A kill can be silent.** Each kill has its own key so that a second one raises while the first is still shown.
  A tick that shows a kill announces it exactly when no kill with that key was shown at any of the last
  `clearTicks` ticks (`KillIsAnnouncedIff`); `SecondKillIsSilent` is a run with a falling counter, two kills and
  one announcement. While the counter never falls, each kill that some tick shows is announced exactly once, by
  the first such tick, and cleared at most once (`KillIsAnnouncedOnce`, `EveryKillIsAnnouncedOnce`).
- **Brightness.** Reading back a percent after setting it gives that percent for all of 0 to 100 exactly when
  the panel has at least 100 steps (`ReadsBackIff`). On fewer steps "+" can stay where it is for ever:
  `UpSticksIff` says from which raw values, and `DownSticksIff` does for "-". On the uConsole's nine steps the
  default of 10 percent always climbs, 6 does too (`SixClimbsNine`), and 5 is stuck at raw value 1. "-" leaves
  raw value 1 only when the step covers the percent that value reads as (`DownFromOneIff`); with nine steps and
  10 percent it does not.
- **A late reading undoes key presses.** The keys count from the percent just set until a reading lands, and
  that reading may have been taken before the latest presses. While readings are up to date each key moves the
  brightness its own way or not at all (`KeysMoveTheirWay`), and "+" reaches full exactly when the step climbs
  everywhere (`ReachesFullIff`). After a late reading the next "+" can lower the brightness and the next "-"
  raise it: `LateReadingLowersIff` and `LateReadingRaisesIff` say exactly when, on every panel; from 100 steps up
  it is when the reading is more than a step behind a percent just set (`LateReadingOnFinePanel`). "+" can be
  turned round like this on every panel that one step from dark does not light fully (`LateReadingsLowerIff`),
  "-" on every panel unless the step is 100 percent (`LateReadingsRaiseIff`). On the uConsole's nine steps with
  the default step it takes three presses (`ThreePressesOnNine`).
- **Exporter staleness.** The comment on `snapshot` says readings are no older than the minimum interval. The
  code gives that on the cached path, measured from when a collection was published. After a wait it gives it
  exactly when some collection was published within the interval before the return (`RecentAnswerIff`). A
  scrape that times out while its collection still runs gets `errNoSnapshot` if it waited for the first, and
  otherwise the snapshot before, at least 13 seconds old: it had expired when the collection started, and the
  whole wait has passed since (`TimedOutAnswerIff`). Every age from there up occurs (`LateAgesIff`). The model
  follows the code.
- **The plain-kill fallback can miss.** With a known start time, a signal through a pidfd reaches the picked
  process or none; without a pidfd it reaches the picked process exactly when that is still there at the
  moment of the kill (`SignalProc`, `FallbackCanMiss`).

## Model

| member | source | states |
|---|---|---|
| `Alerts.AlertEngine.Update` | internal/ui/alerts.go:92-147 | in any map order, afterwards the active set, every key's own event stream and the log are those the inputs since creation determine; the returned events are exactly the ones recorded |
| `Alerts.AlertEngine.Push` | internal/ui/alerts.go:85-90 | the log is always the newest `cap` recorded entries |
| `Alerts.AlertEngine.constructor` | internal/ui/alerts.go:75-83 | the capacity is at least 16 and the damping at least one update |
| `Alerts.AlertEngine.ClearLog` | internal/ui/alerts.go:188-190 | only the log is emptied; active conditions stand |
| `Alerts.AlertEngine.Summary` | internal/ui/alerts.go:148-170 | the banner is a top condition by severity then text, whatever order the map is walked in |
| `Alerts.BannerHeadsTheList` | internal/ui/alerts.go:148-186 | the banner's condition is the first of any sorted list of the active ones |
| `Alerts.TopMeans` | internal/ui/alerts.go:148-170 | while any condition is critical the banner is, and among its equals none has a text that sorts before it |
| `Alerts.AnnouncedStateInvariant` | internal/ui/alerts.go:92-145 | over every run a key's events are announcements of changing severity ended by a CLEAR that carries the announced severity, repeated; and the active severity is always the one last announced and not cleared |
| `Alerts.StandingIff` | internal/ui/alerts.go:95-139 | from the inputs alone: the severity announced last is critical if and only if since the last critical report the key was never absent `clearTicks` times in a row nor present as a warning `clearTicks` times, and nothing stands if and only if the key was absent that long or always |
| `Alerts.CritIsAnnounced` | internal/ui/alerts.go:95-126 | an update that reports a key as critical leaves critical announced |
| `Alerts.WarnIsAnnounced` | internal/ui/alerts.go:95-126 | warning is announced for a key that is not cleared once it has been a warning `clearTicks` times since it was last critical, or never was |
| `Alerts.NewestEventIs` | internal/ui/alerts.go:95-145 | an update emits an event if and only if what stands changes; it carries the update's time, an announcement the reported severity and text, a CLEAR the latest text reported with the severity that stood |
| `Alerts.ActiveText` | internal/ui/alerts.go:95-126 | an active condition shows the text last reported with its severity |
| `Alerts.ActiveIffSeenRecently` | internal/ui/alerts.go:128-139 | a key is active exactly when it was present within the last `clearTicks` updates |
| `Alerts.ClearIffAbsencesComplete` | internal/ui/alerts.go:128-139 | a CLEAR is emitted exactly in the update that completes `clearTicks` consecutive absences of a key seen before |
| `Alerts.ReleasesArePaidFor` | internal/ui/alerts.go:106-139 | every CLEAR and every de-escalation has used up `clearTicks` updates that no other one used |
| `Alerts.EventsPerRelease` | internal/ui/alerts.go:95-139 | between releases a key can only escalate: at most three events per CLEAR or de-escalation, and two more standing |
| `Alerts.FlappingBound` | internal/ui/alerts.go:92-139 | one key emits at most 3·⌊N/clearTicks⌋+2 events in N updates, whatever its condition does |
| `Oom.OomTracker.Observe` | internal/ui/oom.go:45-59 | the tracker is what the readings and log lines so far determine, a falling counter being a new baseline |
| `Oom.OomTracker.AddVictim` | internal/ui/oom.go:74-87 | likewise for a log line, which becomes an event only where there is no counter |
| `Oom.ReadingRaises` | internal/ui/oom.go:45-59 | the newest event after a rise of a primed counter is the rise, at its time and under the new count; any other reading raises none |
| `Oom.LineRaises` | internal/ui/oom.go:74-87 | a log line is the newest victim, and without a counter the newest event, of one process under a key of its own |
| `Oom.OomTracker.Prune` | internal/ui/oom.go:61-72 | the events left are those inside the window, the newest 32 of them |
| `Oom.PrunedIs` | internal/ui/oom.go:61-72 | by positions: exactly the events younger than the window, and of those the last 32, in order |
| `Oom.OomTracker.Named` | internal/ui/oom.go:89-111 | names exactly the first n victims whose nearest kill has this kill's key, in order |
| `Oom.NamedIff` | internal/ui/oom.go:89-111 | a victim is named if and only if it belongs to the kill and fewer than n before it do, so as many are named as belong, up to n |
| `Oom.FindNearest` | internal/ui/oom.go:96-105 | the nearest event under 10 s away, the first of equals, or none |
| `Oom.OomTracker.Conds` | internal/ui/oom.go:113-136 | adds the condition of every kill inside the window, with the names attributed to it, and nothing else |
| `Oom.TextTells` | internal/ui/oom.go:116-136 | the text of a kill's condition contains every attributed name, how many more there were, and the time |
| `Oom.VictimIsNamed` | internal/ui/oom.go:89-136 | so a victim that belongs to a kill in view, with room left, appears in its condition by command and PID |
| `Oom.CondsAreInView` | internal/ui/oom.go:116-136 | there is a condition for exactly the keys of kills inside the window, and it is critical |
| `Oom.EachKillHasItsCondition` | internal/ui/oom.go:113-136 | while keys are distinct each such kill has a condition of its own that names its own victims |
| `Oom.SessionConserved` | internal/ui/oom.go:49-87 | the session count is the counter's positive increments since the baseline plus the kills only the log reported, modulo 2^64 |
| `Oom.ListsBounded` | internal/ui/oom.go:61-81 | events and victims never exceed 32, however long the run and however wide the window |
| `Oom.KillsKeepTheirKeys` | internal/ui/oom.go:49-87 | while the counter never falls, no two kills on the list share a key |
| `Oom.KeysDiffer` | internal/ui/oom.go:53-84 | different kills, counted or logged, make different keys |
| `Oom.KeysDistinctThroughoutIff` | internal/ui/oom.go:49-87 | over any run of readings and log lines the listed kills have different keys at every moment if and only if no reading raises a kill whose key one still on the list has |
| `Oom.NeverFallsNeverClashes` | internal/ui/oom.go:49-59 | a counter that never falls never does |
| `Oom.LogLineKeepsDistinct` | internal/ui/oom.go:77-87 | a log line never does, whatever the counter did |
| `Oom.AttributionIsSound` | internal/ui/oom.go:89-111 | while no reading clashes, two kills never name the same victim, a kill names at most as many as it took, and each one named is within 10 s of it with no kill closer |
| `Oom.ShareVictimIff` | internal/ui/oom.go:89-111 | in any run two kills name a common victim if and only if they have one key and some listed victim belongs to it |
| `Oom.KeysStayDistinctIff` | internal/ui/oom.go:49-72 | one reading makes two listed kills share a key if and only if the kill it raises takes the key of one that pruning leaves on the list |
| `Oom.FallingCounterSharesVictim` | internal/ui/oom.go:54-57 | a run with a falling counter in which two kills do name the same victim |
| `Oom.NeverFallsRaisesOnce` | internal/ui/oom.go:49-87 | while the counter never falls no key is raised a second time |
| `OomAlerts.AnnouncedIff` | internal/ui/alerts.go:95-139 | an update announces an always-critical key if and only if it shows it and none of the last `clearTicks` updates did |
| `OomAlerts.KillIsAnnouncedIff` | internal/ui/oom.go:113-136 | tracker and engine composed: a tick that shows a kill announces it if and only if no kill with its key was shown at any of the last `clearTicks` ticks |
| `OomAlerts.KillIsAnnouncedOnce` | internal/ui/oom.go:113-136 | over any run, a key that one input raises is announced if and only if some tick shows it: once, critical, by the first such tick, and cleared at most once |
| `OomAlerts.EveryKillIsAnnouncedOnce` | internal/ui/oom.go:113-136 | so for every key while the counter never falls |
| `OomAlerts.SecondKillIsSilent` | internal/ui/oom.go:54-57 | a run with a falling counter, two kills on the list and one announcement |
| `KernelLog.KernelLog.Observe` | internal/ui/kernlog.go:67-106 | groups, tallies and expiry after a batch of events, in any map order |
| `KernelLog.KernelLog.Conds` | internal/ui/kernlog.go:108-134 | one condition per group still inside the window, warning for under-voltage and critical for storage errors |
| `KernelLog.RunKeepsDiskInv` | internal/ui/kernlog.go:70-106 | over every run a disk's group, if any, is its own, ends at its last recorded error, and is missing only when that error has aged out |
| `KernelLog.SteadyCritIsOneEvent` | internal/ui/alerts.go:95-139 | a condition absent up to some update and critical in every later one makes one announcement and no CLEAR |
| `KernelLog.FloodIsOneAlert` | internal/ui/kernlog.go:67-134 | if the last error is inside the window at every tick, any number of errors on a disk yields exactly one critical RAISE and no CLEAR from the alert engine |
| `KernelLog.GroupCountConserved` | internal/ui/kernlog.go:82-101 | a group's count is the errors of the disk's current episode, and never exceeds its session tally |
| `KernelLog.GroupIsEpisode` | internal/ui/kernlog.go:67-106 | over every run the group of a disk or of the supply is there if and only if its current episode is not empty, and has the episode's first device and time, last time and length; an episode ends when its last event has aged out |
| `KernelLog.GroupsAreSources` | internal/ui/kernlog.go:67-106 | and there are no other groups |
| `KernelLog.ConditionIs` | internal/ui/kernlog.go:108-134 | so a disk or the supply has a condition if and only if its last event of the episode is inside the window: critical or a warning, and described by first and last time and count |
| `KernelLog.TalliesAreSession` | internal/ui/kernlog.go:70-92 | the session tallies and last times are the number and the last of all accepted events, expired or not |
| `Trend.WithReading` | internal/ui/trend.go:83-101 | the loop over stale points keeps what the window rule says, one point behind the cut |
| `Trend.TrendTracker.Observe` | internal/ui/trend.go:75-101 | only the observed key's series changes |
| `Trend.ObservedIs` | internal/ui/trend.go:75-101 | what that series is: the new reading alone after a gap, and otherwise a tail of the old one and the new reading, cut so that exactly one point is older than the window if any was |
| `Trend.SpansAre` | internal/ui/trend.go:14-51 | the windows and minimum spans: 10 and 5 minutes for the battery, 3 and 1.5 for temperatures, 2 minutes and 45 seconds for the rest |
| `Trend.TrendTracker.Evict` | internal/ui/trend.go:103-114 | in any map order, exactly the series unobserved for longer than their window go |
| `Trend.SweptSeries` | internal/ui/trend.go:103-114 | an evicted series is one that its next reading would have started over |
| `Trend.ObserveKeepsWindow` | internal/ui/trend.go:75-101 | for times that do not fall a series stays sorted, without gaps over the window, with all but its first point inside the window, ending in the new reading |
| `Trend.RunInWindow` | internal/ui/trend.go:75-114 | so after every reading of a run, however evictions and resets fall between the readings; and the series is the one the readings since the last reset would have made without any eviction |
| `Trend.SpanBounded` | internal/ui/trend.go:92-101 | such a series spans at most two windows |
| `Trend.DroppedMeansCovered` | internal/ui/trend.go:92-101 | once a point has been dropped the series spans the whole window |
| `Trend.RateFromThenOn` | internal/ui/trend.go:116-129 | from then on, until a gap restarts the series, a rate is always available |
| `Trend.TrendTracker.SustainedRate` | internal/ui/trend.go:131-158 | succeeds exactly when the rate does, with the slower of the whole and the recent slope |
| `Trend.RateIs` | internal/ui/trend.go:116-129 | the rate leads from the first reading to the last at so much an hour of 3.6·10^12 nanoseconds, and there is one if and only if two readings span the minimum |
| `Trend.SustainedIs` | internal/ui/trend.go:131-158 | the sustained rate is the gentler of that and of the rate that leads from the base reading to the last |
| `Trend.SustainedProperties` | internal/ui/trend.go:131-158 | the sustained rate never exceeds the rate, and its base is the latest point at or before the midpoint |
| `Trend.TrendTracker.EtaTo` | internal/ui/trend.go:160-180 | succeeds exactly when, at the current rate, current + rate·hours is the target for some hours above 0 and at most 1e5; the answer is that time in nanoseconds and fits an int64 |
| `Trend.MeetingTime` | internal/ui/trend.go:168-176 | the time at which the line meets the target is unique, and is in the future exactly when the reading moves toward the target |
| `Exporter.Exporter.EnterSnapshot` | internal/ui/exporter.go:56-76 | the first critical section, as the transition the state machine uses |
| `Exporter.Exporter.PublishCollection` | internal/ui/exporter.go:66-72 | the collector's critical section |
| `Exporter.Exporter.FinishSnapshot` | internal/ui/exporter.go:86-91 | the second critical section of a scrape |
| `Exporter.StepKeepsInv` | internal/ui/exporter.go:48-91 | every step of every interleaving of scrapes, collector, clock, timeouts and cancellations keeps the invariant |
| `Exporter.AtMostOneCollection` | internal/ui/exporter.go:63-76 | in every reachable state at most one collection is running, and `running` is set exactly from its launch to its publish |
| `Exporter.ArrivalIs` | internal/ui/exporter.go:56-76 | in every run an arriving scrape is answered at once with the latest snapshot if and only if one was published in the last 5 s, and otherwise waits for the running collection, which it starts if and only if none is |
| `Exporter.ReleasedScrapeIsServed` | internal/ui/exporter.go:48-91 | a scrape released by the collection never gets `errNoSnapshot` and is answered with that collection or a newer one, published after it arrived; an answer from the cache was published less than the minimum interval ago |
| `Exporter.TimedOutAnswerIff` | internal/ui/exporter.go:37-91 | in any run a timed-out scrape gets less than it waited for if and only if that collection is unpublished when it returns; then it gets `errNoSnapshot` exactly if it waited for the first, and otherwise the collection before, at least the interval and the wait together old |
| `Exporter.RecentAnswerIff` | internal/ui/exporter.go:48-55 | a scrape that waited returns readings within the interval if and only if some collection was published within it before the return |
| `Exporter.TimedOutAnswerOfAnyAge` | internal/ui/exporter.go:37-91 | for every age from the interval and the wait together up, a run in which a scrape times out and is answered with readings that old |
| `Exporter.LateAgesIff` | internal/ui/exporter.go:37-91 | and no other age occurs while the collection waited for is still running |
| `Exporter.LaunchesSpaced` | internal/ui/exporter.go:15-18 | the n-th later launch is at least n intervals later |
| `Exporter.LaunchesInSpan` | internal/ui/exporter.go:15-18 | a span of time T sees at most ⌊T/5s⌋+1 launches |
| `InFlight.Model.Queue` | internal/ui/behind.go:69-86 | a collision counts as lateness and dispatches nothing, a disabled fetch is neither, a dispatch raises the guard and forgets the lateness |
| `InFlight.Model.QueueUser` | internal/ui/behind.go:88-103 | the same guard without any lateness accounting |
| `InFlight.Model.Done` | internal/ui/behind.go:106-106 | only that kind's guard falls |
| `InFlight.Model.Tick` | internal/ui/model.go:747-790 | a tick dispatches its fetches in order through the guards: all that are due or, while paused, only the OOM count and the kernel log |
| `InFlight.TickIs` | internal/ui/model.go:747-790 | for each kind: whether the tick tries it, from the pause, the two periods, the ping setting, the overlay and the descriptor; and what trying it does to its guard, its lateness and the commands |
| `InFlight.BrightnessKeyIs` | internal/ui/model.go:2920-2941 | a brightness key refreshes the system data through its guard and does nothing else to the fetches |
| `InFlight.KillKeyIs` | internal/ui/model.go:1004-1011 | a confirmed kill refreshes the processes through their guard and an open overlay past its own |
| `InFlight.Model.HandleKmsg` | internal/ui/kernlog.go:175-195 | guard, error count and descriptor after a reply; the descriptor is closed on the fifth failure in a row |
| `InFlight.StepExcess` | internal/ui/model.go:747-1011 | for every message and every guarded kind, no step adds an outstanding command that the guard does not know of |
| `InFlight.AtMostOneOutstanding` | internal/ui/behind.go:69-106 | with no such command to begin with, at most one command of a kind is ever outstanding and its guard is up exactly while there is one |
| `InFlight.OutstandingBound` | internal/ui/behind.go:69-106 | from any start the outstanding commands never exceed the initial excess plus one |
| `InFlight.AtMostOneIff` | internal/ui/model.go:747-790 | for every kind that some tick dispatches the promise holds over all runs if and only if the excess is zero |
| `InFlight.StartupExcess` | internal/ui/model.go:413-435 | `Init` leaves an excess of one for exactly the kinds it dispatches |
| `InFlight.StartupDoubles` | internal/ui/model.go:413-435 | for every kind `Init` dispatches some run has two outstanding, and for the CPU, memory, pressure and network fetches the first tick does it |
| `InFlight.StartupNeverTriples` | internal/ui/model.go:413-435 | no run from startup has a third, and none a second of a kind `Init` leaves out |
| `InFlight.DetailIsUnguarded` | internal/ui/detail.go:59-100 | from any state and for every n some run ends with n more detail fetches outstanding: nothing bounds them |
| `InFlight.DescriptorLifetime` | internal/ui/kernlog.go:43-65 | in every run from startup every outstanding read is of the open descriptor, it is closed exactly once five replies in a row have failed, and no nil descriptor is ever closed |
| `InFlight.ClosedOnFifthFailure` | internal/ui/kernlog.go:187-194 | the step that closes it delivers a fifth consecutive failure and leaves no read outstanding |
| `Signal.Kernel.SignalProc` | internal/probe/procs.go:493-530 | with the machine free to run between any two system calls: at most one signal, none on error; with a known start time it reaches through a pidfd the picked process and no other, and by plain kill the picked process exactly when that is still there; a process that lives through the call is signalled wherever pidfds work or are missing and the caller may signal it; one gone at the start is reported gone, and "gone" is only said of a process that is gone |
| `Signal.Kernel.CheckStart` | internal/probe/procs.go:478-491 | with a known start time it passes exactly when that process holds the PID and can be read, and otherwise a readable one is reported gone |
| `Signal.Kernel.GetProcDetail` | internal/probe/procs.go:412-456 | a detail that carries a start time mixes no two processes, and a process that lives through the call is always described |
| `Signal.EnvironmentEvolves` | internal/probe/procs.go:493-498 | what the proofs assume of the rest of the machine covers every sequence of exits and PID-recycling spawns |
| `Signal.FallbackCanMiss` | internal/probe/procs.go:508-516 | on any process table, for a process that passes the check and any newcomer, there are an exit and a recycling after which the plain kill reaches the newcomer and nothing else |
| `DetailOverlay.ProcDetailState.Apply` | internal/ui/detail.go:39-57 | the overlay is always what its start time and the replies so far determine |
| `DetailOverlay.ProcDetailState.ActionKey` | internal/ui/detail.go:72-111 | over any replies a key acts on the one process all of them were about, with its start time, and on nothing once a reply failed or named another |
| `DetailOverlay.KnownTarget` | internal/ui/detail.go:39-111 | for an overlay opened on a known process that process is exactly (PID, start) until the first reply that fails or names another start time |
| `DetailOverlay.GoneIff` | internal/ui/detail.go:39-57 | over any replies the overlay still acts on its process exactly when all succeeded and none named another start time than the first one known |
| `DetailOverlay.OverlayIs` | internal/ui/detail.go:39-57 | the overlay shows the last of the longest run of replies from one process, has that process's start time, is loaded if there was any and gone if more came |
| `DetailOverlay.TargetIsFixed` | internal/ui/detail.go:43-57 | once the start time is known every later request carries it, and a gone overlay stays frozen |
| `DetailOverlay.ShownIsTarget` | internal/ui/detail.go:39-57 | the data shown came from the process the overlay acts on, or its start time could not be read |
| `ProcTree.BeforeTotal` | internal/ui/model.go:2076-2103 | in every sort mode two processes with different PIDs are ordered strictly one way |
| `ProcTree.SliceStableSorts` | internal/ui/model.go:2076-2103 | sorting puts any arrangement of the processes in that order |
| `ProcTree.SortingIsUnique` | internal/ui/model.go:2077-2079 | and there is only one such arrangement, so the order of the process list cannot matter |
| `ProcTree.FileByParent` | internal/ui/model.go:2109-2122 | every process is filed under its parent, or with the roots if its parent is not listed or is itself |
| `ProcTree.TreeWalk.Walk` | internal/ui/model.go:2131-2157 | the recursive walk adds the rows of one tree, as far as the cap allows, and the visited set never gets in the way |
| `ProcTree.ComputeProcsTree` | internal/ui/model.go:2105-2161 | the result is the first rows, as many as configured or 200, of the forest's preorder, a function of the set of processes alone |
| `ProcTree.SiblingsAreInFieldOrder` | internal/ui/model.go:2076-2103 | rows of one parent, or roots, never rise in CPU, memory or the sum of both I/O rates, never fall in name, and rise in PID where those are equal or the mode is PID |
| `ProcTree.ListedIff` | internal/ui/model.go:2105-2161 | without the cap a process is listed, once, exactly when its PPID chain reaches a root |
| `ProcTree.ListedIffChain` | internal/ui/model.go:2105-2161 | the same from the fields alone: exactly when a chain of PPIDs leads from it to a process whose parent is itself or not listed |
| `ProcTree.ListingTellsTheTree` | internal/ui/model.go:2131-2157 | a prefix is three runes per level, drawn with bars under the ancestors that have later siblings; a row's parent is the nearest earlier row with a prefix three runes shorter; siblings are in sort order |
| `ProcTree.PrefixesInFields` | internal/ui/model.go:2131-2157 | a root has no prefix; any other row has its parent's, the branch replaced by blanks under a last child and a bar under any other, and then its own branch, an elbow for the last child and a tee for any other |
| `Kmsg.KmsgWatcher.Read` | internal/probe/kmsg.go:206-258 | drains at most the per-call limit, stops on catching up or an error, skips lost records and interrupts, and returns the events of exactly the lines completed in this call, those before an error included |
| `Kmsg.ClassifiedIs` | internal/probe/kmsg.go:238-255 | those events are the values the classifier gives, one for each line it recognises and in line order |
| `Kmsg.CarryBounded` | internal/probe/kmsg.go:227-237 | for every stream and every split the carry is at most the buffer long and holds no newline |
| `Kmsg.FramingIsExact` | internal/probe/kmsg.go:226-240 | when the completed lines fit the buffer, the lines handed on are the lines of the stream for every split into reads and every grouping into calls |
| `Kmsg.ByteByByteCrops` | internal/probe/kmsg.go:226-237 | a stream that arrives a byte at a time hands on each line cropped to its last buffer-length bytes |
| `Kmsg.FramingExactIff` | internal/probe/kmsg.go:226-240 | framing is exact for all splits if and only if every completed line fits the buffer |
| `Glob.GlobMatch` | internal/config/ignore.go:26-50 | true exactly when the text matches with each star standing for any string |
| `Glob.MatchesIsExpansion` | internal/config/ignore.go:26-29 | that meaning is filling in the stars with some strings |
| `Glob.GreedyStep` | internal/config/ignore.go:43-49 | taking the leftmost occurrence of a middle part neither loses nor invents a match |
| `Checksum.IcmpChecksum` | internal/probe/latency.go:217-230 | for every buffer the complement of the folded `uint32` sum, and up to 131074 bytes the complement of the one's-complement sum |
| `Checksum.OverflowFreeIff` | internal/probe/latency.go:219-225 | no buffer of a length overflows the accumulator if and only if that length is at most 131074 |
| `Checksum.FoldStep` | internal/probe/latency.go:226-228 | a fold makes the sum smaller and keeps its one's-complement value |
| `Checksum.ResidueIsOnesSum` | internal/probe/latency.go:219-229 | adding up first and folding later is one's-complement addition word by word |
| `Checksum.EchoRequest` | internal/probe/latency.go:177-182 | the request is a type 8, sequence 1 packet with its payload, and its words sum to 0xffff |
| `Checksum.StoredChecksumVerifies` | internal/probe/latency.go:177-182 | storing the checksum big-endian in any zeroed even-offset field makes the checksum of the buffer zero |
| `Ansi.SkipEscape` | internal/ui/table.go:118-158 | where an escape sequence ends: CSI at its final byte, OSC at BEL or ST, others after two bytes, unterminated ones at the end of the text |
| `Ansi.EncodingIsRune` | internal/ui/table.go:160-166 | the UTF-8 encoding of any scalar value, whatever follows it, is one rune |
| `Ansi.RuneIsEncoding` | internal/ui/table.go:160-166 | and every rune is the encoding of a scalar value |
| `Ansi.TokensOfPieces` | internal/ui/table.go:117-166 | a text put together from characters, ESC [ parameters final, ESC ] text BEL or ST, and ESC with one byte has exactly those as its tokens |
| `Ansi.AnsiSafeTruncate` | internal/ui/table.go:110-178 | the one-pass loop equals keeping whole tokens until a rune does not fit, on every byte string |
| `Ansi.TruncatePieces` | internal/ui/table.go:110-178 | truncating such a text keeps its leading pieces as far as the characters fit: styles have no width, and what ends it is the first character that would overflow |
| `Ansi.TokensOfConcat` | internal/ui/table.go:117-166 | tokens are self-delimiting: put together and read again they come back, so dropping bytes between them joins nothing |
| `Ansi.TruncateKeepsWholeTokens` | internal/ui/table.go:110-178 | the result read as tokens is the input's tokens up to the first rune that would overflow, without the invalid bytes: no escape sequence is ever cut |
| `Ansi.TruncateFits` | internal/ui/table.go:168-171 | the result's width never exceeds the limit, for any width function |
| `Ansi.TruncateTwice` | internal/ui/table.go:110-178 | truncating twice is truncating once to the smaller width, so it is idempotent |
| `Ansi.UnchangedIff` | internal/ui/table.go:110-178 | a text is unchanged if and only if it fits and holds no invalid byte |
| `Ansi.HardClipLinesToWidth` | internal/ui/table.go:180-189 | every line is truncated on its own and a non-positive width changes nothing |
| `Ansi.HardClipBoundsEveryLine` | internal/ui/table.go:180-189 | the block keeps its lines, and none of them is wider than the limit |
| `Ansi.HardClipTwice` | internal/ui/table.go:180-189 | clipping a block again changes nothing |
| `TempLabels.UniqueTempLabels` | internal/probe/cpu.go:233-248 | in place: order and readings stay, and each label is the original or its first free suffix |
| `TempLabels.FreeLabel` | internal/probe/cpu.go:240-243 | the search ends, because there are more suffixes than labels in use, at the first free one |
| `TempLabels.PairwiseDistinct` | internal/probe/cpu.go:233-248 | no two labels are equal afterwards |
| `TempLabels.RelabellingIsUnique` | internal/probe/cpu.go:236-248 | the result is determined by the input |
| `TempLabels.NumberedInOrder` | internal/probe/cpu.go:236-248 | unless a sensor is already called like a suffixed one, the first of a name keeps it and the k-th becomes "#k" |
| `TempLabels.DistinctUnchanged` | internal/probe/cpu.go:236-248 | labels that were distinct are left alone |
| `Backlight.Panel.Read` | internal/probe/backlight.go:39-65 | a panel with an unreadable file or without a positive maximum is absent; otherwise the rounded, clamped percent |
| `Backlight.Panel.SetPercent` | internal/probe/backlight.go:97-130 | exactly when each error is given, in the order the source tests them, and that only a success changes the panel |
| `Backlight.Screen.Adjust` | internal/ui/model.go:2920-2941 | a key that goes through is one more press of the run that percent and panel follow; any other changes nothing |
| `Backlight.Screen.Land` | internal/ui/model.go:950-957 | a reply lands with the reading of any earlier moment, one more event of that run |
| `Backlight.RoundTrip` | internal/probe/backlight.go:46-55 | with at least 100 steps the percent read is the percent set |
| `Backlight.ReadsBackIff` | internal/probe/backlight.go:101-120 | that is the identity on 0 to 100 if and only if the panel has at least 100 steps |
| `Backlight.UpAdvancesIff` | internal/ui/model.go:2922-2934 | "+" never writes a lower raw value, and writes a higher one if and only if the panel is dark or the percent to set reaches half way to the next raw value |
| `Backlight.UpSticksIff` | internal/ui/model.go:2922-2934 | "+" on fresh readings stays on a raw value for ever if and only if that fails |
| `Backlight.UpAdvances` | internal/ui/model.go:2922-2934 | when (2·step−1)·max is at least 100, "+" writes a higher raw value from every value below the maximum |
| `Backlight.UpReachesFull` | internal/ui/model.go:2922-2934 | so n presses, each on a fresh reading, climb n raw steps or reach full brightness |
| `Backlight.KeysMoveTheirWay` | internal/ui/model.go:2922-2940 | in any interleaving of presses and up-to-date readings, with any step, "+" never lowers the brightness, "-" never raises it and a reading leaves it |
| `Backlight.ReachesFullIff` | internal/ui/model.go:2922-2940 | 101·max presses reach full brightness from anywhere in every such interleaving if and only if the step climbs from every raw value |
| `Backlight.LateReadingLowersIff` | internal/ui/model.go:2922-2940 | on any panel, once a reading of any earlier moment lands, the next "+" lowers the brightness if and only if the percent it sets is less than half way up from the raw value below |
| `Backlight.LateReadingRaisesIff` | internal/ui/model.go:2922-2940 | and the next "-" raises it if and only if the percent it sets reaches half way to the raw value above, or lights a dark panel |
| `Backlight.LateReadingOnFinePanel` | internal/ui/model.go:2922-2940 | from 100 steps up and over a percent just set, either happens if and only if the reading is more than a step behind |
| `Backlight.LateReadingsLowerIff` | internal/ui/model.go:2922-2940 | some run has a "+" that lowers the brightness if and only if one step from dark is short of full |
| `Backlight.LateReadingsRaiseIff` | internal/ui/model.go:2922-2940 | some run has a "-" that raises it if and only if the step is below 100 percent |
| `Backlight.LateReadingLowers` | internal/ui/model.go:2922-2940 | on any panel, when n presses from dark and the reading taken after the first make the next "+" lower it |
| `Backlight.ThreePressesOnFinePanel` | internal/ui/model.go:2922-2940 | from 100 steps up three presses or more always do |
| `Backlight.ThreePressesOnNine` | internal/config/config.go:141-141 | so do three with the default step on nine steps |
| `Backlight.SmallStepSticks` | internal/ui/model.go:2922-2934 | a step of 5 is stuck for ever at raw value 1 of nine |
| `Backlight.SixClimbsNine` | internal/ui/model.go:2922-2934 | a step of 6 climbs from every raw value of nine, although (2·6−1)·9 is below 100 |
| `Backlight.DownAdvancesIff` | internal/ui/model.go:2922-2934 | "-" never writes a higher raw value, and from one above 1 a lower one if and only if the percent to set is more than half way down |
| `Backlight.DownSticksIff` | internal/ui/model.go:2922-2934 | otherwise, and only then, it stays there for ever |
| `Backlight.DownAdvances` | internal/ui/model.go:2922-2934 | when (2·step−1)·max is above 100, "-" writes a lower raw value from every value above 1 |
| `Backlight.DownFromOneIff` | internal/probe/backlight.go:114-120 | from raw value 1 "-" blanks the panel exactly when the step covers the percent that value reads as, and otherwise leaves it there |

## Left out

- Files, sysfs, /proc, sockets, exec and DNS: only the results the protocols consume appear, as arbitrary values.
- Bubble Tea, layout, styles, key tables and the text, JSON and Prometheus reports: no invariant beyond formatting.
- Alert and condition texts other than those of OOM kills: any text may stand for them.
- The regular expressions that classify kernel lines, and the record header parser: an arbitrary function of a line.
- Threshold evaluation, capability checks and configuration clean-up: reading one branch settles each.
- Floating-point rounding: rates, percents and brightness are exact, so results within one rounding error of a bound may differ.
- Running the alert command, the bell, log files and history persistence: effects outside the process.
- `SetNice`: the source documents that it races with PID recycling.
- Selecting the panel device and its permissions text: a device is its two files and whether a write succeeds.
- `Backlight.ReachesFullIff`: its runs hold only presses whose write goes through and readings; nothing else changes the panel meanwhile.
- `Exporter.ReleasedScrapeIsServed`: says nothing about how long a collection takes, which the source does not bound either; a collection's launch stands for the start of its goroutine, and the wait is counted from the scrape's arrival, where the source's timer starts an instant later.
- `InFlight.StepExcess`: opening, closing and freezing the overlay may happen at any moment, which allows more runs than the key bindings do.
- `Signal.Kernel.SignalProc`: takes for granted that (PID, start time) pairs are not reused, as the source does.
- `DetailOverlay.ProcDetailState.ActionKey`: the renice keys, which also need a loaded overlay, and the notices are not modelled.
- `ProcTree.ComputeProcsTree`: takes PIDs to be distinct, as a listing of /proc makes them; the lower-cased name is a field of the process, and the library sort is modelled by insertion.
- `Kmsg.KmsgWatcher.Read`: event times and the mapping of MMC hosts to disks belong to the classification and are left to it.
- `Alerts.BannerHeadsTheList`: the sort inside `activeList` is the library's; the lemma holds for any sorted list of the active conditions.
