# Scrumdinger meeting timer in Dafny

Scrumdinger runs stand-up meetings. Its one piece of logic is `ScrumTimer`
(`Scrumdinger/Framework/ScrumTimer.swift`). The timer splits a meeting of
`durationInMinutes` evenly among an ordered list of speakers. It tracks the
elapsed and remaining seconds and the active speaker. It advances to the
next speaker when a slot runs out or when the user skips. It calls
`speakerChangedAction` on each automatic advance.

The project has four modules:

- `TimerModel` (`timer_model.dfy`). `Speaker` and `TimerState` hold every
  stored field of the timer. Each operation is a function from the state
  before to the state after. These are `Init`, `Reset`, `Start`, `Stop`,
  `Skip`, `ChangeToSpeaker` and `Update`. The derived properties
  `durationInSeconds`, `secondsPerSpeaker` and `speakerText` are functions
  of the state. `Inv` is the invariant every operation keeps:
  - at least one speaker;
  - the active index names a speaker;
  - the label shows that speaker;
  - for a meeting of non-negative length, `0 <= secondsRemaining <= durationInMinutes * 60`.
- `Scrumdinger` (`scrum_timer.dfy`). The class `ScrumTimer` has the Swift
  fields and updates them in place, statement for statement as the Swift
  methods do. Each method is proved to perform exactly its `TimerModel`
  transition and to keep `Inv`. `TimerFor` is the `DailyScrum.timer`
  factory.
- `TimerProperties` (`timer_properties.dfy`). Lemmas about the transitions.
- `Decimal` (`decimal.dfy`). The decimal rendering of the speaker number in
  the label `"Speaker <n>: <name>"`, proved correct against its reading back.

Where the code and the documented intent differ, the model follows the code.
Each of these is proved as a lemma about the code as written:

- `reset` rebuilds the speakers, the duration, the remaining time and the
  label. It keeps `speakerIndex`, `secondsElapsed`,
  `secondsElapsedForSpeaker` and the stopped flag (`ResetRebuildsSpeakersOnly`).
  So after a reset the speakers before the active one are no longer marked
  completed (`ResetKeepsProgress`).
- Nothing clears `timerStopped` once `stopScrum` sets it, not even
  `startScrum` (`StoppedIsPermanent`).
- A stale tick (one later than the slot length) is ignored for the remaining
  time, the speakers and the notification. It still overwrites
  `secondsElapsed` and `secondsElapsedForSpeaker` (`UpdateStaleTick`). The
  slot ends only on a tick that reads exactly the slot length. If no tick
  lands in that one whole second, for example because the app was
  suspended, every later tick is stale. No later tick then moves the meeting
  on from that speaker; only a skip or a restart does (`StaleTicksStay`).
- Because a stale tick still overwrites `secondsElapsed`, the elapsed time
  can run backwards while the timer runs, and the remaining time stops
  being the meeting minus the elapsed time. In a ten-minute meeting of two
  members, a first tick at 301 s is stale: it sets `secondsElapsed` to 301
  and leaves `secondsRemaining` at 600. A skip then sets `secondsElapsed`
  back to 300 (`SkipAfterStaleTickRewinds`). Ticks alone never lower the
  elapsed time while it agrees with the slot start plus the per-speaker
  count (`TickKeepsElapsedOrder`).
- Skipping past the last speaker marks it completed and leaves it active.
  No terminal state is entered, so a second skip changes nothing
  (`SkipOnLastSpeaker`).
- On the last speaker, every tick that reads exactly the slot length fires
  the notification again, though the active speaker does not change
  (`LastSlotTickRefires`). The wall clock is truncated to whole seconds, so
  several such ticks occur within one second.
- A skip does not fire the notification. Only an automatic advance does
  (`UpdateAdvancesOnlyAtSlotEnd`).
- The slot length is rounded down, so when the meeting does not split
  evenly among the speakers, `(durationInMinutes * 60) % speakers.count`
  seconds are left over. After the last speaker's slot-end tick they stay as
  `secondsRemaining` (`TicksThroughMeeting`). Every later tick of that slot
  is stale or recounts from inside the last slot. So no run of later ticks
  brings the remaining time below the leftover, and it never reaches zero
  (`LeftoverKept`, `MeetingNeverEnds`). For 10 minutes and 7
  members each slot is 85 s, and 5 s remain after the seventh tick and after
  any tick at 86 s (`SevenMembers`).

## Model

| member | source | states |
|---|---|---|
| TimerModel.InitialSpeakers | Scrumdinger/Framework/ScrumTimer.swift:57 | never empty; empty members give exactly one "Player 1"; otherwise one speaker per member with names in member order; no speaker is completed |
| TimerModel.TruncDivBounds | Scrumdinger/Framework/ScrumTimer.swift:37-39 | Swift's truncating `Int` division: for a non-negative dividend the quotient is the floor, for a negative one the ceiling |
| TimerModel.DurationInSeconds | Scrumdinger/Framework/ScrumTimer.swift:36 | the meeting in seconds is non-negative exactly when the meeting in minutes is |
| TimerModel.SecondsPerSpeaker | Scrumdinger/Framework/ScrumTimer.swift:37-39 | the slot length is non-negative for a meeting of non-negative length |
| TimerModel.SlotBounds | Scrumdinger/Framework/ScrumTimer.swift:37-39 | for a non-negative duration, `0 <= secondsPerSpeaker * count <= durationInSeconds < (secondsPerSpeaker + 1) * count` |
| TimerModel.Stop | Scrumdinger/Framework/ScrumTimer.swift:66-70 | `stopScrum` sets `timerStopped` and changes no other field |
| TimerModel.Notify | Scrumdinger/Framework/ScrumTimer.swift:109 | one call of `speakerChangedAction`: the count rises by exactly one and nothing else changes |
| TimerModel.Init | Scrumdinger/Framework/ScrumTimer.swift:55-60 | the new state is valid: it has the initial speaker list and the whole meeting remaining |
| TimerModel.Reset | Scrumdinger/Framework/ScrumTimer.swift:120-125 | valid whenever the kept active index exists in the new speaker list |
| TimerModel.ChangeToSpeaker | Scrumdinger/Framework/ScrumTimer.swift:76-87 | for a target at most one past the last speaker, the result is valid |
| TimerModel.Start | Scrumdinger/Framework/ScrumTimer.swift:62-64 | the result is valid |
| TimerModel.Skip | Scrumdinger/Framework/ScrumTimer.swift:72-74 | the result is valid |
| TimerModel.Sample | Scrumdinger/Framework/ScrumTimer.swift:98-99 | recording a tick keeps the state valid |
| TimerModel.Update | Scrumdinger/Framework/ScrumTimer.swift:97-111 | every tick leaves a valid state |
| Decimal.Show | Scrumdinger/Framework/ScrumTimer.swift:43 | the speaker number is written with at least one character |
| Decimal.Digit | Scrumdinger/Framework/ScrumTimer.swift:43 | the character of a digit is a decimal digit with that value |
| Decimal.ShowIsCanonical | Scrumdinger/Framework/ScrumTimer.swift:43 | the speaker number is written with at least one digit, only digits and no leading zero |
| Decimal.ValueOfShow | Scrumdinger/Framework/ScrumTimer.swift:43 | reading back the written speaker number gives the number |
| TimerProperties.SpeakerTextReadsBack | Scrumdinger/Framework/ScrumTimer.swift:42-44 | the label starts with `"Speaker "` and ends with `": "` and the active speaker's name; the number between them is canonical decimal and reads back as `speakerIndex + 1` |
| TimerProperties.RecountClamps | Scrumdinger/Framework/ScrumTimer.swift:103 | the recounted remaining time is never negative, never below `durationInSeconds - secondsElapsed`, equal to it while that is non-negative and 0 otherwise; no other field changes |
| TimerProperties.SameSlots | Scrumdinger/Framework/ScrumTimer.swift:37-39 | the slot length depends only on the meeting length and the number of speakers |
| TimerProperties.SlotIsFloor | Scrumdinger/Framework/ScrumTimer.swift:37-39 | `secondsPerSpeaker == (durationInMinutes * 60) / speakers.count` for a non-negative duration; the count is never zero |
| TimerProperties.SlotStartWithinMeeting | Scrumdinger/Framework/ScrumTimer.swift:86-87 | for every speaker index, the slot start `index * secondsPerSpeaker` lies in `[0, durationInSeconds]` |
| TimerProperties.SlotBound | Scrumdinger/Framework/ScrumTimer.swift:86-87 | a share `q` with `0 <= q * n <= a`, taken fewer than `n` times, lies in `[0, a]` |
| TimerProperties.InitialState | Scrumdinger/Framework/ScrumTimer.swift:55-60 | after `init` the invariant holds; index 0; nothing elapsed; `secondsRemaining == durationInMinutes * 60`; label `"Speaker 1: " + speakers[0].name`; not stopped; no notification; the speaker list as `InitialSpeakers` says |
| TimerProperties.ResetRebuildsSpeakersOnly | Scrumdinger/Framework/ScrumTimer.swift:120-125 | `reset` keeps the invariant; speakers rebuilt with every flag false; `secondsRemaining == durationInMinutes * 60`; index, elapsed counters, stopped flag and notifications unchanged |
| TimerProperties.ResetKeepsProgress | Scrumdinger/Framework/ScrumTimer.swift:120-125 | a concrete run: after one skip and a reset, speaker 2 is still active with 300 s elapsed, and speaker 1 is no longer completed |
| TimerProperties.ChangeToSpeakerMarksPrevious | Scrumdinger/Framework/ScrumTimer.swift:76-81 | for `index > 0`, speaker `index - 1` becomes completed; no other speaker changes; flags only go from false to true; the per-speaker counter is zeroed |
| TimerProperties.ChangeToSpeakerInRange | Scrumdinger/Framework/ScrumTimer.swift:82-87 | an in-range index becomes active with its label; `secondsElapsed == index * secondsPerSpeaker`; `secondsRemaining == durationInSeconds - secondsElapsed`; the invariant (remaining within bounds) is kept |
| TimerProperties.ChangeToSpeakerPastEnd | Scrumdinger/Framework/ScrumTimer.swift:77-82 | one past the last speaker: only the last speaker's flag and the per-speaker counter change |
| TimerProperties.ChangeToSpeakerKeepsInv | Scrumdinger/Framework/ScrumTimer.swift:76-87 | every `changeToSpeaker(at:)` keeps the invariant |
| TimerProperties.StartRewinds | Scrumdinger/Framework/ScrumTimer.swift:62-64 | `startScrum` makes speaker 0 active at elapsed 0 with the whole meeting remaining; flags and the stopped flag are kept |
| TimerProperties.StoppedIsPermanent | Scrumdinger/Framework/ScrumTimer.swift:66-70 | after `stopScrum` the flag is set, and start, skip, tick and reset all leave it set |
| TimerProperties.SkipOnLastSpeaker | Scrumdinger/Framework/ScrumTimer.swift:72-82 | skipping on the last speaker completes it; index, elapsed and remaining are unchanged; skipping again is a no-op |
| TimerProperties.SkipMovesOn | Scrumdinger/Framework/ScrumTimer.swift:72-87 | a skip before the last speaker advances the index by one and keeps all earlier speakers completed |
| TimerProperties.SkipsAdvanceOneByOne | Scrumdinger/Framework/ScrumTimer.swift:72-87 | `k` skips within range advance the index by exactly `k` and keep all earlier speakers completed |
| TimerProperties.SkipFinishes | Scrumdinger/Framework/ScrumTimer.swift:72-82 | a skip from the last speaker, with all earlier speakers completed, completes every speaker |
| TimerProperties.SkipThroughAllSpeakers | Scrumdinger/Framework/ScrumTimer.swift:72-87 | from speaker 0, one skip per speaker completes all of them and leaves the last one active |
| TimerProperties.SkipThroughMeeting | Scrumdinger/Framework/ScrumTimer.swift:55-87 | the same for a freshly created and started timer |
| TimerProperties.SlotEndElapsed | Scrumdinger/Framework/ScrumTimer.swift:76-110 | a slot-end tick on a running timer sets `secondsElapsed` to the end of the completed slot, `secondsPerSpeaker * (speakerIndex + 1)`, on the last speaker as on any other |
| TimerProperties.TickSetsElapsed | Scrumdinger/Framework/ScrumTimer.swift:97-110 | every tick, stale, in-slot or slot-end, leaves `secondsElapsed == secondsPerSpeaker * speakerIndex + s`, counted from the slot the tick belongs to |
| TimerProperties.TickKeepsElapsedOrder | Scrumdinger/Framework/ScrumTimer.swift:97-110 | when `secondsElapsed` equals `secondsPerSpeaker * speakerIndex + secondsElapsedForSpeaker`, a tick that reads no less than `secondsElapsedForSpeaker` does not lower `secondsElapsed`, in the stale, in-slot and slot-end branches alike |
| TimerProperties.UpdateStaleTick | Scrumdinger/Framework/ScrumTimer.swift:97-102 | a tick above `secondsPerSpeaker` changes only `secondsElapsedForSpeaker = s` and `secondsElapsed = secondsPerSpeaker * speakerIndex + s` |
| TimerProperties.UpdateWithinSlot | Scrumdinger/Framework/ScrumTimer.swift:97-107 | a tick below the slot length, or at it while stopped, changes only the two counters and sets `secondsRemaining = max(durationInSeconds - secondsElapsed, 0)`, which is `>= 0` |
| TimerProperties.UpdateSlotEnd | Scrumdinger/Framework/ScrumTimer.swift:97-110 | a tick equal to the slot length while running completes the active speaker, leaves every other speaker unchanged and fires the notification exactly once; if a next speaker exists it becomes active at its slot start, otherwise the index stays |
| TimerProperties.SlotEndMoves | Scrumdinger/Framework/ScrumTimer.swift:97-110 | for any state with a valid index, a running tick equal to the slot length fires one notification, completes the active speaker and leaves every other speaker unchanged, zeroes the per-speaker counter, and moves to the next slot start or stays on the last speaker with `secondsElapsed = secondsPerSpeaker * index + s` |
| TimerProperties.UpdateAdvancesOnlyAtSlotEnd | Scrumdinger/Framework/ScrumTimer.swift:97-110 | the notification count rises by one iff running and `s == secondsPerSpeaker`, and otherwise stays; the index changes iff in addition a next speaker exists; flags only go from false to true; the stopped flag is unchanged |
| TimerProperties.InSlotKeepsInv | Scrumdinger/Framework/ScrumTimer.swift:98-103 | recording a tick and recomputing the remaining time keeps the invariant |
| TimerProperties.UpdateKeepsInv | Scrumdinger/Framework/ScrumTimer.swift:97-111 | every tick keeps the invariant, so the remaining seconds are never negative and never exceed the meeting |
| TimerProperties.LastSlotTickRefires | Scrumdinger/Framework/ScrumTimer.swift:105-110 | on the last speaker, two running ticks at the slot length fire two notifications while the active speaker never changes |
| TimerProperties.CompletedBeforeKept | Scrumdinger/Framework/ScrumTimer.swift:62-82 | start, stop and skip keep "every speaker before the active one is completed" |
| TimerProperties.CompletedBeforeKeptByTick | Scrumdinger/Framework/ScrumTimer.swift:97-110 | a tick keeps "every speaker before the active one is completed" |
| TimerProperties.TickTimes | Scrumdinger/Framework/ScrumTimer.swift:89-111 | `k` ticks in a row, each reading `s` seconds into the current slot, leave a state with a valid index |
| TimerProperties.LastTick | Scrumdinger/Framework/ScrumTimer.swift:89-93 | `k` ticks are `k - 1` ticks followed by one more |
| TimerProperties.TicksKeepInv | Scrumdinger/Framework/ScrumTimer.swift:97-111 | any run of equal ticks keeps the invariant |
| TimerProperties.TicksKeepCompleted | Scrumdinger/Framework/ScrumTimer.swift:97-110 | any run of equal ticks keeps every speaker before the active one completed |
| TimerProperties.TickStep | Scrumdinger/Framework/ScrumTimer.swift:76-110 | a running slot-end tick before the last speaker advances the index by one, fires one notification, keeps the duration, the speaker count and the slot length, and leaves `durationInSeconds - speakerIndex * secondsPerSpeaker` remaining |
| TimerProperties.TicksStep | Scrumdinger/Framework/ScrumTimer.swift:76-110 | `k` such ticks advance the index by `k` and fire `k` notifications, the timer stays running, and after at least one of them the remaining time is the meeting minus the slots begun |
| TimerProperties.TicksAdvance | Scrumdinger/Framework/ScrumTimer.swift:76-110 | from a slot start with every earlier speaker completed, `k` slot-end ticks within the speakers keep every speaker before the new active one completed, advance the index and the notifications by `k`, and keep the remaining time at the meeting minus the slots begun |
| TimerProperties.TickCompletesNoneAhead | Scrumdinger/Framework/ScrumTimer.swift:76-110 | one slot-end tick before the last speaker completes no speaker from the new active one on |
| TimerProperties.TicksCompleteNoneAhead | Scrumdinger/Framework/ScrumTimer.swift:76-110 | slot-end ticks within the speakers complete no speaker from the new active one on |
| TimerProperties.TicksDuringMeeting | Scrumdinger/Framework/ScrumTimer.swift:55-110 | after `startScrum` and `k` slot-end ticks with `k` below the speaker count: speaker `k` is active, a speaker is completed exactly when it comes before `k`, `k` notifications fired, and `durationInMinutes * 60 - k * secondsPerSpeaker` remain |
| TimerProperties.FinalTick | Scrumdinger/Framework/ScrumTimer.swift:76-110 | the last speaker's slot-end tick, with every earlier speaker completed, completes all speakers, keeps the last one active, fires one notification and leaves the meeting minus every slot |
| TimerProperties.TicksToEnd | Scrumdinger/Framework/ScrumTimer.swift:76-110 | from any slot of a running timer with every earlier speaker completed, one slot-end tick per remaining speaker completes all speakers, leaves the last one active, fires one notification per tick and leaves the meeting minus every slot |
| TimerProperties.TicksThroughMeeting | Scrumdinger/Framework/ScrumTimer.swift:55-110 | after `startScrum` and one slot-end tick per speaker: the invariant holds, all `n` speakers are completed, the last is active, `n` notifications fired, and `durationInMinutes * 60 - n * secondsPerSpeaker == (durationInMinutes * 60) % n` seconds remain |
| TimerProperties.LeftoverStays | Scrumdinger/Framework/ScrumTimer.swift:97-103 | on the last speaker with at least the meeting minus every slot remaining, any tick keeps at least that much remaining and keeps the index, the speaker count and the duration; a stale tick leaves the remaining time unchanged |
| TimerProperties.AfterTicks | Scrumdinger/Framework/ScrumTimer.swift:89-111 | a run of ticks, each reading its own number of seconds, leaves a state with a valid index |
| TimerProperties.StaleTicksStay | Scrumdinger/Framework/ScrumTimer.swift:97-102 | a run of ticks that all read more than the slot length changes neither the active speaker, the speakers, the remaining time, the notification count, the duration nor the stopped flag |
| TimerProperties.LeftoverKept | Scrumdinger/Framework/ScrumTimer.swift:97-110 | on the last speaker, any run of ticks keeps at least the meeting minus every slot remaining, and keeps the index, the speaker count and the duration |
| TimerProperties.MeetingNeverEnds | Scrumdinger/Framework/ScrumTimer.swift:55-110 | for a started meeting, after every slot-end tick, no run of later ticks brings the remaining time below `(durationInMinutes * 60) % n` |
| TimerProperties.LeftoverAfterAllSpeakers | Scrumdinger/Framework/ScrumTimer.swift:97-110 | once every speaker of a running timer has had its slot-end tick, the next tick leaves at least the meeting minus every slot, and a stale one leaves the remaining time unchanged |
| TimerProperties.MeetingEndsWithLeftover | Scrumdinger/Framework/ScrumTimer.swift:55-110 | for a started meeting, after every slot-end tick, the next tick leaves at least `(durationInMinutes * 60) % n` seconds, and a stale one leaves the remaining time unchanged |
| TimerProperties.SevenMembers | Scrumdinger/Framework/ScrumTimer.swift:37-110 | 10 minutes, 7 members: 85 s per slot; after seven slot-end ticks speaker 7 is active, all are completed, 7 notifications fired and 5 s remain; a further tick at 86 s still leaves 5 s |
| TimerProperties.SkipAfterStaleTickRewinds | Scrumdinger/Framework/ScrumTimer.swift:72-103 | 10 minutes, members A and B, started: a tick at 301 s leaves the timer running on A with 301 s elapsed and 600 s remaining, which is not the meeting minus the elapsed time; a skip then moves to B with the timer running and 300 s elapsed, lower than before |
| TimerProperties.TwoMemberMeeting | Scrumdinger/Framework/ScrumTimer.swift:55-110 | 10 minutes, members A and B: 300 s per slot. After the first 300 s tick, "Speaker 2: B" is active, A is completed, 300 s elapsed and 300 s remain. After the second, both are completed, 0 s remain and two notifications have fired |
| TimerProperties.EmptyMeeting | Scrumdinger/Framework/ScrumTimer.swift:55-110 | 0 minutes and no members: one "Player 1" speaker with a zero-length slot, completed by the first tick with one notification |
| Scrumdinger.ScrumTimer.constructor | Scrumdinger/Framework/ScrumTimer.swift:55-60 | the fields equal `Init(durationInMinutes, members)` (defaults 0 and empty), and the invariant holds |
| Scrumdinger.ScrumTimer.StartScrum | Scrumdinger/Framework/ScrumTimer.swift:62-64 | the new fields equal `Start` of the old ones; the invariant is kept |
| Scrumdinger.ScrumTimer.StopScrum | Scrumdinger/Framework/ScrumTimer.swift:66-70 | the new fields equal the old ones with `timerStopped` set; the invariant is kept |
| Scrumdinger.ScrumTimer.SkipSpeaker | Scrumdinger/Framework/ScrumTimer.swift:72-74 | the new fields equal `Skip` of the old ones; the invariant is kept |
| Scrumdinger.ScrumTimer.ChangeToSpeaker | Scrumdinger/Framework/ScrumTimer.swift:76-87 | the in-place updates equal `ChangeToSpeaker` of the old fields; the invariant is kept |
| Scrumdinger.ScrumTimer.Update | Scrumdinger/Framework/ScrumTimer.swift:97-111 | the in-place updates equal `Update` of the old fields for the supplied tick; the invariant is kept |
| Scrumdinger.ScrumTimer.Reset | Scrumdinger/Framework/ScrumTimer.swift:120-125 | the new fields equal `Reset` of the old ones; the invariant is kept |
| Scrumdinger.TimerFor | Scrumdinger/Framework/ScrumTimer.swift:128-133 | a fresh timer whose fields equal `Init` of the meeting's duration and members |

## Left out

- The run-loop `Timer`, `Date`, `startDate`, `frequency`, the `[weak self]`
  closure and `timer?.invalidate()` (ScrumTimer.swift:33, 35, 45, 67-68, 88-94)
  are left out. The whole seconds since the slot began are a `nat` argument
  of `Update`. The model does not say which ticks a wall clock would deliver.
  It also does not model that `changeToSpeaker` schedules a new `Timer`
  without invalidating the previous one.
- The `Double` to `Int` conversion of the elapsed time is floating point.
  The model starts from its integer result.
- `speakerChangedAction` is a counter, `notifications`, of the calls made.
  Whether a closure is registered (the optional call) is not distinguished.
- `ObservableObject` / `@Published` are UI observation only. The `UUID` of
  `Speaker` is dropped.
- Swift `Int` is 64-bit and traps on overflow. The model uses unbounded
  integers and so does not model the traps in `durationInMinutes * 60`
  (ScrumTimer.swift:36, 38), `index * secondsPerSpeaker` (:86),
  `secondsPerSpeaker * speakerIndex + secondsElapsedForSpeaker` (:99) and
  `speakerIndex + 1` (:43, :73, :108).
- The tick argument of `Update` is a `nat`. A wall clock set back makes
  `Int(Date() - startDate)` negative (:91-92), and such ticks are not
  modelled. The upper bound of `RemainingBounded` relies on this: a negative
  tick would make `secondsElapsed` smaller than the slot start, so
  `secondsRemaining` could exceed the meeting.
- `speakers[speakerIndex]` traps in `reset` when the kept index is beyond
  the new speaker list. The model turns this into a precondition of
  `Reset`.
- `DailyScrum` keeps only `title`, `members` and `durationInMinutes`. Its
  `id`, `color` and `history`, and `update(from:)` with its `Double`
  truncation, are not part of this model. Neither are `History.swift`, the
  app entry points or the views.
