/** What the transitions of `TimerModel` guarantee, including the places
    where the Swift code behaves differently from what a reader of its
    comments might expect (these are stated as they are, not corrected). */
module TimerProperties {
  import Decimal
  import opened TimerModel

  // ----- derived quantities -----

  /** `secondsPerSpeaker` is the floor of the meeting length over the
      number of speakers; the divisor is never zero. */
  lemma SlotIsFloor(st: TimerState)
    requires Indexed(st) && st.durationInMinutes >= 0
    ensures |st.speakers| > 0
    ensures SecondsPerSpeaker(st) == (st.durationInMinutes * 60) / |st.speakers|
  {
    var a, n, q := st.durationInMinutes * 60, |st.speakers|, SecondsPerSpeaker(st);
    DivBounds(a, n);
    var p := a / n;
    if q < p {
      MulLess(q + 1, p, n);
    } else if p < q {
      MulLess(p + 1, q, n);
    }
  }

  /** The next slot starts one slot length after this one. */
  lemma NextSlotStart(i: int, s: int)
    ensures (i + 1) * s == s * i + s
  {
  }

  /** Multiplication by a positive number keeps `<=`. */
  lemma MulLess(x: int, y: int, n: int)
    requires x <= y && n > 0
    ensures x * n <= y * n
  {
    assert y * n - x * n == (y - x) * n;
  }

  /** The slot length depends only on the meeting length and the number of
      speakers. */
  lemma SameSlots(a: TimerState, b: TimerState)
    requires a.speakers != [] && |a.speakers| == |b.speakers|
    requires a.durationInMinutes == b.durationInMinutes
    ensures SecondsPerSpeaker(a) == SecondsPerSpeaker(b)
  {
  }

  /** Every slot of a meeting of non-negative length starts inside the
      meeting. */
  lemma SlotStartWithinMeeting(st: TimerState, index: int)
    requires Indexed(st) && st.durationInMinutes >= 0
    requires 0 <= index < |st.speakers|
    ensures 0 <= SecondsPerSpeaker(st)
    ensures 0 <= index * SecondsPerSpeaker(st) <= DurationInSeconds(st.durationInMinutes)
  {
    SlotBound(SecondsPerSpeaker(st), |st.speakers|, DurationInSeconds(st.durationInMinutes), index);
  }

  /** The arithmetic behind `SlotStartWithinMeeting`: a share `q` of a total
      `a` split `n` ways, taken fewer than `n` times, stays within `a`. */
  lemma SlotBound(q: int, n: int, a: int, index: int)
    requires n > 0 && 0 <= q * n <= a
    requires 0 <= index < n
    ensures 0 <= q && 0 <= index * q <= a
  {
    if q < 0 {
      MulLess(q, -1, n);
      assert false;
    }
    if q > 0 {
      MulLess(0, index, q);
      MulLess(index, n, q);
      assert n * q == q * n;
    }
  }

  /** A speaker label starts with "Speaker " and ends with ": " and the
      active speaker's name; the number between them is written in canonical
      decimal and reads back as the active index counted from 1. */
  lemma SpeakerTextReadsBack(st: TimerState)
    requires Indexed(st)
    ensures var r := SpeakerText(st);
      var name := st.speakers[st.speakerIndex].name;
      |r| >= 11 + |name| &&
      r[..8] == "Speaker " && r[|r| - |name| - 2..] == ": " + name
    ensures var r := SpeakerText(st);
      var digits := r[8..|r| - |st.speakers[st.speakerIndex].name| - 2];
      |digits| >= 1 && digits[0] != '0' &&
      (forall i :: 0 <= i < |digits| ==> '0' <= digits[i] <= '9') &&
      Decimal.Value(digits) == st.speakerIndex + 1
  {
    var r, n := SpeakerText(st), st.speakerIndex + 1;
    assert r[8..|r| - |st.speakers[st.speakerIndex].name| - 2] == Decimal.Show(n);
    Decimal.ShowIsCanonical(n);
    Decimal.ValueOfShow(n);
  }

  /** The remaining time a tick recounts is never negative, never less than
      the meeting minus the elapsed time, and equal to it while the meeting
      lasts; nothing else changes. */
  lemma RecountClamps(st: TimerState)
    ensures var r := Recount(st);
      var rest := DurationInSeconds(st.durationInMinutes) - st.secondsElapsed;
      r.secondsRemaining >= 0 && r.secondsRemaining >= rest &&
      (rest >= 0 ==> r.secondsRemaining == rest) &&
      (rest < 0 ==> r.secondsRemaining == 0) &&
      r.(secondsRemaining := st.secondsRemaining) == st
  {
  }

  // ----- construction -----

  /** `init`: a non-empty speaker list (one per member, in member order, or
      the single placeholder), nothing completed, the whole meeting
      remaining, the first speaker active and labelled "Speaker 1". */
  lemma InitialState(minutes: int, members: seq<string>)
    ensures var r := Init(minutes, members);
      Inv(r) &&
      r.speakerIndex == 0 && r.secondsElapsed == 0 && r.secondsElapsedForSpeaker == 0 &&
      r.secondsRemaining == minutes * 60 &&
      r.activeSpeaker == "Speaker 1: " + r.speakers[0].name &&
      !r.timerStopped && r.notifications == 0 &&
      (members == [] ==> r.speakers == [Speaker("Player 1", false)]) &&
      (members != [] ==>
        |r.speakers| == |members| &&
        forall i :: 0 <= i < |members| ==> r.speakers[i] == Speaker(members[i], false))
  {
    assert Decimal.Show(1) == "1";
  }

  /** `reset` rebuilds the speakers as `init` does and restores the whole
      meeting as remaining time, but keeps the active index, the elapsed
      counters, the stopped flag and the notification count. */
  lemma ResetRebuildsSpeakersOnly(st: TimerState, minutes: int, members: seq<string>)
    requires Inv(st)
    requires st.speakerIndex < |InitialSpeakers(members)|
    ensures var r := Reset(st, minutes, members);
      Inv(r) &&
      r.speakers == InitialSpeakers(members) &&
      (forall i :: 0 <= i < |r.speakers| ==> !r.speakers[i].isCompleted) &&
      r.durationInMinutes == minutes && r.secondsRemaining == minutes * 60 &&
      r.speakerIndex == st.speakerIndex && r.secondsElapsed == st.secondsElapsed &&
      r.secondsElapsedForSpeaker == st.secondsElapsedForSpeaker &&
      r.timerStopped == st.timerStopped && r.notifications == st.notifications
  {
  }

  /** A concrete run where `reset` leaves progress behind: after one skip in
      a two-member meeting, resetting to the same meeting keeps speaker 2
      active and 300 seconds elapsed while clearing the first speaker's
      completion flag. */
  lemma ResetKeepsProgress()
    ensures var st := Skip(Start(Init(10, ["A", "B"])));
      var r := Reset(st, 10, ["A", "B"]);
      st.speakers[0].isCompleted &&
      r.speakerIndex == 1 && r.secondsElapsed == 300 && r.secondsRemaining == 600 &&
      !r.speakers[0].isCompleted && !CompletedBefore(r)
  {
    var st0 := Init(10, ["A", "B"]);
    assert SecondsPerSpeaker(st0) == 300;
    var st := Skip(Start(st0));
    assert SecondsPerSpeaker(st) == 300;
    assert Decimal.Show(2) == "2";
  }

  // ----- changeToSpeaker -----

  /** The speaker lists have the same names, and every completion flag that
      was set is still set. */
  predicate OnlyCompletes(before: seq<Speaker>, after: seq<Speaker>)
  {
    |before| == |after| &&
    forall i :: 0 <= i < |before| ==>
      after[i].name == before[i].name && (before[i].isCompleted ==> after[i].isCompleted)
  }

  /** Every speaker before the active one has completed. */
  predicate CompletedBefore(st: TimerState)
    requires Indexed(st)
  {
    forall j :: 0 <= j < st.speakerIndex ==> st.speakers[j].isCompleted
  }

  /** `changeToSpeaker(at:)` marks the previous speaker done, touches no
      other flag, and zeroes the per-speaker counter. */
  lemma ChangeToSpeakerMarksPrevious(st: TimerState, index: int)
    requires Indexed(st) && 0 <= index <= |st.speakers|
    ensures var r := ChangeToSpeaker(st, index);
      OnlyCompletes(st.speakers, r.speakers) &&
      (index > 0 ==> r.speakers[index - 1].isCompleted) &&
      (forall i :: 0 <= i < |st.speakers| && i != index - 1 ==> r.speakers[i] == st.speakers[i]) &&
      r.secondsElapsedForSpeaker == 0 &&
      r.durationInMinutes == st.durationInMinutes &&
      r.timerStopped == st.timerStopped && r.notifications == st.notifications
  {
  }

  /** An in-range target becomes the active speaker; the elapsed time jumps
      to the start of its slot and the remaining time is the rest of the
      meeting, which for a non-negative length stays within bounds. */
  lemma ChangeToSpeakerInRange(st: TimerState, index: int)
    requires Inv(st) && 0 <= index < |st.speakers|
    ensures var r := ChangeToSpeaker(st, index);
      Inv(r) &&
      r.speakerIndex == index &&
      r.activeSpeaker == "Speaker " + Decimal.Show(index + 1) + ": " + st.speakers[index].name &&
      r.secondsElapsed == index * SecondsPerSpeaker(st) &&
      r.secondsRemaining == DurationInSeconds(st.durationInMinutes) - r.secondsElapsed
  {
    if st.durationInMinutes >= 0 {
      SlotStartWithinMeeting(st, index);
    }
  }

  /** One past the last speaker: the last speaker is marked done, the
      per-speaker counter is zeroed, and nothing else changes (in particular
      neither the active index nor the elapsed and remaining times). */
  lemma ChangeToSpeakerPastEnd(st: TimerState)
    requires Inv(st)
    ensures var n := |st.speakers|;
      var r := ChangeToSpeaker(st, n);
      Inv(r) &&
      r == st.(speakers := st.speakers[n - 1 := st.speakers[n - 1].(isCompleted := true)],
               secondsElapsedForSpeaker := 0)
  {
  }

  /** Every `changeToSpeaker(at:)` keeps the invariant. */
  lemma ChangeToSpeakerKeepsInv(st: TimerState, index: int)
    requires Inv(st) && 0 <= index <= |st.speakers|
    ensures Inv(ChangeToSpeaker(st, index))
  {
    if index < |st.speakers| {
      ChangeToSpeakerInRange(st, index);
    }
  }

  // ----- startScrum, stopScrum, skipSpeaker -----

  /** `startScrum()` rewinds to the first speaker's slot at elapsed zero with
      the whole meeting remaining; it keeps completion flags and the stopped
      flag as they were. */
  lemma StartRewinds(st: TimerState)
    requires Inv(st)
    ensures var r := Start(st);
      Inv(r) &&
      r.speakerIndex == 0 && r.secondsElapsed == 0 && r.secondsElapsedForSpeaker == 0 &&
      r.secondsRemaining == DurationInSeconds(st.durationInMinutes) &&
      r.speakers == st.speakers && r.timerStopped == st.timerStopped &&
      r.durationInMinutes == st.durationInMinutes && r.notifications == st.notifications
  {
    ChangeToSpeakerInRange(st, 0);
    ChangeToSpeakerMarksPrevious(st, 0);
  }

  /** Once `stopScrum()` has set the stopped flag, no operation clears it:
      not `startScrum()`, not `skipSpeaker()`, not a tick, not `reset`. */
  lemma StoppedIsPermanent(st: TimerState, s: nat, minutes: int, members: seq<string>)
    requires Indexed(st)
    ensures Stop(st).timerStopped
    ensures var t := Stop(st);
      Indexed(t) &&
      Start(t).timerStopped && Skip(t).timerStopped && Update(t, s).timerStopped &&
      (t.speakerIndex < |InitialSpeakers(members)| ==> Reset(t, minutes, members).timerStopped)
  {
  }

  /** `skipSpeaker()` on the last speaker marks that speaker done and leaves
      it active, so skipping again changes nothing. */
  lemma SkipOnLastSpeaker(st: TimerState)
    requires Inv(st) && st.speakerIndex == |st.speakers| - 1
    ensures var r := Skip(st);
      Inv(r) &&
      r.speakerIndex == st.speakerIndex &&
      r.speakers[st.speakerIndex].isCompleted &&
      r.secondsElapsed == st.secondsElapsed && r.secondsRemaining == st.secondsRemaining &&
      Skip(r) == r
  {
    ChangeToSpeakerPastEnd(st);
    ChangeToSpeakerPastEnd(Skip(st));
  }

  /** `skipSpeaker()` repeated `k` times. */
  function SkipTimes(st: TimerState, k: nat): (r: TimerState)
    requires Indexed(st)
    ensures Indexed(r)
  {
    if k == 0 then st else Skip(SkipTimes(st, k - 1))
  }

  /** A skip before the last speaker moves the active index on by one and
      keeps every earlier speaker completed. */
  lemma SkipMovesOn(st: TimerState)
    requires Indexed(st) && CompletedBefore(st)
    requires st.speakerIndex + 1 < |st.speakers|
    ensures var r := Skip(st);
      r.speakerIndex == st.speakerIndex + 1 && CompletedBefore(r) && |r.speakers| == |st.speakers|
  {
    ChangeToSpeakerMarksPrevious(st, st.speakerIndex + 1);
  }

  /** Each skip before the last speaker moves the active index on by one and
      keeps every earlier speaker completed. */
  lemma {:induction false} SkipsAdvanceOneByOne(st: TimerState, k: nat)
    requires Indexed(st) && CompletedBefore(st)
    requires st.speakerIndex + k < |st.speakers|
    ensures var r := SkipTimes(st, k);
      r.speakerIndex == st.speakerIndex + k && CompletedBefore(r) && |r.speakers| == |st.speakers|
  {
    if k > 0 {
      SkipsAdvanceOneByOne(st, k - 1);
      var previous := SkipTimes(st, k - 1);
      var r := SkipTimes(st, k);
      assert r == Skip(previous);
      SkipMovesOn(previous);
      assert r.speakerIndex == previous.speakerIndex + 1;
      assert CompletedBefore(r);
    }
  }

  /** A skip from the last speaker, when every earlier speaker has
      completed, completes them all and keeps the last one active. */
  lemma SkipFinishes(st: TimerState)
    requires Indexed(st) && CompletedBefore(st)
    requires st.speakerIndex == |st.speakers| - 1
    ensures var r := Skip(st);
      r.speakerIndex == st.speakerIndex && |r.speakers| == |st.speakers| &&
      forall j :: 0 <= j < |r.speakers| ==> r.speakers[j].isCompleted
  {
    ChangeToSpeakerMarksPrevious(st, |st.speakers|);
  }

  /** Skipping once per speaker from the first speaker completes every
      speaker and leaves the last one active. */
  lemma SkipThroughAllSpeakers(st: TimerState)
    requires Indexed(st) && st.speakerIndex == 0
    ensures var n := |st.speakers|;
      var r := SkipTimes(st, n);
      r.speakerIndex == n - 1 && |r.speakers| == n &&
      forall j :: 0 <= j < n ==> r.speakers[j].isCompleted
  {
    var n := |st.speakers|;
    SkipsAdvanceOneByOne(st, n - 1);
    var last := SkipTimes(st, n - 1);
    assert SkipTimes(st, n) == Skip(last);
    SkipFinishes(last);
  }

  /** The same from a freshly started meeting. */
  lemma SkipThroughMeeting(minutes: int, members: seq<string>)
    ensures var st := Start(Init(minutes, members));
      var n := |st.speakers|;
      var r := SkipTimes(st, n);
      r.speakerIndex == n - 1 && |r.speakers| == n &&
      forall j :: 0 <= j < n ==> r.speakers[j].isCompleted
  {
    InitialState(minutes, members);
    StartRewinds(Init(minutes, members));
    SkipThroughAllSpeakers(Start(Init(minutes, members)));
  }

  // ----- update(secondsElapsed:) -----

  /** A tick later than the slot length is ignored except that the
      per-speaker counter and the elapsed time are still overwritten. */
  lemma UpdateStaleTick(st: TimerState, s: nat)
    requires Indexed(st) && s > SecondsPerSpeaker(st)
    ensures Update(st, s) ==
      st.(secondsElapsedForSpeaker := s,
          secondsElapsed := SecondsPerSpeaker(st) * st.speakerIndex + s)
  {
  }

  /** A tick inside the slot, or any in-slot tick once stopped, recomputes the
      times and does nothing else; the remaining time is clamped at zero. */
  lemma UpdateWithinSlot(st: TimerState, s: nat)
    requires Indexed(st)
    requires s < SecondsPerSpeaker(st) || (s == SecondsPerSpeaker(st) && st.timerStopped)
    ensures var elapsed := SecondsPerSpeaker(st) * st.speakerIndex + s;
      var r := Update(st, s);
      r == st.(secondsElapsedForSpeaker := s, secondsElapsed := elapsed,
               secondsRemaining := Max(DurationInSeconds(st.durationInMinutes) - elapsed, 0)) &&
      r.secondsRemaining >= 0
  {
  }

  /** Every tick, in each branch of the handler, sets the elapsed time to the
      start of the active slot plus the tick; at a slot end this start is
      the one of the slot the tick completes. */
  lemma TickSetsElapsed(st: TimerState, s: nat)
    requires Indexed(st)
    ensures Update(st, s).secondsElapsed == SecondsPerSpeaker(st) * st.speakerIndex + s
  {
    var sps := SecondsPerSpeaker(st);
    if s > sps {
      UpdateStaleTick(st, s);
    } else if !st.timerStopped && s == sps {
      SlotEndElapsed(st, s);
    } else {
      UpdateWithinSlot(st, s);
    }
  }

  /** A slot-end tick sets the elapsed time to the end of the slot it
      completes, whether it moves on or stays on the last speaker. */
  lemma SlotEndElapsed(st: TimerState, s: nat)
    requires Indexed(st) && !st.timerStopped && s == SecondsPerSpeaker(st)
    ensures Update(st, s).secondsElapsed == s * st.speakerIndex + s
  {
    SlotEndMoves(st, s);
    if st.speakerIndex + 1 < |st.speakers| {
      NextSlotStart(st.speakerIndex, s);
    }
  }

  /** While the elapsed time agrees with the slot start plus the per-speaker
      count, a tick that reads no less than the last one never lowers the
      elapsed time, whichever branch of the tick handler it takes. */
  lemma TickKeepsElapsedOrder(st: TimerState, s: nat)
    requires Indexed(st)
    requires st.secondsElapsed == SecondsPerSpeaker(st) * st.speakerIndex + st.secondsElapsedForSpeaker
    requires s >= st.secondsElapsedForSpeaker
    ensures Update(st, s).secondsElapsed >= st.secondsElapsed
  {
    TickSetsElapsed(st, s);
  }

  /** The tick at the end of a running slot completes the active speaker,
      moves to the next one if there is one, and fires the speaker-changed
      notification once. */
  lemma UpdateSlotEnd(st: TimerState, s: nat)
    requires Inv(st) && !st.timerStopped && s == SecondsPerSpeaker(st)
    ensures Inv(Update(st, s))
    ensures var r := Update(st, s);
      var i := st.speakerIndex;
      r.notifications == st.notifications + 1 &&
      r.speakers[i].isCompleted &&
      OnlyCompletes(st.speakers, r.speakers) &&
      (forall j :: 0 <= j < |st.speakers| && j != i ==> r.speakers[j] == st.speakers[j]) &&
      r.secondsElapsedForSpeaker == 0 &&
      (i + 1 < |st.speakers| ==>
        r.speakerIndex == i + 1 && r.secondsElapsed == (i + 1) * s &&
        r.secondsRemaining == DurationInSeconds(st.durationInMinutes) - r.secondsElapsed) &&
      (i + 1 == |st.speakers| ==>
        r.speakerIndex == i && r.secondsElapsed == s * i + s &&
        r.secondsRemaining == Max(DurationInSeconds(st.durationInMinutes) - r.secondsElapsed, 0))
  {
    UpdateKeepsInv(st, s);
    SlotEndMoves(st, s);
  }

  /** The same movement facts hold for any indexed state: they do not depend
      on the label or on the remaining time being in range. */
  lemma SlotEndMoves(st: TimerState, s: nat)
    requires Indexed(st) && !st.timerStopped && s == SecondsPerSpeaker(st)
    ensures var r := Update(st, s);
      var i := st.speakerIndex;
      r.notifications == st.notifications + 1 &&
      r.speakers[i].isCompleted &&
      OnlyCompletes(st.speakers, r.speakers) &&
      (forall j :: 0 <= j < |st.speakers| && j != i ==> r.speakers[j] == st.speakers[j]) &&
      r.secondsElapsedForSpeaker == 0 &&
      (i + 1 < |st.speakers| ==>
        r.speakerIndex == i + 1 && r.secondsElapsed == (i + 1) * s &&
        r.secondsRemaining == DurationInSeconds(st.durationInMinutes) - r.secondsElapsed) &&
      (i + 1 == |st.speakers| ==>
        r.speakerIndex == i && r.secondsElapsed == s * i + s &&
        r.secondsRemaining == Max(DurationInSeconds(st.durationInMinutes) - r.secondsElapsed, 0))
  {
    ChangeToSpeakerMarksPrevious(Recount(Sample(st, s)), st.speakerIndex + 1);
  }

  /** A tick changes the speakers, the active index or the notification
      count only when the timer is running and the tick is exactly the slot
      length; the notification fires at most once per tick. */
  lemma UpdateAdvancesOnlyAtSlotEnd(st: TimerState, s: nat)
    requires Indexed(st)
    ensures var r := Update(st, s);
      var advance := !st.timerStopped && s == SecondsPerSpeaker(st);
      r.notifications == st.notifications + (if advance then 1 else 0) &&
      (r.speakerIndex != st.speakerIndex <==> advance && st.speakerIndex + 1 < |st.speakers|) &&
      (!advance ==> r.speakers == st.speakers) &&
      r.timerStopped == st.timerStopped &&
      r.durationInMinutes == st.durationInMinutes &&
      OnlyCompletes(st.speakers, r.speakers)
  {
    if !st.timerStopped && s == SecondsPerSpeaker(st) {
      ChangeToSpeakerMarksPrevious(Recount(Sample(st, s)), st.speakerIndex + 1);
    }
  }

  /** Recording an in-slot tick keeps the remaining time within the
      meeting. */
  lemma InSlotKeepsInv(st: TimerState, s: nat)
    requires Inv(st)
    ensures Inv(Recount(Sample(st, s)))
  {
    if st.durationInMinutes >= 0 {
      var sps, i := SecondsPerSpeaker(st), st.speakerIndex;
      SlotStartWithinMeeting(st, i);
      assert sps * i == i * sps;
    }
  }

  /** Every tick keeps the invariant; in particular the remaining time of a
      meeting of non-negative length never goes below zero. */
  lemma UpdateKeepsInv(st: TimerState, s: nat)
    requires Inv(st)
    ensures Inv(Update(st, s))
  {
    var sps := SecondsPerSpeaker(st);
    if s <= sps {
      InSlotKeepsInv(st, s);
      var mid := Recount(Sample(st, s));
      if st.timerStopped || s < sps {
        assert Update(st, s) == mid;
      } else {
        ChangeToSpeakerKeepsInv(mid, st.speakerIndex + 1);
        assert Update(st, s) == Notify(ChangeToSpeaker(mid, st.speakerIndex + 1));
      }
    }
  }

  /** On the last speaker, two ticks that both read the slot length (the
      per-tick clock is truncated to whole seconds, so this happens within
      one second) each fire the speaker-changed notification although the
      active speaker never changes. */
  lemma LastSlotTickRefires(st: TimerState, s: nat)
    requires Indexed(st) && !st.timerStopped
    requires st.speakerIndex == |st.speakers| - 1 && s == SecondsPerSpeaker(st)
    ensures var r1 := Update(st, s);
      var r2 := Update(r1, s);
      r1.speakerIndex == st.speakerIndex && r2.speakerIndex == st.speakerIndex &&
      r2.notifications == st.notifications + 2
  {
    UpdateAdvancesOnlyAtSlotEnd(st, s);
    var r1 := Update(st, s);
    assert SecondsPerSpeaker(r1) == s;
    UpdateAdvancesOnlyAtSlotEnd(r1, s);
  }

  /** Starts, stops and skips keep every speaker before the active one
      completed (`reset` does not, see `ResetKeepsProgress`). */
  lemma CompletedBeforeKept(st: TimerState)
    requires Indexed(st) && CompletedBefore(st)
    ensures CompletedBefore(Start(st))
    ensures CompletedBefore(Stop(st))
    ensures CompletedBefore(Skip(st))
  {
    ChangeToSpeakerMarksPrevious(st, st.speakerIndex + 1);
  }

  /** So do ticks. */
  lemma CompletedBeforeKeptByTick(st: TimerState, s: nat)
    requires Indexed(st) && CompletedBefore(st)
    ensures CompletedBefore(Update(st, s))
  {
    if !st.timerStopped && s == SecondsPerSpeaker(st) {
      ChangeToSpeakerMarksPrevious(Recount(Sample(st, s)), st.speakerIndex + 1);
    }
  }

  // ----- a whole meeting of ticks -----

  /** `k` ticks in a row, each reading `s` seconds into the current slot. */
  function TickTimes(st: TimerState, s: nat, k: nat): (r: TimerState)
    requires Indexed(st)
    ensures Indexed(r)
    decreases k
  {
    if k == 0 then st else TickTimes(Update(st, s), s, k - 1)
  }

  /** Ticking `k` times is one tick followed by `k - 1` more. */
  lemma FirstTick(st: TimerState, s: nat, k: nat)
    requires Indexed(st) && k > 0
    ensures TickTimes(st, s, k) == TickTimes(Update(st, s), s, k - 1)
  {
  }

  /** Any sequence of ticks keeps the invariant. */
  lemma {:induction false} TicksKeepInv(st: TimerState, s: nat, k: nat)
    requires Inv(st)
    ensures Inv(TickTimes(st, s, k))
    decreases k
  {
    if k > 0 {
      UpdateKeepsInv(st, s);
      TicksKeepInv(Update(st, s), s, k - 1);
      FirstTick(st, s, k);
    }
  }

  /** The counters of a slot-end tick that is not the last one: the next
      speaker becomes active, one notification fires, and the remaining
      time is the meeting minus the slots begun. */
  lemma TickStep(st: TimerState, s: nat)
    requires Indexed(st) && !st.timerStopped
    requires s == SecondsPerSpeaker(st) && st.speakerIndex + 1 < |st.speakers|
    ensures !Update(st, s).timerStopped
    ensures Update(st, s).speakerIndex == st.speakerIndex + 1
    ensures Update(st, s).notifications == st.notifications + 1
    ensures Update(st, s).durationInMinutes == st.durationInMinutes
    ensures |Update(st, s).speakers| == |st.speakers|
    ensures SecondsPerSpeaker(Update(st, s)) == s
    ensures Update(st, s).secondsRemaining ==
      DurationInSeconds(st.durationInMinutes) - Update(st, s).speakerIndex * s
  {
    SlotEndMoves(st, s);
    UpdateAdvancesOnlyAtSlotEnd(st, s);
    SameSlots(st, Update(st, s));
  }

  /** Any run of ticks keeps every speaker before the active one completed. */
  lemma {:induction false} TicksKeepCompleted(st: TimerState, s: nat, k: nat)
    requires Indexed(st) && CompletedBefore(st)
    ensures CompletedBefore(TickTimes(st, s, k))
    decreases k
  {
    if k > 0 {
      CompletedBeforeKeptByTick(st, s);
      TicksKeepCompleted(Update(st, s), s, k - 1);
      FirstTick(st, s, k);
    }
  }

  /** Ticks at each slot's end walk through the speakers one by one: after
      `k` of them the `k`-th next speaker is active, all before it have
      completed, `k` notifications have fired, and the remaining time is the
      meeting minus the slots begun. */
  lemma TicksAdvance(st: TimerState, s: nat, k: nat)
    requires Indexed(st) && !st.timerStopped && CompletedBefore(st)
    requires s == SecondsPerSpeaker(st) && st.speakerIndex + k < |st.speakers|
    requires st.secondsRemaining == DurationInSeconds(st.durationInMinutes) - st.speakerIndex * s
    ensures !TickTimes(st, s, k).timerStopped && CompletedBefore(TickTimes(st, s, k))
    ensures TickTimes(st, s, k).speakerIndex == st.speakerIndex + k
    ensures TickTimes(st, s, k).notifications == st.notifications + k
    ensures TickTimes(st, s, k).secondsRemaining ==
      DurationInSeconds(st.durationInMinutes) - TickTimes(st, s, k).speakerIndex * s
  {
    TicksStep(st, s, k);
    TicksKeepCompleted(st, s, k);
    if k == 0 {
      assert TickTimes(st, s, k) == st;
    }
  }

  /** The counters after `k` slot-end ticks that stay within the speakers. */
  lemma {:induction false} TicksStep(st: TimerState, s: nat, k: nat)
    requires Indexed(st) && !st.timerStopped
    requires s == SecondsPerSpeaker(st) && st.speakerIndex + k < |st.speakers|
    ensures !TickTimes(st, s, k).timerStopped
    ensures TickTimes(st, s, k).speakerIndex == st.speakerIndex + k
    ensures TickTimes(st, s, k).notifications == st.notifications + k
    ensures TickTimes(st, s, k).durationInMinutes == st.durationInMinutes
    ensures |TickTimes(st, s, k).speakers| == |st.speakers|
    ensures SecondsPerSpeaker(TickTimes(st, s, k)) == s
    ensures k > 0 ==>
      TickTimes(st, s, k).secondsRemaining ==
        DurationInSeconds(st.durationInMinutes) - TickTimes(st, s, k).speakerIndex * s
    decreases k
  {
    if k > 0 {
      TicksStep(st, s, k - 1);
      TickStep(TickTimes(st, s, k - 1), s);
      LastTick(st, s, k);
    }
  }

  /** The last of `k` ticks is applied to the state the first `k - 1` left. */
  lemma {:induction false} LastTick(st: TimerState, s: nat, k: nat)
    requires Indexed(st) && k > 0
    ensures TickTimes(st, s, k) == Update(TickTimes(st, s, k - 1), s)
    decreases k
  {
    FirstTick(st, s, k);
    if k > 1 {
      LastTick(Update(st, s), s, k - 1);
      FirstTick(st, s, k - 1);
    }
  }

  /** No speaker from the active one on has completed yet. */
  predicate NoneCompletedFrom(st: TimerState)
    requires Indexed(st)
  {
    forall j :: st.speakerIndex <= j < |st.speakers| ==> !st.speakers[j].isCompleted
  }

  /** Slot-end ticks that stay within the speakers complete no speaker from
      the new active one on. */
  lemma {:induction false} TicksCompleteNoneAhead(st: TimerState, s: nat, k: nat)
    requires Indexed(st) && !st.timerStopped && NoneCompletedFrom(st)
    requires s == SecondsPerSpeaker(st) && st.speakerIndex + k < |st.speakers|
    ensures NoneCompletedFrom(TickTimes(st, s, k))
    decreases k
  {
    if k > 0 {
      TicksCompleteNoneAhead(st, s, k - 1);
      TicksStep(st, s, k - 1);
      TickCompletesNoneAhead(TickTimes(st, s, k - 1), s);
      LastTick(st, s, k);
    }
  }

  /** One slot-end tick before the last speaker completes no speaker from
      the new active one on. */
  lemma TickCompletesNoneAhead(st: TimerState, s: nat)
    requires Indexed(st) && !st.timerStopped && NoneCompletedFrom(st)
    requires s == SecondsPerSpeaker(st) && st.speakerIndex + 1 < |st.speakers|
    ensures NoneCompletedFrom(Update(st, s))
  {
    TickStep(st, s);
    SlotEndMoves(st, s);
  }

  /** During a started meeting of non-negative length, after `k` slot-end
      ticks with `k` below the number of speakers, speaker `k` is active,
      exactly the speakers before it have completed and `k` notifications
      have fired. */
  lemma TicksDuringMeeting(minutes: int, members: seq<string>, k: nat)
    requires minutes >= 0
    requires k < |InitialSpeakers(members)|
    ensures var st := Start(Init(minutes, members));
      var s := SecondsPerSpeaker(st);
      var r := TickTimes(st, s, k);
      Indexed(r) && r.speakerIndex == k && CompletedBefore(r) && r.notifications == k &&
      !r.timerStopped && r.secondsRemaining == minutes * 60 - k * s
    ensures var st := Start(Init(minutes, members));
      var r := TickTimes(st, SecondsPerSpeaker(st), k);
      |r.speakers| == |st.speakers| &&
      forall j :: 0 <= j < |r.speakers| ==> (r.speakers[j].isCompleted <==> j < k)
  {
    InitialState(minutes, members);
    var st := Start(Init(minutes, members));
    var s := SecondsPerSpeaker(st);
    StartRewinds(Init(minutes, members));
    SlotStartWithinMeeting(st, 0);
    TicksAdvance(st, s, k);
    TicksStep(st, s, k);
    TicksCompleteNoneAhead(st, s, k);
  }

  /** The slot-end tick of the last speaker, when every earlier speaker has
      completed, completes them all, keeps the last one active, fires one
      notification, and leaves the meeting minus every slot as remaining
      time. */
  lemma FinalTick(st: TimerState, s: nat)
    requires Indexed(st) && !st.timerStopped && CompletedBefore(st) && st.durationInMinutes >= 0
    requires s == SecondsPerSpeaker(st) && st.speakerIndex == |st.speakers| - 1
    ensures !Update(st, s).timerStopped
    ensures Update(st, s).speakerIndex == |st.speakers| - 1
    ensures |Update(st, s).speakers| == |st.speakers|
    ensures forall j :: 0 <= j < |st.speakers| ==> Update(st, s).speakers[j].isCompleted
    ensures Update(st, s).notifications == st.notifications + 1
    ensures Update(st, s).durationInMinutes == st.durationInMinutes
    ensures Update(st, s).secondsRemaining == DurationInSeconds(st.durationInMinutes) - |st.speakers| * s
  {
    var n, r := |st.speakers|, Update(st, s);
    SlotEndMoves(st, s);
    UpdateAdvancesOnlyAtSlotEnd(st, s);
    LastSlotEnd(s, n, DurationInSeconds(st.durationInMinutes));
    assert r.secondsElapsed == n * s;
    assert forall j :: 0 <= j < n ==> r.speakers[j].isCompleted by {
      assert OnlyCompletes(st.speakers, r.speakers);
    }
  }

  /** The arithmetic of the last slot: `n` slots of `s` seconds end within
      a total `a` that holds them. */
  lemma LastSlotEnd(s: int, n: int, a: int)
    requires n > 0 && 0 <= s * n <= a
    ensures s * (n - 1) + s == n * s && 0 <= a - n * s
  {
  }

  /** From any slot of a running timer, one slot-end tick per remaining
      speaker completes every speaker, leaves the last one active, fires one
      notification per tick and leaves the meeting minus every slot as
      remaining time. */
  lemma TicksToEnd(st: TimerState, s: nat)
    requires Indexed(st) && !st.timerStopped && CompletedBefore(st) && st.durationInMinutes >= 0
    requires s == SecondsPerSpeaker(st)
    ensures var k := |st.speakers| - st.speakerIndex;
      !TickTimes(st, s, k).timerStopped &&
      TickTimes(st, s, k).speakerIndex == |st.speakers| - 1 &&
      |TickTimes(st, s, k).speakers| == |st.speakers| &&
      (forall j :: 0 <= j < |st.speakers| ==> TickTimes(st, s, k).speakers[j].isCompleted) &&
      TickTimes(st, s, k).notifications == st.notifications + k &&
      TickTimes(st, s, k).durationInMinutes == st.durationInMinutes &&
      TickTimes(st, s, k).secondsRemaining == DurationInSeconds(st.durationInMinutes) - |st.speakers| * s
  {
    var k := |st.speakers| - st.speakerIndex;
    var pre := TickTimes(st, s, k - 1);
    TicksStep(st, s, k - 1);
    TicksKeepCompleted(st, s, k - 1);
    FinalTick(pre, s);
    LastTick(st, s, k);
    assert TickTimes(st, s, k) == Update(pre, s);
  }

  /** What a total `a` split evenly `n` ways leaves over is `a` modulo `n`. */
  lemma Leftover(a: int, n: int, s: int)
    requires a >= 0 && n > 0 && s == a / n
    ensures a - n * s == a % n
  {
    assert a == (a / n) * n + a % n;
  }

  /** One slot-end tick per speaker of a started meeting of non-negative
      length completes every speaker, leaves the last one active and fires
      one notification per speaker; the remaining time is then what the even
      split leaves over, the meeting length modulo the number of speakers,
      which is zero only when the split is exact. */
  lemma TicksThroughMeeting(minutes: int, members: seq<string>)
    requires minutes >= 0
    ensures var st := Start(Init(minutes, members));
      var n := |st.speakers|;
      var s := SecondsPerSpeaker(st);
      var r := TickTimes(st, s, n);
      Inv(r) && !r.timerStopped &&
      r.speakerIndex == n - 1 && |r.speakers| == n &&
      (forall j :: 0 <= j < n ==> r.speakers[j].isCompleted) &&
      r.notifications == n &&
      r.durationInMinutes == minutes &&
      r.secondsRemaining == minutes * 60 - n * s == (minutes * 60) % n
  {
    InitialState(minutes, members);
    StartRewinds(Init(minutes, members));
    var st := Start(Init(minutes, members));
    var n, s := |st.speakers|, SecondsPerSpeaker(st);
    TicksToEnd(st, s);
    TicksKeepInv(st, s, n);
    SlotIsFloor(st);
    Leftover(minutes * 60, n, s);
  }

  /** On the last speaker, no tick brings the remaining time below the
      meeting minus every slot: ticks later than the slot length are stale
      and leave it as it is, and the others recount from inside the last
      slot. */
  lemma LeftoverStays(st: TimerState, u: nat)
    requires Indexed(st) && st.durationInMinutes >= 0 && st.speakerIndex == |st.speakers| - 1
    requires st.secondsRemaining >= DurationInSeconds(st.durationInMinutes) - |st.speakers| * SecondsPerSpeaker(st)
    ensures var r := Update(st, u);
      r.secondsRemaining >= DurationInSeconds(st.durationInMinutes) - |st.speakers| * SecondsPerSpeaker(st) &&
      (u > SecondsPerSpeaker(st) ==> r.secondsRemaining == st.secondsRemaining)
    ensures var r := Update(st, u);
      r.speakerIndex == st.speakerIndex && |r.speakers| == |st.speakers| &&
      r.durationInMinutes == st.durationInMinutes
  {
    var n, s, r := |st.speakers|, SecondsPerSpeaker(st), Update(st, u);
    UpdateAdvancesOnlyAtSlotEnd(st, u);
    if u > s {
      UpdateStaleTick(st, u);
    } else {
      WithinLastSlot(s, n, u);
      if !st.timerStopped && u == s {
        SlotEndMoves(st, u);
      } else {
        UpdateWithinSlot(st, u);
      }
      assert r.secondsRemaining >= DurationInSeconds(st.durationInMinutes) - (s * (n - 1) + u);
    }
  }

  /** The ticks of `us`, in order, each reading its own number of seconds
      into the current slot. */
  function AfterTicks(st: TimerState, us: seq<nat>): (r: TimerState)
    requires Indexed(st)
    ensures Indexed(r)
  {
    if us == [] then st else Update(AfterTicks(st, us[..|us| - 1]), us[|us| - 1])
  }

  /** Once every tick reads more than the slot length (no tick landed in
      the one whole second that equals it), the timer is stuck: no run of
      such ticks changes the active speaker, the speakers, the remaining
      time or the notification count. */
  lemma {:induction false} StaleTicksStay(st: TimerState, us: seq<nat>)
    requires Indexed(st)
    requires forall i :: 0 <= i < |us| ==> us[i] > SecondsPerSpeaker(st)
    ensures var r := AfterTicks(st, us);
      r.speakerIndex == st.speakerIndex && r.speakers == st.speakers &&
      r.secondsRemaining == st.secondsRemaining && r.notifications == st.notifications &&
      r.durationInMinutes == st.durationInMinutes && r.timerStopped == st.timerStopped
    decreases |us|
  {
    if us != [] {
      var prev := AfterTicks(st, us[..|us| - 1]);
      StaleTicksStay(st, us[..|us| - 1]);
      SameSlots(st, prev);
      UpdateStaleTick(prev, us[|us| - 1]);
    }
  }

  /** On the last speaker, the meeting minus every slot is a floor for the
      remaining time that every tick keeps, whatever it reads: no run of
      ticks brings the remaining time below it. */
  lemma {:induction false} LeftoverKept(st: TimerState, us: seq<nat>)
    requires Indexed(st) && st.durationInMinutes >= 0 && st.speakerIndex == |st.speakers| - 1
    requires st.secondsRemaining >= DurationInSeconds(st.durationInMinutes) - |st.speakers| * SecondsPerSpeaker(st)
    ensures var r := AfterTicks(st, us);
      r.speakerIndex == st.speakerIndex && |r.speakers| == |st.speakers| &&
      r.durationInMinutes == st.durationInMinutes &&
      r.secondsRemaining >= DurationInSeconds(st.durationInMinutes) - |st.speakers| * SecondsPerSpeaker(st)
    decreases |us|
  {
    if us != [] {
      var prev := AfterTicks(st, us[..|us| - 1]);
      LeftoverKept(st, us[..|us| - 1]);
      SameSlots(st, prev);
      LeftoverStays(prev, us[|us| - 1]);
    }
  }

  /** A tick inside the last of `n` slots of `s` seconds is within all `n`
      of them. */
  lemma WithinLastSlot(s: int, n: int, u: int)
    requires n > 0 && u <= s
    ensures s * (n - 1) + u <= n * s
  {
  }

  /** So once every speaker of a running timer has had a slot-end tick, no
      later tick brings the remaining time below the meeting minus every
      slot, and a stale one leaves it as it is. */
  lemma LeftoverAfterAllSpeakers(st: TimerState, s: nat, u: nat)
    requires Indexed(st) && !st.timerStopped && st.durationInMinutes >= 0 && st.speakerIndex == 0
    requires s == SecondsPerSpeaker(st)
    ensures var r := TickTimes(st, s, |st.speakers|);
      Update(r, u).secondsRemaining >= DurationInSeconds(st.durationInMinutes) - |st.speakers| * s &&
      (u > s ==> Update(r, u).secondsRemaining == r.secondsRemaining)
  {
    TicksToEnd(st, s);
    var r := TickTimes(st, s, |st.speakers|);
    SameSlots(st, r);
    LeftoverStays(r, u);
  }

  /** For a started meeting: once every speaker has had a slot-end tick, no
      run of later ticks brings the remaining time below the meeting length
      modulo the number of speakers, so when the meeting does not split
      evenly the remaining time never reaches zero. */
  lemma MeetingNeverEnds(minutes: int, members: seq<string>, us: seq<nat>)
    requires minutes >= 0
    ensures var st := Start(Init(minutes, members));
      var n := |st.speakers|;
      var r := TickTimes(st, SecondsPerSpeaker(st), n);
      AfterTicks(r, us).secondsRemaining >= (minutes * 60) % n
  {
    InitialState(minutes, members);
    StartRewinds(Init(minutes, members));
    var st := Start(Init(minutes, members));
    var n, s := |st.speakers|, SecondsPerSpeaker(st);
    TicksToEnd(st, s);
    var r := TickTimes(st, s, n);
    SameSlots(st, r);
    SlotIsFloor(st);
    Leftover(minutes * 60, n, s);
    LeftoverKept(r, us);
  }

  /** The next tick after the last slot-end tick in particular: it leaves at
      least that leftover, and a stale one leaves the remaining time as it
      is. */
  lemma MeetingEndsWithLeftover(minutes: int, members: seq<string>, u: nat)
    requires minutes >= 0
    ensures var st := Start(Init(minutes, members));
      var n := |st.speakers|;
      var s := SecondsPerSpeaker(st);
      var r := TickTimes(st, s, n);
      Update(r, u).secondsRemaining >= (minutes * 60) % n &&
      (u > s ==> Update(r, u).secondsRemaining == r.secondsRemaining)
  {
    InitialState(minutes, members);
    StartRewinds(Init(minutes, members));
    var st := Start(Init(minutes, members));
    var n, s := |st.speakers|, SecondsPerSpeaker(st);
    LeftoverAfterAllSpeakers(st, s, u);
    SlotIsFloor(st);
    Leftover(minutes * 60, n, s);
  }

  // ----- worked examples -----

  /** A ten-minute meeting of two members: 300 seconds each; the first full
      slot moves to "Speaker 2: B", the second completes both speakers with
      nothing remaining. */
  lemma TwoMemberMeeting()
    ensures var st := Start(Init(10, ["A", "B"]));
      var r1 := Update(st, 300);
      var r2 := Update(r1, 300);
      SecondsPerSpeaker(st) == 300 &&
      r1.speakerIndex == 1 && r1.activeSpeaker == "Speaker 2: B" &&
      r1.speakers == [Speaker("A", true), Speaker("B", false)] &&
      r1.secondsElapsed == 300 && r1.secondsRemaining == 300 &&
      r2.speakerIndex == 1 && r2.speakers == [Speaker("A", true), Speaker("B", true)] &&
      r2.secondsElapsed == 600 && r2.secondsRemaining == 0 && r2.notifications == 2
  {
    var st := Start(Init(10, ["A", "B"]));
    assert SecondsPerSpeaker(st) == 300;
    assert Decimal.Show(2) == "2";
    var r1 := Update(st, 300);
    assert SecondsPerSpeaker(r1) == 300;
  }

  /** Elapsed time runs backwards while the timer runs. In a ten-minute
      meeting of two members no tick lands in second 300, and the next reads
      301: it is stale, yet it still sets the elapsed time to 301, and the
      remaining time stays at 600, so it no longer equals the meeting minus
      the elapsed time. A skip then sets the elapsed time back to 300. */
  lemma SkipAfterStaleTickRewinds()
    ensures var a := Update(Start(Init(10, ["A", "B"])), 301);
      !a.timerStopped && a.speakerIndex == 0 &&
      a.secondsElapsed == 301 && a.secondsRemaining == 600 &&
      a.secondsRemaining != Max(DurationInSeconds(a.durationInMinutes) - a.secondsElapsed, 0) &&
      !Skip(a).timerStopped && Skip(a).speakerIndex == 1 && Skip(a).secondsElapsed == 300
  {
    var st := Start(Init(10, ["A", "B"]));
    InitialState(10, ["A", "B"]);
    StartRewinds(Init(10, ["A", "B"]));
    assert SecondsPerSpeaker(st) == 300;
    UpdateStaleTick(st, 301);
    var a := Update(st, 301);
    SameSlots(st, a);
    ChangeToSpeakerInRange(a, 1);
  }

  /** Ten minutes shared by seven members: 85 seconds each, so after the
      seventh slot-end tick everyone has spoken but 5 seconds still remain,
      and a later tick at 86 seconds is stale and leaves them there. */
  lemma SevenMembers()
    ensures var st := Start(Init(10, ["A", "B", "C", "D", "E", "F", "G"]));
      var r := TickTimes(st, 85, 7);
      SecondsPerSpeaker(st) == 85 &&
      r.speakerIndex == 6 && r.notifications == 7 &&
      (forall j :: 0 <= j < 7 ==> r.speakers[j].isCompleted) &&
      r.secondsRemaining == 5 && Update(r, 86).secondsRemaining == 5
  {
    var members := ["A", "B", "C", "D", "E", "F", "G"];
    var st := Start(Init(10, members));
    InitialState(10, members);
    assert SecondsPerSpeaker(st) == 85;
    TicksThroughMeeting(10, members);
    MeetingEndsWithLeftover(10, members, 86);
  }

  /** A meeting with no members and no time: the placeholder speaker's
      zero-length slot completes on the first tick. */
  lemma EmptyMeeting()
    ensures var st := Start(Init(0, []));
      var r := Update(st, 0);
      st.speakers == [Speaker("Player 1", false)] && SecondsPerSpeaker(st) == 0 &&
      r.speakers == [Speaker("Player 1", true)] && r.speakerIndex == 0 &&
      r.secondsRemaining == 0 && r.notifications == 1
  {
    var st := Start(Init(0, []));
    assert SecondsPerSpeaker(st) == 0;
  }
}
