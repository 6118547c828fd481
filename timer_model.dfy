/** The meeting timer of Scrumdinger as a state machine on values.

    `TimerState` holds every field of a `ScrumTimer` that the timing logic
    reads or writes; each operation of the timer is a function from the
    state before to the state after, written step by step in the order the
    Swift code assigns the fields. The class in `scrum_timer.dfy` is proved
    to perform exactly these transitions, and `timer_properties.dfy` proves
    what they guarantee. */
module TimerModel {
  import Decimal

  /** A meeting member during a meeting (the `UUID` identity is left out). */
  datatype Speaker = Speaker(name: string, isCompleted: bool)

  /** Every stored field of a `ScrumTimer`. `notifications` counts the calls
      of `speakerChangedAction`. */
  datatype TimerState = TimerState(
    activeSpeaker: string,
    secondsElapsed: int,
    secondsRemaining: int,
    speakers: seq<Speaker>,
    durationInMinutes: int,
    timerStopped: bool,
    secondsElapsedForSpeaker: int,
    speakerIndex: int,
    notifications: nat)

  /** The placeholder speaker used when a meeting has no members. */
  const PlaceholderName: string := "Player 1"

  /** One speaker per name, in order, none of them done. */
  function Unstarted(names: seq<string>): (r: seq<Speaker>)
    ensures |r| == |names|
    ensures forall i :: 0 <= i < |r| ==> r[i] == Speaker(names[i], false)
  {
    if names == [] then [] else [Speaker(names[0], false)] + Unstarted(names[1..])
  }

  /** The speaker list that `init` and `reset` build from the members. */
  function InitialSpeakers(members: seq<string>): (r: seq<Speaker>)
    ensures |r| >= 1
    ensures members == [] ==> r == [Speaker(PlaceholderName, false)]
    ensures members != [] ==> |r| == |members| && forall i :: 0 <= i < |r| ==> r[i].name == members[i]
    ensures forall i :: 0 <= i < |r| ==> !r[i].isCompleted
  {
    if members == [] then [Speaker(PlaceholderName, false)] else Unstarted(members)
  }

  /** Swift's `/` on `Int`, which truncates toward zero (Dafny's `/` is
      Euclidean and differs for a negative dividend). */
  function TruncDiv(a: int, b: int): (q: int)
    requires b > 0
  {
    if a >= 0 then a / b else -((-a) / b)
  }

  /** The truncated quotient is the multiple of the divisor nearest to the
      dividend on the side of zero. */
  lemma TruncDivBounds(a: int, b: int)
    requires b > 0
    ensures 0 <= a ==> 0 <= TruncDiv(a, b) * b <= a < TruncDiv(a, b) * b + b
    ensures a < 0 ==> TruncDiv(a, b) * b - b < a <= TruncDiv(a, b) * b <= 0
  {
    if a >= 0 {
      DivBounds(a, b);
    } else {
      DivBounds(-a, b);
    }
  }

  /** Euclidean division of a natural number brackets the dividend. */
  lemma DivBounds(a: nat, b: int)
    requires b > 0
    ensures 0 <= (a / b) * b <= a < (a / b) * b + b
  {
    assert a == (a / b) * b + a % b;
  }

  function Max(a: int, b: int): int
  {
    if a >= b then a else b
  }

  /** `durationInSeconds`: whole minutes converted to seconds. */
  function DurationInSeconds(minutes: int): (r: int)
    ensures r >= 0 <==> minutes >= 0
  {
    minutes * 60
  }

  /** `secondsPerSpeaker`: the meeting split evenly among the speakers,
      rounded down for a non-negative duration. */
  function SecondsPerSpeaker(st: TimerState): (r: int)
    requires st.speakers != []
    ensures st.durationInMinutes >= 0 ==> r >= 0
  {
    TruncDiv(DurationInSeconds(st.durationInMinutes), |st.speakers|)
  }

  /** For a meeting of non-negative length, the slots of all speakers fit in
      it and leave less than one more speaker's worth over. */
  lemma SlotBounds(st: TimerState)
    requires st.speakers != []
    ensures var r, n := SecondsPerSpeaker(st), |st.speakers|;
      st.durationInMinutes >= 0 ==>
        0 <= r * n <= DurationInSeconds(st.durationInMinutes) < (r + 1) * n
  {
    TruncDivBounds(DurationInSeconds(st.durationInMinutes), |st.speakers|);
  }

  /** `speakerText`: "Speaker <n>: <name>" with n counted from 1. */
  function SpeakerText(st: TimerState): (r: string)
    requires 0 <= st.speakerIndex < |st.speakers|
  {
    "Speaker " + Decimal.Show(st.speakerIndex + 1) + ": " + st.speakers[st.speakerIndex].name
  }

  /** What every reachable state satisfies structurally: there is a speaker,
      and the index names one of them. */
  predicate Indexed(st: TimerState)
  {
    |st.speakers| >= 1 && 0 <= st.speakerIndex < |st.speakers|
  }

  /** The published label shows the active speaker. */
  predicate Labelled(st: TimerState)
    requires Indexed(st)
  {
    st.activeSpeaker == SpeakerText(st)
  }

  /** For a meeting of non-negative length, the remaining time lies between
      zero and the whole meeting. */
  predicate RemainingBounded(st: TimerState)
  {
    st.durationInMinutes >= 0 ==> 0 <= st.secondsRemaining <= DurationInSeconds(st.durationInMinutes)
  }

  /** The invariant every operation keeps. */
  predicate Inv(st: TimerState)
  {
    Indexed(st) && Labelled(st) && RemainingBounded(st)
  }

  /** `init(durationInMinutes:members:)`. */
  function Init(minutes: int, members: seq<string>): (r: TimerState)
    ensures Indexed(r)
    ensures r.speakers == InitialSpeakers(members)
    ensures r.secondsRemaining == DurationInSeconds(minutes)
  {
    var st := TimerState("", 0, 0, InitialSpeakers(members), minutes, false, 0, 0, 0);
    var st := st.(secondsRemaining := DurationInSeconds(minutes));
    st.(activeSpeaker := SpeakerText(st))
  }

  /** `reset(durationInMinutes:members:)`. The label is recomputed for the
      old `speakerIndex`, which Swift only allows when that index exists in
      the new speaker list. */
  function Reset(st: TimerState, minutes: int, members: seq<string>): (r: TimerState)
    requires Indexed(st)
    requires st.speakerIndex < |InitialSpeakers(members)|
    ensures Indexed(r)
  {
    var st := st.(durationInMinutes := minutes, speakers := InitialSpeakers(members));
    var st := st.(secondsRemaining := DurationInSeconds(minutes));
    st.(activeSpeaker := SpeakerText(st))
  }

  /** `changeToSpeaker(at:)`. Callers pass 0 or `speakerIndex + 1`, so the
      index is at most one past the last speaker. */
  function ChangeToSpeaker(st: TimerState, index: int): (r: TimerState)
    requires Indexed(st)
    requires 0 <= index <= |st.speakers|
    ensures Indexed(r)
  {
    var st := if index > 0
      then st.(speakers := st.speakers[index - 1 := st.speakers[index - 1].(isCompleted := true)])
      else st;
    var st := st.(secondsElapsedForSpeaker := 0);
    if index >= |st.speakers| then st
    else
      var st := st.(speakerIndex := index);
      var st := st.(activeSpeaker := SpeakerText(st));
      var st := st.(secondsElapsed := index * SecondsPerSpeaker(st));
      st.(secondsRemaining := DurationInSeconds(st.durationInMinutes) - st.secondsElapsed)
  }

  /** `startScrum()`. */
  function Start(st: TimerState): (r: TimerState)
    requires Indexed(st)
    ensures Indexed(r)
  {
    ChangeToSpeaker(st, 0)
  }

  /** `stopScrum()` (the invalidation of the run-loop timer is left out). */
  function Stop(st: TimerState): (r: TimerState)
    ensures r.timerStopped
    ensures r.(timerStopped := st.timerStopped) == st
  {
    st.(timerStopped := true)
  }

  /** `skipSpeaker()`. */
  function Skip(st: TimerState): (r: TimerState)
    requires Indexed(st)
    ensures Indexed(r)
  {
    ChangeToSpeaker(st, st.speakerIndex + 1)
  }

  /** The first step of a tick: record the sample and recompute the elapsed
      meeting time from the slot start. */
  function Sample(st: TimerState, s: nat): (r: TimerState)
    requires Indexed(st)
    ensures Indexed(r)
  {
    var st := st.(secondsElapsedForSpeaker := s);
    st.(secondsElapsed := SecondsPerSpeaker(st) * st.speakerIndex + st.secondsElapsedForSpeaker)
  }

  /** The remaining time recomputed from the elapsed time, clamped at zero. */
  function Recount(st: TimerState): (r: TimerState)
  {
    st.(secondsRemaining := Max(DurationInSeconds(st.durationInMinutes) - st.secondsElapsed, 0))
  }

  /** One call of `speakerChangedAction`. */
  function Notify(st: TimerState): (r: TimerState)
    ensures r.notifications == st.notifications + 1
    ensures r.(notifications := st.notifications) == st
  {
    st.(notifications := st.notifications + 1)
  }

  /** `update(secondsElapsed:)`, the tick handler; `s` is the whole number
      of seconds since the current speaker's slot began. */
  function Update(st: TimerState, s: nat): (r: TimerState)
    requires Indexed(st)
    ensures Indexed(r)
  {
    var st := Sample(st, s);
    if !(s <= SecondsPerSpeaker(st)) then st
    else
      var st := Recount(st);
      if st.timerStopped then st
      else if st.secondsElapsedForSpeaker >= SecondsPerSpeaker(st) then
        Notify(ChangeToSpeaker(st, st.speakerIndex + 1))
      else st
  }
}
