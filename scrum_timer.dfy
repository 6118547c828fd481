/** The `ScrumTimer` object: the fields the Swift class stores, updated in
    place by its methods. Each method is proved to perform exactly the
    transition of the same name in `TimerModel` and to keep `TimerModel.Inv`;
    what those transitions guarantee is proved in `TimerProperties`. */
module Scrumdinger {
  import opened TimerModel
  import TimerProperties

  class ScrumTimer {
    /** The label of the meeting member who is speaking. */
    var activeSpeaker: string
    /** Seconds since the beginning of the meeting. */
    var secondsElapsed: int
    /** Seconds until all members have had a turn. */
    var secondsRemaining: int
    /** All members, in speaking order. */
    var speakers: seq<Speaker>
    /** The meeting length. */
    var durationInMinutes: int
    /** How many times `speakerChangedAction` has been called. */
    var notifications: nat

    var timerStopped: bool
    var secondsElapsedForSpeaker: int
    var speakerIndex: int

    /** The object's fields as a value. */
    function State(): TimerState
      reads this
    {
      TimerState(activeSpeaker, secondsElapsed, secondsRemaining, speakers, durationInMinutes,
                 timerStopped, secondsElapsedForSpeaker, speakerIndex, notifications)
    }

    ghost predicate Valid()
      reads this
    {
      Inv(State())
    }

    /** `init(durationInMinutes:members:)`, with the same defaults. */
    constructor (durationInMinutes: int := 0, members: seq<string> := [])
      ensures Valid()
      ensures State() == Init(durationInMinutes, members)
    {
      this.durationInMinutes := durationInMinutes;
      speakers := InitialSpeakers(members);
      activeSpeaker, secondsElapsed, secondsRemaining := "", 0, 0;
      timerStopped, secondsElapsedForSpeaker, speakerIndex := false, 0, 0;
      notifications := 0;
      new;
      secondsRemaining := TimerModel.DurationInSeconds(durationInMinutes);
      activeSpeaker := TimerModel.SpeakerText(State());
      TimerProperties.InitialState(durationInMinutes, members);
    }

    /** `startScrum()`. */
    method StartScrum()
      requires Valid()
      modifies this
      ensures Valid()
      ensures State() == Start(old(State()))
    {
      ChangeToSpeaker(0);
    }

    /** `stopScrum()`. */
    method StopScrum()
      requires Valid()
      modifies this
      ensures Valid()
      ensures State() == Stop(old(State()))
    {
      timerStopped := true;
    }

    /** `skipSpeaker()`. */
    method SkipSpeaker()
      requires Valid()
      modifies this
      ensures Valid()
      ensures State() == Skip(old(State()))
    {
      ChangeToSpeaker(speakerIndex + 1);
    }

    /** `changeToSpeaker(at:)`; the scheduling of the next tick source is
        left out. */
    method ChangeToSpeaker(index: int)
      requires Valid()
      requires 0 <= index <= |speakers|
      modifies this
      ensures Valid()
      ensures State() == TimerModel.ChangeToSpeaker(old(State()), index)
    {
      ghost var before := State();
      TimerProperties.ChangeToSpeakerKeepsInv(before, index);
      if index > 0 {
        var previousSpeakerIndex := index - 1;
        speakers := speakers[previousSpeakerIndex := speakers[previousSpeakerIndex].(isCompleted := true)];
      }
      secondsElapsedForSpeaker := 0;
      if index >= |speakers| {
        assert State() == TimerModel.ChangeToSpeaker(before, index);
        return;
      }
      speakerIndex := index;
      activeSpeaker := TimerModel.SpeakerText(State());
      assert TimerModel.SecondsPerSpeaker(State()) == TimerModel.SecondsPerSpeaker(before);
      this.secondsElapsed := index * TimerModel.SecondsPerSpeaker(State());
      secondsRemaining := TimerModel.DurationInSeconds(durationInMinutes) - this.secondsElapsed;
      assert State() == TimerModel.ChangeToSpeaker(before, index);
    }

    /** `update(secondsElapsed:)`, the tick handler; the caller supplies the
        whole seconds since the current slot began. */
    method Update(secondsElapsed: nat)
      requires Valid()
      modifies this
      ensures Valid()
      ensures State() == TimerModel.Update(old(State()), secondsElapsed)
    {
      ghost var before, after := State(), TimerModel.Update(State(), secondsElapsed);
      TimerProperties.UpdateKeepsInv(before, secondsElapsed);
      secondsElapsedForSpeaker := secondsElapsed;
      this.secondsElapsed := TimerModel.SecondsPerSpeaker(State()) * speakerIndex + secondsElapsedForSpeaker;
      assert State() == Sample(before, secondsElapsed);
      if !(secondsElapsed <= TimerModel.SecondsPerSpeaker(State())) {
        assert State() == after;
        return;
      }
      secondsRemaining := Max(TimerModel.DurationInSeconds(durationInMinutes) - this.secondsElapsed, 0);
      assert State() == Recount(Sample(before, secondsElapsed));
      TimerProperties.InSlotKeepsInv(before, secondsElapsed);
      if timerStopped {
        assert State() == after;
        return;
      }
      if secondsElapsedForSpeaker >= TimerModel.SecondsPerSpeaker(State()) {
        ChangeToSpeaker(speakerIndex + 1);
        notifications := notifications + 1;
      }
      assert State() == after;
    }

    /** `reset(durationInMinutes:members:)`. Swift traps on
        `speakers[speakerIndex]` unless the active index exists in the new
        speaker list, so callers must ensure it does. */
    method Reset(durationInMinutes: int, members: seq<string>)
      requires Valid()
      requires speakerIndex < |InitialSpeakers(members)|
      modifies this
      ensures Valid()
      ensures State() == TimerModel.Reset(old(State()), durationInMinutes, members)
    {
      TimerProperties.ResetRebuildsSpeakersOnly(State(), durationInMinutes, members);
      this.durationInMinutes := durationInMinutes;
      speakers := InitialSpeakers(members);
      secondsRemaining := TimerModel.DurationInSeconds(durationInMinutes);
      activeSpeaker := TimerModel.SpeakerText(State());
    }
  }

  /** A scheduled meeting, reduced to the fields the timer uses (identity,
      color and history are left out). */
  datatype DailyScrum = DailyScrum(title: string, members: seq<string>, durationInMinutes: int)

  /** `DailyScrum.timer`: a new timer for the meeting's length and members. */
  method TimerFor(scrum: DailyScrum) returns (timer: ScrumTimer)
    ensures fresh(timer) && timer.Valid()
    ensures timer.State() == Init(scrum.durationInMinutes, scrum.members)
  {
    timer := new ScrumTimer(scrum.durationInMinutes, scrum.members);
  }
}
