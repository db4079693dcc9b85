/** The PomodoroTimer aggregate: a work/break state machine whose pause and
    resume keep the running time by moving the recorded start forward. */
module Pomodoro {
  import opened Common

  datatype TimerState = Idle | Running | Paused | OnBreak | Completed

  /** The mutable fields of a timer, as one value. */
  datatype Timer = Timer(
    workMinutes: Int32,
    breakMinutes: Int32,
    sessionCount: Int32,
    state: TimerState,
    startedAt: Nullable<Ticks>,
    pausedAt: Nullable<Ticks>,
    remaining: Nullable<Ticks>,
    updatedAt: Ticks)

  /** The timer after an operation, and whether the operation threw. */
  datatype Step = Step(after: Timer, status: Status)

  /** TimeSpan.FromMinutes. */
  function MinutesToTicks(minutes: int): Ticks
  {
    minutes * TicksPerMinute
  }

  /** The unchecked C# `SessionCount++`: 32-bit two's-complement addition
      of one, so int.MaxValue wraps to int.MinValue. */
  function Increment(n: Int32): (r: Int32)
    ensures (r - n - 1) % 0x1_0000_0000 == 0
    ensures n < Int32Max ==> r == n + 1
    ensures n == Int32Max ==> r == Int32Min
  {
    if n == Int32Max then Int32Min else n + 1
  }

  /** What holds of every timer the constructor and the operations produce:
      both durations are positive, the unused Completed state is never
      entered, and each state fixes which of the optional fields are set. */
  ghost predicate Invariant(t: Timer)
  {
    && t.workMinutes > 0 && t.breakMinutes > 0
    && t.state != Completed
    && (t.state == Idle ==> t.remaining == Null)
    && (t.state == Running ==>
          t.startedAt.NonNull? && t.pausedAt == Null && t.remaining == NonNull(MinutesToTicks(t.workMinutes)))
    && (t.state == Paused ==>
          t.startedAt.NonNull? && t.pausedAt.NonNull? && t.remaining == NonNull(MinutesToTicks(t.workMinutes)))
    && (t.state == OnBreak ==> t.remaining == NonNull(MinutesToTicks(t.breakMinutes)))
  }

  /** The constructor: non-positive durations throw ArgumentException, the
      work duration being checked first; a new timer is idle with no session. */
  function Initial(workMinutes: Int32, breakMinutes: Int32, now: Ticks): (r: Result<Timer>)
    ensures r.Success? <==> workMinutes > 0 && breakMinutes > 0
    ensures workMinutes <= 0 ==> r == Failure(Argument("workDurationMinutes"))
    ensures workMinutes > 0 && breakMinutes <= 0 ==> r == Failure(Argument("breakDurationMinutes"))
    ensures r.Success? ==> Invariant(r.value) && r.value.state == Idle && r.value.sessionCount == 0
    ensures r.Success? ==> r.value.startedAt == Null && r.value.pausedAt == Null
    ensures r.Success? ==> r.value.workMinutes == workMinutes && r.value.breakMinutes == breakMinutes
  {
    if workMinutes <= 0 then Failure(Argument("workDurationMinutes"))
    else if breakMinutes <= 0 then Failure(Argument("breakDurationMinutes"))
    else Success(Timer(workMinutes, breakMinutes, 0, Idle, Null, Null, Null, now))
  }

  /** Start: throws only when already running; otherwise begins a new work
      session that counts one more session. */
  function AfterStart(t: Timer, now: Ticks): (r: Step)
    ensures r.status.Ok? <==> t.state != Running
    ensures r.status.Fail? ==> r == Step(t, Fail(InvalidOperation(AlreadyRunning)))
    ensures r.status.Ok? ==> r.after.state == Running && r.after.sessionCount == Increment(t.sessionCount)
    ensures r.status.Ok? ==> r.after.startedAt == NonNull(now) && r.after.pausedAt == Null
    ensures r.status.Ok? ==> r.after.remaining == NonNull(MinutesToTicks(t.workMinutes))
    ensures r.status.Ok? ==> r.after.updatedAt == now
    ensures r.after.workMinutes == t.workMinutes && r.after.breakMinutes == t.breakMinutes
  {
    if t.state == Running then Step(t, Fail(InvalidOperation(AlreadyRunning)))
    else Step(t.(state := Running, startedAt := NonNull(now), pausedAt := Null,
                 remaining := NonNull(MinutesToTicks(t.workMinutes)),
                 sessionCount := Increment(t.sessionCount), updatedAt := now), Ok)
  }

  /** Pause: succeeds only from Running and records the pause time. */
  function AfterPause(t: Timer, now: Ticks): (r: Step)
    ensures r.status.Ok? <==> t.state == Running
    ensures r.status.Fail? ==> r == Step(t, Fail(InvalidOperation(NotRunning)))
    ensures r.status.Ok? ==> r.after.state == Paused && r.after.pausedAt == NonNull(now)
    ensures r.status.Ok? ==> r.after.startedAt == t.startedAt && r.after.remaining == t.remaining
    ensures r.status.Ok? ==> r.after.updatedAt == now
    ensures r.after.sessionCount == t.sessionCount
    ensures r.after.workMinutes == t.workMinutes && r.after.breakMinutes == t.breakMinutes
  {
    if t.state != Running then Step(t, Fail(InvalidOperation(NotRunning)))
    else Step(t.(state := Paused, pausedAt := NonNull(now), updatedAt := now), Ok)
  }

  /** Resume: succeeds only from Paused. The start time is moved so that
      `now - startedAt` equals the running time recorded at the pause. */
  function AfterResume(t: Timer, now: Ticks): (r: Step)
    ensures r.status.Ok? <==> t.state == Paused
    ensures r.status.Fail? ==> r == Step(t, Fail(InvalidOperation(NotPaused)))
    ensures r.status.Ok? ==> r.after.state == Running && r.after.pausedAt == Null
    ensures r.status.Ok? && t.startedAt.NonNull? && t.pausedAt.NonNull? ==>
              r.after.startedAt.NonNull? && now - r.after.startedAt.value == t.pausedAt.value - t.startedAt.value
    ensures r.status.Ok? ==> r.after.remaining == t.remaining && r.after.updatedAt == now
    ensures r.after.sessionCount == t.sessionCount
    ensures r.after.workMinutes == t.workMinutes && r.after.breakMinutes == t.breakMinutes
  {
    if t.state != Paused then Step(t, Fail(InvalidOperation(NotPaused)))
    else
      var startedAt :=
        if t.pausedAt.NonNull? && t.startedAt.NonNull? then
          var pausedDuration := t.pausedAt.value - t.startedAt.value;
          NonNull(now - pausedDuration)
        else t.startedAt;
      Step(t.(state := Running, startedAt := startedAt, pausedAt := Null, updatedAt := now), Ok)
  }

  /** Stop: never fails and clears the session. */
  function AfterStop(t: Timer, now: Ticks): (r: Step)
    ensures r.status.Ok?
    ensures r.after.state == Idle && r.after.startedAt == Null && r.after.pausedAt == Null && r.after.remaining == Null
    ensures r.after.sessionCount == t.sessionCount
    ensures r.after.workMinutes == t.workMinutes && r.after.breakMinutes == t.breakMinutes
    ensures r.after.updatedAt == now
  {
    Step(t.(state := Idle, startedAt := Null, pausedAt := Null, remaining := Null, updatedAt := now), Ok)
  }

  /** CompleteWorkSession: succeeds only from Running or Paused and starts
      the break; start and pause times are left as they were. */
  function AfterCompleteWorkSession(t: Timer, now: Ticks): (r: Step)
    ensures r.status.Ok? <==> t.state == Running || t.state == Paused
    ensures r.status.Fail? ==> r == Step(t, Fail(InvalidOperation(NoActiveSession)))
    ensures r.status.Ok? ==> r.after.state == OnBreak && r.after.remaining == NonNull(MinutesToTicks(t.breakMinutes))
    ensures r.status.Ok? ==> r.after.startedAt == t.startedAt && r.after.pausedAt == t.pausedAt
    ensures r.status.Ok? ==> r.after.updatedAt == now
    ensures r.after.sessionCount == t.sessionCount
    ensures r.after.workMinutes == t.workMinutes && r.after.breakMinutes == t.breakMinutes
  {
    if t.state != Running && t.state != Paused then Step(t, Fail(InvalidOperation(NoActiveSession)))
    else Step(t.(state := OnBreak, remaining := NonNull(MinutesToTicks(t.breakMinutes)), updatedAt := now), Ok)
  }

  /** CompleteBreak: succeeds only from OnBreak and returns to Idle. */
  function AfterCompleteBreak(t: Timer, now: Ticks): (r: Step)
    ensures r.status.Ok? <==> t.state == OnBreak
    ensures r.status.Fail? ==> r == Step(t, Fail(InvalidOperation(NoActiveBreak)))
    ensures r.status.Ok? ==> r.after.state == Idle && r.after.remaining == Null
    ensures r.status.Ok? ==> r.after.startedAt == t.startedAt && r.after.pausedAt == t.pausedAt
    ensures r.status.Ok? ==> r.after.updatedAt == now
    ensures r.after.sessionCount == t.sessionCount
    ensures r.after.workMinutes == t.workMinutes && r.after.breakMinutes == t.breakMinutes
  {
    if t.state != OnBreak then Step(t, Fail(InvalidOperation(NoActiveBreak)))
    else Step(t.(state := Idle, remaining := Null, updatedAt := now), Ok)
  }

  /** UpdateDurations: throws unless Idle; a non-positive work duration
      throws with nothing changed, a non-positive break duration throws
      after the work duration has already been replaced. */
  function AfterUpdateDurations(t: Timer, workMinutes: Int32, breakMinutes: Int32, now: Ticks): (r: Step)
    ensures r.status.Ok? <==> t.state == Idle && workMinutes > 0 && breakMinutes > 0
    ensures t.state != Idle ==> r == Step(t, Fail(InvalidOperation(TimerActive)))
    ensures t.state == Idle && workMinutes <= 0 ==> r == Step(t, Fail(Argument("workDurationMinutes")))
    ensures t.state == Idle && workMinutes > 0 && breakMinutes <= 0 ==>
              r == Step(t.(workMinutes := workMinutes), Fail(Argument("breakDurationMinutes")))
    ensures r.status.Ok? ==> r.after == t.(workMinutes := workMinutes, breakMinutes := breakMinutes, updatedAt := now)
  {
    if t.state != Idle then Step(t, Fail(InvalidOperation(TimerActive)))
    else if workMinutes <= 0 then Step(t, Fail(Argument("workDurationMinutes")))
    else
      var t1 := t.(workMinutes := workMinutes);
      if breakMinutes <= 0 then Step(t1, Fail(Argument("breakDurationMinutes")))
      else Step(t1.(breakMinutes := breakMinutes, updatedAt := now), Ok)
  }

  /** ResetSessionCount: never fails and changes only the counter and UpdatedAt. */
  function AfterResetSessionCount(t: Timer, now: Ticks): (r: Step)
    ensures r.status.Ok?
    ensures r.after == t.(sessionCount := 0, updatedAt := now)
  {
    Step(t.(sessionCount := 0, updatedAt := now), Ok)
  }

  /** The public operations of the timer, for reasoning about sequences of calls. */
  datatype Op =
    | DoStart | DoPause | DoResume | DoStop | DoCompleteWorkSession | DoCompleteBreak
    | DoUpdateDurations(workMinutes: Int32, breakMinutes: Int32)
    | DoResetSessionCount

  function Apply(t: Timer, op: Op, now: Ticks): Step
  {
    match op
    case DoStart => AfterStart(t, now)
    case DoPause => AfterPause(t, now)
    case DoResume => AfterResume(t, now)
    case DoStop => AfterStop(t, now)
    case DoCompleteWorkSession => AfterCompleteWorkSession(t, now)
    case DoCompleteBreak => AfterCompleteBreak(t, now)
    case DoUpdateDurations(w, b) => AfterUpdateDurations(t, w, b, now)
    case DoResetSessionCount => AfterResetSessionCount(t, now)
  }

  /** The timer after a sequence of calls, each at its own time, whether or
      not the calls threw (a throwing call leaves what it had already done). */
  function Run(t: Timer, calls: seq<(Op, Ticks)>): Timer
    decreases |calls|
  {
    if calls == [] then t else Run(Apply(t, calls[0].0, calls[0].1).after, calls[1..])
  }

  /** Every operation, successful or not, keeps the invariant. */
  lemma ApplyKeepsInvariant(t: Timer, op: Op, now: Ticks)
    requires Invariant(t)
    ensures Invariant(Apply(t, op, now).after)
  {
  }

  /** Any sequence of calls keeps the invariant: durations stay positive and
      the Completed state is never reached. */
  lemma {:induction false} RunKeepsInvariant(t: Timer, calls: seq<(Op, Ticks)>)
    requires Invariant(t)
    ensures Invariant(Run(t, calls))
    ensures Run(t, calls).workMinutes > 0 && Run(t, calls).breakMinutes > 0
    ensures Run(t, calls).state != Completed
    decreases |calls|
  {
    if calls != [] {
      ApplyKeepsInvariant(t, calls[0].0, calls[0].1);
      RunKeepsInvariant(Apply(t, calls[0].0, calls[0].1).after, calls[1..]);
    }
  }

  /** The running time shown by the timer: wall time since the (moving)
      start while running, frozen at the pause while paused. */
  function RunningTime(t: Timer, now: Ticks): int
  {
    match t.state
    case Running => if t.startedAt.NonNull? then now - t.startedAt.value else 0
    case Paused => if t.startedAt.NonNull? && t.pausedAt.NonNull? then t.pausedAt.value - t.startedAt.value else 0
    case _ => 0
  }

  /** Pausing at `p` and resuming at `q` gives back the running time of the
      moment of the pause, however long the pause was. */
  lemma PauseResumeKeepsRunningTime(t: Timer, p: Ticks, q: Ticks)
    requires Invariant(t) && t.state == Running
    ensures var paused := AfterPause(t, p);
            var resumed := AfterResume(paused.after, q);
            && paused.status.Ok? && resumed.status.Ok? && resumed.after.state == Running
            && RunningTime(paused.after, q) == RunningTime(t, p)
            && RunningTime(resumed.after, q) == RunningTime(t, p)
  {
  }

  /** The total length of a list of (pause, resume) intervals. */
  function PausedTotal(intervals: seq<(Ticks, Ticks)>): int
    decreases |intervals|
  {
    if intervals == [] then 0 else (intervals[0].1 - intervals[0].0) + PausedTotal(intervals[1..])
  }

  /** The timer after a pause and a resume at each of the given intervals. */
  function PauseResumeCycles(t: Timer, intervals: seq<(Ticks, Ticks)>): Timer
    decreases |intervals|
  {
    if intervals == [] then t
    else PauseResumeCycles(AfterResume(AfterPause(t, intervals[0].0).after, intervals[0].1).after, intervals[1..])
  }

  /** Any number of pause/resume cycles moves the start forward by exactly the
      total paused time, so the running time is the wall time since the start
      minus the time spent paused; no separate accumulator is needed. */
  lemma {:induction false} CyclesShiftStart(t: Timer, intervals: seq<(Ticks, Ticks)>, now: Ticks)
    requires Invariant(t) && t.state == Running
    ensures var t' := PauseResumeCycles(t, intervals);
            && Invariant(t') && t'.state == Running
            && t'.startedAt == NonNull(t.startedAt.value + PausedTotal(intervals))
            && RunningTime(t', now) == now - t.startedAt.value - PausedTotal(intervals)
            && t'.sessionCount == t.sessionCount
    decreases |intervals|
  {
    if intervals != [] {
      var (p, q) := intervals[0];
      var t1 := AfterResume(AfterPause(t, p).after, q).after;
      assert t1.startedAt == NonNull(t.startedAt.value + (q - p));
      CyclesShiftStart(t1, intervals[1..], now);
    }
  }

  /** A 25/5 timer through one full work session and break. */
  lemma WorkAndBreakScenario(now0: Ticks, now1: Ticks, now2: Ticks, now3: Ticks)
    ensures Initial(25, 5, now0).Success?
    ensures var t0 := Initial(25, 5, now0).value;
            var s1 := AfterStart(t0, now1);
            var s2 := AfterCompleteWorkSession(s1.after, now2);
            var s3 := AfterCompleteBreak(s2.after, now3);
            && s1.status.Ok? && s1.after.state == Running && s1.after.sessionCount == 1
            && s2.status.Ok? && s2.after.state == OnBreak && s2.after.remaining == NonNull(MinutesToTicks(5))
            && s3.status.Ok? && s3.after.state == Idle && s3.after.remaining == Null
  {
  }

  class PomodoroTimer {
    const Id: Guid
    const MindMapId: Guid
    var WorkDurationMinutes: Int32
    var BreakDurationMinutes: Int32
    var SessionCount: Int32
    var CurrentState: TimerState
    var StartedAt: Nullable<Ticks>
    var PausedAt: Nullable<Ticks>
    var RemainingTime: Nullable<Ticks>
    const CreatedAt: Ticks
    var UpdatedAt: Ticks

    function Snapshot(): Timer
      reads this
    {
      Timer(WorkDurationMinutes, BreakDurationMinutes, SessionCount, CurrentState,
            StartedAt, PausedAt, RemainingTime, UpdatedAt)
    }

    ghost predicate Valid()
      reads this
    {
      Invariant(Snapshot())
    }

    /** The constructor once its duration checks have passed. */
    constructor (id: Guid, mindMapId: Guid, workDurationMinutes: Int32, breakDurationMinutes: Int32, now: Ticks)
      requires workDurationMinutes > 0 && breakDurationMinutes > 0
      ensures Valid()
      ensures Id == id && MindMapId == mindMapId && CreatedAt == now
      ensures Initial(workDurationMinutes, breakDurationMinutes, now) == Success(Snapshot())
    {
      Id, MindMapId := id, mindMapId;
      WorkDurationMinutes := workDurationMinutes;
      BreakDurationMinutes := breakDurationMinutes;
      SessionCount := 0;
      CurrentState := Idle;
      StartedAt, PausedAt, RemainingTime := Null, Null, Null;
      CreatedAt, UpdatedAt := now, now;
    }

    /** `new PomodoroTimer(id, mindMapId, work, break)`. */
    static method Create(id: Guid, mindMapId: Guid, workDurationMinutes: Int32, breakDurationMinutes: Int32, now: Ticks)
      returns (r: Result<PomodoroTimer>)
      ensures r.Failure? ==> Initial(workDurationMinutes, breakDurationMinutes, now) == Failure(r.error)
      ensures r.Success? ==> fresh(r.value) && r.value.Valid() && r.value.Id == id && r.value.MindMapId == mindMapId
      ensures r.Success? ==> Initial(workDurationMinutes, breakDurationMinutes, now) == Success(r.value.Snapshot())
    {
      if workDurationMinutes <= 0 {
        return Failure(Argument("workDurationMinutes"));
      }
      if breakDurationMinutes <= 0 {
        return Failure(Argument("breakDurationMinutes"));
      }
      var timer := new PomodoroTimer(id, mindMapId, workDurationMinutes, breakDurationMinutes, now);
      return Success(timer);
    }

    method Start(now: Ticks) returns (s: Status)
      requires Valid()
      modifies this
      ensures Valid()
      ensures Step(Snapshot(), s) == AfterStart(old(Snapshot()), now)
    {
      if CurrentState == Running {
        return Fail(InvalidOperation(AlreadyRunning));
      }
      CurrentState := Running;
      StartedAt := NonNull(now);
      PausedAt := Null;
      RemainingTime := NonNull(MinutesToTicks(WorkDurationMinutes));
      SessionCount := Increment(SessionCount);
      UpdatedAt := now;
      return Ok;
    }

    method Pause(now: Ticks) returns (s: Status)
      requires Valid()
      modifies this
      ensures Valid()
      ensures Step(Snapshot(), s) == AfterPause(old(Snapshot()), now)
    {
      if CurrentState != Running {
        return Fail(InvalidOperation(NotRunning));
      }
      CurrentState := Paused;
      PausedAt := NonNull(now);
      UpdatedAt := now;
      return Ok;
    }

    method Resume(now: Ticks) returns (s: Status)
      requires Valid()
      modifies this
      ensures Valid()
      ensures Step(Snapshot(), s) == AfterResume(old(Snapshot()), now)
    {
      if CurrentState != Paused {
        return Fail(InvalidOperation(NotPaused));
      }
      CurrentState := Running;
      if PausedAt.NonNull? && StartedAt.NonNull? {
        var pausedDuration := PausedAt.value - StartedAt.value;
        StartedAt := NonNull(now - pausedDuration);
      }
      PausedAt := Null;
      UpdatedAt := now;
      return Ok;
    }

    method Stop(now: Ticks)
      requires Valid()
      modifies this
      ensures Valid()
      ensures Snapshot() == AfterStop(old(Snapshot()), now).after
    {
      CurrentState := Idle;
      StartedAt, PausedAt, RemainingTime := Null, Null, Null;
      UpdatedAt := now;
    }

    method CompleteWorkSession(now: Ticks) returns (s: Status)
      requires Valid()
      modifies this
      ensures Valid()
      ensures Step(Snapshot(), s) == AfterCompleteWorkSession(old(Snapshot()), now)
    {
      if CurrentState != Running && CurrentState != Paused {
        return Fail(InvalidOperation(NoActiveSession));
      }
      CurrentState := OnBreak;
      RemainingTime := NonNull(MinutesToTicks(BreakDurationMinutes));
      UpdatedAt := now;
      return Ok;
    }

    method CompleteBreak(now: Ticks) returns (s: Status)
      requires Valid()
      modifies this
      ensures Valid()
      ensures Step(Snapshot(), s) == AfterCompleteBreak(old(Snapshot()), now)
    {
      if CurrentState != OnBreak {
        return Fail(InvalidOperation(NoActiveBreak));
      }
      CurrentState := Idle;
      RemainingTime := Null;
      UpdatedAt := now;
      return Ok;
    }

    method UpdateDurations(workDurationMinutes: Int32, breakDurationMinutes: Int32, now: Ticks) returns (s: Status)
      requires Valid()
      modifies this
      ensures Valid()
      ensures Step(Snapshot(), s) == AfterUpdateDurations(old(Snapshot()), workDurationMinutes, breakDurationMinutes, now)
    {
      if CurrentState != Idle {
        return Fail(InvalidOperation(TimerActive));
      }
      if workDurationMinutes <= 0 {
        return Fail(Argument("workDurationMinutes"));
      }
      WorkDurationMinutes := workDurationMinutes;
      if breakDurationMinutes <= 0 {
        return Fail(Argument("breakDurationMinutes"));
      }
      BreakDurationMinutes := breakDurationMinutes;
      UpdatedAt := now;
      return Ok;
    }

    method ResetSessionCount(now: Ticks)
      requires Valid()
      modifies this
      ensures Valid()
      ensures Snapshot() == AfterResetSessionCount(old(Snapshot()), now).after
    {
      SessionCount := 0;
      UpdatedAt := now;
    }
  }
}
