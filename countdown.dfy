/**
 * `boss_respawn_task` as an explicit state machine. Each `asyncio.sleep`
 * becomes a phase that waits for a timestamp; `Step(t, now, info)` is one
 * resumption of the coroutine at Unix time `now`, reading the boss row
 * `info` from the store, and returns the new task state, the broadcasts it
 * sent and the store write it made. `task.cancel()` sets a flag that the
 * next resumption observes.
 */
module Countdown {
  import opened Wrappers
  import opened Catalog
  import opened Database

  /** How a finished task ended: ran to the end, was cancelled, or stopped on an exception. */
  datatype Outcome = Completed | Cancelled | Failed

  datatype Phase =
    | NotStarted                          // created, the coroutine has not run yet
    | SleepingUntilWarning(wakeAt: int)   // `await asyncio.sleep(warn_ts - now_ts)`
    | SleepingUntilRespawn                // `await asyncio.sleep(respawn_ts - now_ts)`
    | Finished(outcome: Outcome)          // `task.done()`

  /** One `asyncio.Task` running `boss_respawn_task(application, boss, respawnTs)`. */
  datatype Task = Task(boss: string, respawnTs: int, phase: Phase, cancelRequested: bool)

  /** A broadcast to all users, by what it announces. */
  datatype Notice =
    | Killed(boss: string, clan: string, respawnTs: int)
    | Warning(boss: string, queueClan: Option<string>)
    | Respawned(boss: string)

  /** The store write of one step: none, or the terminal one clearing the due time. */
  datatype Write = NoWrite | ClearDue(killer: Option<string>)

  datatype StepResult = StepResult(task: Task, notices: seq<Notice>, write: Write)

  /** `asyncio.create_task(boss_respawn_task(application, boss, respawnTs))`. */
  function NewTask(boss: string, respawnTs: int): (t: Task)
    ensures Live(t) && WellFormed(t) && t.phase.NotStarted?
    ensures t.boss == boss && t.respawnTs == respawnTs
  {
    Task(boss, respawnTs, NotStarted, false)
  }

  /** `task.done()`. */
  predicate Done(t: Task)
  {
    t.phase.Finished?
  }

  /** Not done and not asked to stop: the task may still broadcast and write. */
  predicate Live(t: Task)
  {
    !Done(t) && !t.cancelRequested
  }

  /** `if not task.done(): task.cancel()`. */
  function Cancel(t: Task): (r: Task)
    ensures !Live(r)
    ensures r.boss == t.boss && r.respawnTs == t.respawnTs && r.phase == t.phase
  {
    if Done(t) then t else t.(cancelRequested := true)
  }

  /** A task only ever sleeps until ten minutes before its respawn time. */
  predicate WellFormed(t: Task)
  {
    t.phase.SleepingUntilWarning? ==> t.phase.wakeAt == t.respawnTs - WARNING_LEAD
  }

  /** `info["last_killer"] if info else None`. */
  function KillerOf(info: Option<BossRow>): Option<string>
  {
    if info.Some? then info.value.lastKiller else None
  }

  /**
   * The respawn broadcast, then `info = get_boss_info(boss)` and
   * `set_boss_killer_and_respawn(boss, info["last_killer"], None)`; with no
   * row the subscript raises and the task ends without a write.
   */
  function Respawn(t: Task, info: Option<BossRow>, sent: seq<Notice>): StepResult
  {
    match info
    case None => StepResult(t.(phase := Finished(Failed)), sent + [Respawned(t.boss)], NoWrite)
    case Some(row) => StepResult(t.(phase := Finished(Completed)), sent + [Respawned(t.boss)], ClearDue(row.lastKiller))
  }

  /** `now_ts = now; if respawn_ts > now_ts: sleep`, else go straight to the respawn. */
  function AwaitRespawn(t: Task, now: int, info: Option<BossRow>, sent: seq<Notice>): StepResult
  {
    if t.respawnTs > now then StepResult(t.(phase := SleepingUntilRespawn), sent, NoWrite)
    else Respawn(t, info, sent)
  }

  /** The warning is sent by this step: a live task wakes from its first sleep. */
  predicate WarnsAt(t: Task, now: int)
  {
    Live(t) && t.phase.SleepingUntilWarning? && now >= t.phase.wakeAt
  }

  /**
   * One resumption of the task at time `now`, with `info` the boss row as
   * stored at that moment.
   */
  function Step(t: Task, now: int, info: Option<BossRow>): (r: StepResult)
    ensures r.task.boss == t.boss && r.task.respawnTs == t.respawnTs && r.task.cancelRequested == t.cancelRequested
    ensures WellFormed(t) ==> WellFormed(r.task)
    // a finished or cancelled task does nothing more; a cancelled one finishes as Cancelled
    ensures !Live(t) ==> r.notices == [] && r.write == NoWrite && !Live(r.task)
    ensures t.cancelRequested && !Done(t) ==> r.task.phase == Finished(Cancelled)
    // a warning exactly when the first sleep ends, a respawn notice exactly when the task completes its run
    ensures r.notices ==
      (if WarnsAt(t, now) then [Warning(t.boss, QueueClan(KillerOf(info)))] else [])
      + (if Live(t) && Done(r.task) then [Respawned(t.boss)] else [])
    // the terminal write keeps the killer as re-read now, and only a live task makes it
    ensures r.write.ClearDue? <==> Live(t) && r.task.phase == Finished(Completed)
    ensures r.write.ClearDue? ==> info.Some? && r.write.killer == info.value.lastKiller
    ensures Live(t) && Done(r.task) ==> r.task.phase == (if info.Some? then Finished(Completed) else Finished(Failed))
    // no sleep of zero or negative length is started
    ensures t.phase.NotStarted? && r.task.phase.SleepingUntilWarning? ==> r.task.phase.wakeAt > now
    ensures !t.phase.SleepingUntilRespawn? && r.task.phase.SleepingUntilRespawn? ==> t.respawnTs > now
    // a live, well-formed task resumed at or after its respawn time finishes
    ensures Live(t) && WellFormed(t) && now >= t.respawnTs ==> Done(r.task)
    // and no live task finishes, announces the respawn or writes before its respawn time
    ensures Live(t) && now < t.respawnTs ==> !Done(r.task) && r.write == NoWrite && Respawned(t.boss) !in r.notices
  {
    if Done(t) then StepResult(t, [], NoWrite)
    else if t.cancelRequested then StepResult(t.(phase := Finished(Cancelled)), [], NoWrite)
    else match t.phase
      case NotStarted =>
        var warnTs := t.respawnTs - WARNING_LEAD;
        if warnTs > now then StepResult(t.(phase := SleepingUntilWarning(warnTs)), [], NoWrite)
        else AwaitRespawn(t, now, info, [])
      case SleepingUntilWarning(wakeAt) =>
        if now < wakeAt then StepResult(t, [], NoWrite)
        else AwaitRespawn(t, now, info, [Warning(t.boss, QueueClan(KillerOf(info)))])
      case SleepingUntilRespawn =>
        if now < t.respawnTs then StepResult(t, [], NoWrite)
        else Respawn(t, info, [])
  }

  /** One resumption: the time it happens at and the boss row stored then. */
  datatype Tick = Tick(now: int, info: Option<BossRow>)

  datatype RunResult = RunResult(task: Task, notices: seq<Notice>, writes: seq<Option<string>>)

  function WritesOf(w: Write): seq<Option<string>>
  {
    match w
    case NoWrite => []
    case ClearDue(killer) => [killer]
  }

  /** The task resumed once per tick, in order: its final state, broadcasts and terminal writes. */
  function Run(t: Task, ticks: seq<Tick>): RunResult
    decreases |ticks|
  {
    if |ticks| == 0 then RunResult(t, [], [])
    else
      var r := Step(t, ticks[0].now, ticks[0].info);
      var rest := Run(r.task, ticks[1..]);
      RunResult(rest.task, r.notices + rest.notices, WritesOf(r.write) + rest.writes)
  }

  /** The warnings a task still has to send when next resumed at `now`. */
  function WarningsAhead(t: Task, now: int): nat
  {
    match t.phase
    case NotStarted => if t.respawnTs - WARNING_LEAD > now then 1 else 0
    case SleepingUntilWarning(_) => 1
    case _ => 0
  }

  /** A cancelled or finished task sends nothing and writes nothing, however it is resumed. */
  lemma {:induction false} StoppedTaskIsSilent(t: Task, ticks: seq<Tick>)
    requires !Live(t)
    ensures Run(t, ticks).notices == [] && Run(t, ticks).writes == []
    ensures !Live(Run(t, ticks).task)
    ensures Done(t) ==> Run(t, ticks).task == t
    decreases |ticks|
  {
    if |ticks| > 0 {
      StoppedTaskIsSilent(Step(t, ticks[0].now, ticks[0].info).task, ticks[1..]);
    }
  }

  /**
   * A live task resumed until some resumption at or after its respawn time,
   * with its row present throughout, completes with exactly one terminal
   * write, the warnings it still had ahead, and one respawn notice last.
   */
  lemma {:induction false} RunToCompletion(t: Task, ticks: seq<Tick>)
    requires Live(t) && WellFormed(t)
    requires |ticks| > 0 && ticks[|ticks| - 1].now >= t.respawnTs
    requires forall i | 0 <= i < |ticks| :: ticks[i].info.Some?
    ensures var r := Run(t, ticks);
      && r.task.phase == Finished(Completed)
      && |r.writes| == 1
      && |r.notices| == WarningsAhead(t, ticks[0].now) + 1
      && r.notices[|r.notices| - 1] == Respawned(t.boss)
      && forall i | 0 <= i < |r.notices| - 1 :: r.notices[i].Warning? && r.notices[i].boss == t.boss
    decreases |ticks|
  {
    var s := Step(t, ticks[0].now, ticks[0].info);
    var rest := Run(s.task, ticks[1..]);
    if Done(s.task) {
      StoppedTaskIsSilent(s.task, ticks[1..]);
      assert s.notices + rest.notices == s.notices;
    } else {
      assert ticks[0].now < t.respawnTs;
      assert |ticks| > 1;
      assert ticks[1..][|ticks[1..]| - 1] == ticks[|ticks| - 1];
      RunToCompletion(s.task, ticks[1..]);
      assert WarningsAhead(t, ticks[0].now) == |s.notices| + WarningsAhead(s.task, ticks[1].now);
    }
  }

  /**
   * A freshly created task, resumed until its respawn time has passed, sends
   * the warning if and only if the warning time was still ahead when it
   * first ran, then exactly one respawn notice, and clears the due time once.
   */
  lemma NewTaskLifecycle(boss: string, respawnTs: int, ticks: seq<Tick>)
    requires |ticks| > 0 && ticks[|ticks| - 1].now >= respawnTs
    requires forall i | 0 <= i < |ticks| :: ticks[i].info.Some?
    ensures var r := Run(NewTask(boss, respawnTs), ticks);
      var warned := respawnTs - WARNING_LEAD > ticks[0].now;
      && r.task.phase == Finished(Completed)
      && |r.writes| == 1
      && |r.notices| == (if warned then 2 else 1)
      && r.notices[|r.notices| - 1] == Respawned(boss)
      && (warned ==> r.notices[0].Warning? && r.notices[0].boss == boss)
  {
    RunToCompletion(NewTask(boss, respawnTs), ticks);
  }
}
