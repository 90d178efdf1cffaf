/**
 * The bot's state and the handlers that change it: the database, the task
 * registry `boss_tasks`, the pending custom-timer table
 * `awaiting_custom_timer`, every countdown task ever created (by task id),
 * and the broadcasts sent so far.
 */
module Bot {
  import opened Wrappers
  import opened Catalog
  import opened Text
  import opened Database
  import opened Pending
  import opened Countdown

  /** The task table after `if not task.done(): task.cancel()` on the task registered for `boss`. */
  function Supersede(tasks: seq<Task>, registry: map<string, nat>, boss: string): seq<Task>
  {
    if boss in registry && registry[boss] < |tasks| then tasks[registry[boss] := Cancel(tasks[registry[boss]])]
    else tasks
  }

  /** `if respawn_end_ts and respawn_end_ts > now_ts`: set, non-zero and still ahead. */
  predicate NeedsRestore(row: BossRow, now: int)
    // the truthiness test adds nothing once the clock is past the epoch
    ensures now >= 0 ==> (NeedsRestore(row, now) <==> row.respawnEndTs.Some? && row.respawnEndTs.value > now)
  {
    row.respawnEndTs.Some? && row.respawnEndTs.value != 0 && row.respawnEndTs.value > now
  }

  /**
   * The last second a Python `datetime` can hold, 9999-12-31 23:59:59, as a
   * Unix time: `datetime.now() + timedelta(...)` past it raises OverflowError.
   */
  const DATETIME_MAX_TS: int := 253402300799

  /** The most digits `int()` converts from text under Python's default limit (ValueError beyond). */
  const INT_MAX_STR_DIGITS: nat := 4300

  /**
   * What `custom_timer_input_handler` accepts, from the sender's admin status,
   * the message text, the pending requests and the time: the position of the
   * request it consumes and the due time it sets, or nothing when it returns
   * early or raises. It needs digits after stripping, few enough for
   * `int()`, a pending request awaiting minutes, and a due time `datetime`
   * can hold.
   */
  function TimerRequest(isAdmin: bool, text: string, pending: Entries, now: int): (r: Option<(nat, int)>)
    ensures r.Some? ==> isAdmin && IsDigits(Strip(text)) && |Strip(text)| <= INT_MAX_STR_DIGITS
    ensures r.Some? ==> IsFirstAwaiting(pending, r.value.0)
    ensures r.Some? ==> r.value.1 == now + ParseNat(Strip(text)) * SECONDS_PER_MINUTE
    ensures r.Some? ==> now <= r.value.1 <= DATETIME_MAX_TS
    ensures (isAdmin && IsDigits(Strip(text)) && |Strip(text)| <= INT_MAX_STR_DIGITS && FirstAwaiting(pending).Some?
             && now + ParseNat(Strip(text)) * SECONDS_PER_MINUTE <= DATETIME_MAX_TS) ==> r.Some?
  {
    var digits := Strip(text);
    if isAdmin && IsDigits(digits) && |digits| <= INT_MAX_STR_DIGITS && FirstAwaiting(pending).Some? then
      var respawnTs := now + ParseNat(digits) * SECONDS_PER_MINUTE;
      if respawnTs <= DATETIME_MAX_TS then Some((FirstAwaiting(pending).value, respawnTs)) else None
    else None
  }

  /** The bosses `restore_boss_tasks` starts a countdown for. */
  function RestoreTargets(t: BossTable, now: int): set<string>
  {
    set name | name in t && NeedsRestore(t[name], now)
  }

  class Bot {
    const db: Database
    /** The boss catalog (`BOSSES`), fixed at start-up. */
    const catalog: seq<(string, nat)>
    /** Every task created so far; a task's id is its position. */
    var tasks: seq<Task>
    /** `boss_tasks`: the id of the task last registered for each boss. */
    var bossTasks: map<string, nat>
    /** `awaiting_custom_timer`. */
    var awaiting: Entries
    /** The broadcasts sent, in order. */
    var outbox: seq<Notice>

    /**
     * The registry points at tasks of the right boss; every task that may
     * still broadcast or write is the one registered for its boss (so at
     * most one such task per boss); the pending table has unique keys; and
     * every catalog boss has a row.
     */
    ghost predicate Valid()
      reads this, db
    {
      && (forall b | b in bossTasks :: bossTasks[b] < |tasks| && tasks[bossTasks[b]].boss == b)
      && (forall i | 0 <= i < |tasks| && Live(tasks[i]) :: tasks[i].boss in bossTasks && bossTasks[tasks[i].boss] == i)
      && (forall i | 0 <= i < |tasks| :: WellFormed(tasks[i]))
      && UniqueKeys(awaiting)
      && Names(catalog) <= db.bosses.Keys
    }

    /** Two live tasks of the same boss are the same task. */
    lemma AtMostOneLiveTask(i: nat, j: nat)
      requires Valid()
      requires i < |tasks| && j < |tasks| && Live(tasks[i]) && Live(tasks[j])
      requires tasks[i].boss == tasks[j].boss
      ensures i == j
    {
    }

    /** Nothing of the bot's state changed. */
    twostate predicate Unchanged()
      reads this, db
    {
      && tasks == old(tasks) && bossTasks == old(bossTasks) && awaiting == old(awaiting)
      && outbox == old(outbox) && db.bosses == old(db.bosses) && db.users == old(db.users)
    }

    /**
     * The re-arm common to the kill, "other" and custom-timer paths: the task
     * registered for `boss`, if unfinished, is cancelled; a new task for
     * `respawnTs` is created and registered; other registrations stay.
     */
    twostate predicate Rearmed(boss: string, respawnTs: int)
      reads this
    {
      && tasks == Supersede(old(tasks), old(bossTasks), boss) + [NewTask(boss, respawnTs)]
      && bossTasks == old(bossTasks)[boss := |old(tasks)|]
    }

    /**
     * Start-up: connect to the database file and run `init_db`; no task,
     * nothing pending. The program passes `BOSSES` as `bosses`.
     */
    constructor (bosses: seq<(string, nat)>, persistedBosses: BossTable, persistedUsers: UserTable)
      ensures Valid() && catalog == bosses
      ensures db.bosses == SeedBosses(persistedBosses, bosses)
      ensures db.users == SeedOwner(persistedUsers)
      ensures tasks == [] && bossTasks == map[] && awaiting == [] && outbox == []
    {
      var connection := new Database(persistedBosses, persistedUsers);
      connection.InitDb(bosses);
      db := connection;
      catalog := bosses;
      tasks := [];
      bossTasks := map[];
      awaiting := [];
      outbox := [];
    }

    /** Cancel the unfinished old task of `boss`, then create and register the new one. */
    method Rearm(boss: string, respawnTs: int)
      requires Valid()
      modifies this
      ensures Valid()
      ensures Rearmed(boss, respawnTs)
      ensures awaiting == old(awaiting) && outbox == old(outbox)
    {
      if boss in bossTasks {
        var previous := bossTasks[boss];
        tasks := tasks[previous := Cancel(tasks[previous])];
      }
      tasks := tasks + [NewTask(boss, respawnTs)];
      bossTasks := bossTasks[boss := |tasks| - 1];
    }

    /** The store write of a re-arm path followed by its re-arm. */
    twostate predicate Armed(boss: string, killer: Option<string>, respawnTs: int)
      reads this, db
    {
      && db.bosses == UpdateRow(old(db.bosses), boss, killer, Some(respawnTs))
      && db.users == old(db.users)
      && Rearmed(boss, respawnTs)
    }

    /**
     * `set_boss_killer_and_respawn(boss, killer, respawn_ts)`, then the
     * cancel-and-register of `Rearm`, in the order the handlers use.
     */
    method ArmTimer(boss: string, killer: Option<string>, respawnTs: int)
      requires Valid()
      modifies this, db
      ensures Valid()
      ensures Armed(boss, killer, respawnTs)
      ensures awaiting == old(awaiting) && outbox == old(outbox)
    {
      db.SetBossKillerAndRespawn(boss, killer, Some(respawnTs));
      Rearm(boss, respawnTs);
    }

    /** What the `boss_other` branch does: with a row and a catalog interval, re-arm keeping the killer. */
    twostate predicate OtherEffect(boss: string, now: int)
      reads this, db
    {
      if boss in old(db.bosses) && HoursIn(catalog, boss).Some? then
        var respawnTs := now + HoursIn(catalog, boss).value * SECONDS_PER_HOUR;
        && Armed(boss, old(db.bosses)[boss].lastKiller, respawnTs)
        && awaiting == old(awaiting) && outbox == old(outbox)
      else Unchanged()
    }

    /** The `boss_other` branch of `callback_query_handler` (it checks no role). */
    method BossOther(boss: string, now: int)
      requires Valid()
      modifies this, db
      ensures Valid()
      ensures OtherEffect(boss, now)
    {
      var info := Lookup(db.bosses, boss);
      if info.None? {
        return;
      }
      var hours := HoursIn(catalog, boss);
      if hours.None? {
        return;
      }
      var respawnTs := now + hours.value * SECONDS_PER_HOUR;
      ArmTimer(boss, info.value.lastKiller, respawnTs);
    }

    /** What the `boss_kill` branch does: for an admin and a catalog boss, credit the clan and re-arm. */
    twostate predicate KillEffect(user: Option<int>, boss: string, clan: string, now: int)
      reads this, db
    {
      if user.Some? && old(db.IsAdmin(user.value)) && HoursIn(catalog, boss).Some? then
        var respawnTs := now + HoursIn(catalog, boss).value * SECONDS_PER_HOUR;
        && Armed(boss, Some(clan), respawnTs)
        && awaiting == old(awaiting)
        && outbox == old(outbox) + [Killed(boss, clan, respawnTs)]
      else Unchanged()
    }

    /** The `boss_kill` branch of `callback_query_handler`. */
    method BossKill(user: Option<int>, boss: string, clan: string, now: int)
      requires Valid()
      modifies this, db
      ensures Valid()
      ensures KillEffect(user, boss, clan, now)
    {
      if user.None? || !db.IsAdmin(user.value) {
        return;
      }
      var hours := HoursIn(catalog, boss);
      if hours.None? {
        return;
      }
      var respawnTs := now + hours.value * SECONDS_PER_HOUR;
      ArmTimer(boss, Some(clan), respawnTs);
      outbox := outbox + [Killed(boss, clan, respawnTs)];
    }

    /** The `boss_setup_clan` branch: record (or replace) the pending request for `boss`. */
    method BossSetupClan(boss: string, clan: string, messageId: int, chatId: int)
      requires Valid()
      modifies this
      ensures Valid()
      ensures awaiting == Put(old(awaiting), boss, Request(clan, true, messageId, chatId))
      ensures tasks == old(tasks) && bossTasks == old(bossTasks) && outbox == old(outbox)
    {
      awaiting := Put(awaiting, boss, Request(clan, true, messageId, chatId));
    }

    /**
     * `callback_query_handler` on `query.data`, split on "|": only the
     * `boss_other`, `boss_setup_clan` and `boss_kill` branches change state;
     * the others only edit or answer the chat message.
     */
    method CallbackQuery(user: Option<int>, data: string, now: int, messageId: int, chatId: int)
      requires Valid()
      modifies this, db
      ensures Valid()
      ensures var parts := Split(data, '|');
        if parts[0] == "boss_other" && |parts| >= 2 then OtherEffect(parts[1], now)
        else if parts[0] == "boss_setup_clan" && |parts| >= 3 then
          && awaiting == Put(old(awaiting), parts[1], Request(parts[2], true, messageId, chatId))
          && tasks == old(tasks) && bossTasks == old(bossTasks) && outbox == old(outbox)
          && db.bosses == old(db.bosses) && db.users == old(db.users)
        else if parts[0] == "boss_kill" && |parts| >= 3 then KillEffect(user, parts[1], parts[2], now)
        else Unchanged()
    {
      var parts := Split(data, '|');
      var key := parts[0];
      if key == "boss_other" && |parts| >= 2 {
        BossOther(parts[1], now);
      } else if key == "boss_setup_clan" && |parts| >= 3 {
        BossSetupClan(parts[1], parts[2], messageId, chatId);
      } else if key == "boss_kill" && |parts| >= 3 {
        BossKill(user, parts[1], parts[2], now);
      }
    }

    /**
     * What `custom_timer_input_handler` does: for an admin whose stripped
     * text is all digits, the first pending request gives its boss the
     * request's clan and a due time that many minutes ahead, re-arms it, and
     * is removed; anything else changes nothing. A text too long for `int()`
     * or a due time past what `datetime` can hold raises before the store
     * write, so it changes nothing either.
     */
    twostate predicate TimerInputEffect(user: Option<int>, text: string, now: int)
      reads this, db
    {
      RequestEffect(TimerRequest(user.Some? && old(db.IsAdmin(user.value)), text, old(awaiting), now))
    }

    /** The effect of consuming pending item `i` with due time `respawnTs`, or of nothing when there is no request. */
    twostate predicate RequestEffect(request: Option<(nat, int)>)
      reads this, db
    {
      match request
      case Some((i, respawnTs)) =>
        && i < |old(awaiting)|
        && Armed(old(awaiting)[i].0, Some(old(awaiting)[i].1.clan), respawnTs)
        && awaiting == Remove(old(awaiting), old(awaiting)[i].0)
        && outbox == old(outbox)
      case None => Unchanged()
    }

    /** The loop body of `custom_timer_input_handler` on pending item `i`: arm its boss, then `del` it. */
    method ConsumeRequest(i: nat, respawnTs: int)
      requires Valid() && i < |awaiting|
      modifies this, db
      ensures Valid()
      ensures KeyIndex(old(awaiting), old(awaiting)[i].0).Some?
      ensures Armed(old(awaiting)[i].0, Some(old(awaiting)[i].1.clan), respawnTs)
      ensures awaiting == Remove(old(awaiting), old(awaiting)[i].0)
      ensures outbox == old(outbox)
    {
      var (boss, request) := awaiting[i];
      ArmTimer(boss, Some(request.clan), respawnTs);
      awaiting := Remove(awaiting, boss);
    }

    /** `custom_timer_input_handler`, the definition bound to text messages. */
    method CustomTimerInput(user: Option<int>, text: string, now: int)
      requires Valid()
      modifies this, db
      ensures Valid()
      ensures TimerInputEffect(user, text, now)
    {
      if user.None? || !db.IsAdmin(user.value) {
        assert TimerRequest(false, text, awaiting, now).None?;
        return;
      }
      AdminTimerInput(text, now);
    }

    /** `custom_timer_input_handler` past its admin check. */
    method AdminTimerInput(text: string, now: int)
      requires Valid()
      modifies this, db
      ensures Valid()
      ensures RequestEffect(TimerRequest(true, text, old(awaiting), now))
    {
      ghost var request := TimerRequest(true, text, awaiting, now);
      var digits := Strip(text);
      if !IsDigits(digits) || |digits| > INT_MAX_STR_DIGITS {
        return;
      }
      var minutes := ParseNat(digits);
      var found := FindFirstAwaiting(awaiting);
      if found.Some? {
        var respawnTs := now + minutes * SECONDS_PER_MINUTE;
        if respawnTs > DATETIME_MAX_TS {
          return;
        }
        assert request == Some((found.value, respawnTs));
        ConsumeRequest(found.value, respawnTs);
      }
    }

    /**
     * The event loop resuming task `id` at time `now`: one `Step` against the
     * boss row as stored now, its broadcasts appended to the outbox and its
     * terminal write applied. Only the task registered for its boss can
     * write, so a superseded task never overwrites what superseded it.
     */
    method StepTask(id: nat, now: int)
      requires Valid() && id < |tasks|
      modifies this, db
      ensures Valid()
      ensures var t := old(tasks)[id];
        var r := Step(t, now, Lookup(old(db.bosses), t.boss));
        && tasks == old(tasks)[id := r.task]
        && outbox == old(outbox) + r.notices
        && db.bosses == (if r.write.ClearDue? then UpdateRow(old(db.bosses), t.boss, r.write.killer, None) else old(db.bosses))
      ensures bossTasks == old(bossTasks) && awaiting == old(awaiting) && db.users == old(db.users)
      ensures db.bosses != old(db.bosses) ==> old(tasks)[id].boss in bossTasks && bossTasks[old(tasks)[id].boss] == id
    {
      var t := tasks[id];
      var r := Step(t, now, Lookup(db.bosses, t.boss));
      tasks := tasks[id := r.task];
      outbox := outbox + r.notices;
      if r.write.ClearDue? {
        db.SetBossKillerAndRespawn(t.boss, r.write.killer, None);
      }
    }

    /** `boss_tasks[name] = asyncio.create_task(...)`, without cancelling what was registered. */
    method StartTask(boss: string, respawnTs: int)
      modifies this
      ensures tasks == old(tasks) + [NewTask(boss, respawnTs)]
      ensures bossTasks == old(bossTasks)[boss := |old(tasks)|]
      ensures awaiting == old(awaiting) && outbox == old(outbox)
    {
      tasks := tasks + [NewTask(boss, respawnTs)];
      bossTasks := bossTasks[boss := |tasks| - 1];
    }

    /** No task may still broadcast or write, as at start-up. */
    ghost predicate NoLiveTask()
      reads this
    {
      forall i | 0 <= i < |tasks| :: !Live(tasks[i])
    }

    /**
     * Progress of `restore_boss_tasks` from the task table `tasks0` and
     * registry `reg0`: the bosses in `done` each have one new, registered
     * task; the old tasks and the other registrations are as they were.
     */
    ghost predicate Restored(tasks0: seq<Task>, reg0: map<string, nat>, done: set<string>, now: int)
      reads this, db
    {
      && |tasks0| <= |tasks| && tasks[..|tasks0|] == tasks0
      && (forall b :: b in bossTasks <==> b in reg0 || b in done)
      && (forall b | b in done ::
            && b in db.bosses && NeedsRestore(db.bosses[b], now)
            && |tasks0| <= bossTasks[b] < |tasks|
            && tasks[bossTasks[b]] == NewTask(b, db.bosses[b].respawnEndTs.value))
      && (forall b | b in reg0 && b !in done :: bossTasks[b] == reg0[b])
      && (forall i | |tasks0| <= i < |tasks| :: tasks[i].boss in done && bossTasks[tasks[i].boss] == i)
    }

    /** One iteration of the restore loop: start and register the countdown of `name`. */
    method RestoreOne(name: string, now: int, ghost tasks0: seq<Task>, ghost reg0: map<string, nat>, ghost done: set<string>)
      requires Restored(tasks0, reg0, done, now)
      requires name in db.bosses && NeedsRestore(db.bosses[name], now) && name !in done
      modifies this
      ensures Restored(tasks0, reg0, done + {name}, now)
      ensures awaiting == old(awaiting) && outbox == old(outbox)
    {
      StartTask(name, db.bosses[name].respawnEndTs.value);
      assert tasks[..|tasks0|] == old(tasks)[..|tasks0|];
    }

    /** A finished restore from a state with no live task leaves the invariant in place. */
    lemma RestoredIsValid(tasks0: seq<Task>, reg0: map<string, nat>, done: set<string>, now: int)
      requires Restored(tasks0, reg0, done, now)
      requires forall b | b in reg0 :: reg0[b] < |tasks0| && tasks0[reg0[b]].boss == b
      requires forall i | 0 <= i < |tasks0| :: !Live(tasks0[i]) && WellFormed(tasks0[i])
      requires UniqueKeys(awaiting) && Names(catalog) <= db.bosses.Keys
      ensures Valid()
    {
      forall i | 0 <= i < |tasks0|
        ensures tasks[i] == tasks0[i]
      {
        assert tasks[..|tasks0|][i] == tasks[i];
      }
    }

    /**
     * `restore_boss_tasks`: a new task, registered for its boss, for exactly
     * the rows whose due time is set, non-zero and after `now`; no row is
     * written and other registrations stay. It registers without cancelling,
     * so it keeps the invariant only when no task is live.
     */
    method RestoreBossTasks(now: int)
      requires Valid() && NoLiveTask()
      modifies this
      ensures Valid()
      ensures |old(tasks)| <= |tasks| && tasks[..|old(tasks)|] == old(tasks)
      ensures forall b :: b in bossTasks <==> b in old(bossTasks) || b in RestoreTargets(db.bosses, now)
      ensures forall b | b in RestoreTargets(db.bosses, now) ::
        |old(tasks)| <= bossTasks[b] && tasks[bossTasks[b]] == NewTask(b, db.bosses[b].respawnEndTs.value)
      ensures forall b | b in old(bossTasks) && b !in RestoreTargets(db.bosses, now) :: bossTasks[b] == old(bossTasks)[b]
      ensures forall i | |old(tasks)| <= i < |tasks| ::
        tasks[i].boss in RestoreTargets(db.bosses, now) && bossTasks[tasks[i].boss] == i
      ensures awaiting == old(awaiting) && outbox == old(outbox)
    {
      var targets := RestoreTargets(db.bosses, now);
      var todo := db.bosses.Keys;
      assert tasks[..|tasks|] == tasks;
      while todo != {}
        invariant todo <= db.bosses.Keys
        invariant Restored(old(tasks), old(bossTasks), targets - todo, now)
        invariant awaiting == old(awaiting) && outbox == old(outbox)
        decreases todo
      {
        var name :| name in todo;
        var row := db.bosses[name];
        if row.respawnEndTs.Some? && row.respawnEndTs.value != 0 && row.respawnEndTs.value > now {
          RestoreOne(name, now, old(tasks), old(bossTasks), targets - todo);
          assert targets - (todo - {name}) == (targets - todo) + {name};
        } else {
          assert targets - (todo - {name}) == targets - todo;
        }
        todo := todo - {name};
      }
      RestoredIsValid(old(tasks), old(bossTasks), targets, now);
    }
  }
}
