# Boss respawn timers of a Telegram bot, in Dafny

The bot keeps one countdown per game boss. An admin reports which of the two
clans killed a boss. The bot stores the kill and starts a countdown to the
boss's respawn. It broadcasts a warning ten minutes before the respawn, naming
the clan next in queue (the clan that did not make the last kill). At the
respawn it broadcasts a notice and clears the due time in the database. A new
kill, an "other" report, or a custom number of minutes re-arms the boss: the
old countdown is cancelled and a new one is registered.

This project models that core.

- `Catalog` holds the owner id, the two clans, the boss catalog and the
  queue-clan rule.
- `Database` holds the `bosses` and `users` tables as maps. It covers the
  insert-or-ignore seeding of `init_db` and the three writes the bot makes.
- `Pending` holds the pending custom-timer requests (`awaiting_custom_timer`).
  They are a sequence of items in dictionary insertion order.
- `Countdown` is `boss_respawn_task` as a state machine over integer Unix
  timestamps. `Step(t, now, info)` is one resumption of the coroutine.
  Each `asyncio.sleep` is a phase that waits for a timestamp. `task.cancel()`
  sets a flag that the next resumption sees.
- `Text` covers `str.split("|")` on callback data, and `strip`, `isdigit` and
  `int` on the typed minutes.
- `Bot` is the program state: the database, every task created (a task's id
  is its position), the `boss_tasks` registry, the pending table and the
  broadcasts sent. Its methods are the handlers. `Bot.Valid()` states
  the central invariant: every task that can still broadcast or write is the
  one registered for its boss. So there is at most one such task per boss,
  and a superseded task never writes (see `StepTask`).

The clock is an explicit `now` argument. The event loop is the caller: it picks
which task to resume with `StepTask(id, now)`. Each handler and each step is
atomic. A broadcast is one entry in the outbox.

Some behaviours of the code are easy to miss. The model follows the code in each:

- The kill, "other" and custom-timer paths write the store **before**
  cancelling the old task (main.py:367-371, main.py:442-446, main.py:608-614).
- The warning is sent only if its time is still ahead when the task first runs
  (main.py:552). A timer shorter than ten minutes never warns.
- `restore_boss_tasks` starts tasks only for due times strictly after `now`
  (main.py:654). A past-due row gets no task and is never cleared. Also,
  `on_startup` is never registered (main.py:680 registers only
  `set_commands`), so the program never calls the restore.
- `boss_other` checks no role (main.py:357-373). `boss_setup_clan` checks no
  role either (main.py:412-420); only the `boss_setup` button that leads to it
  does.
- `custom_timer_input_handler` is defined twice. The model follows the second
  definition (main.py:589), which is the one bound at main.py:691.

## Model

| member | source | states |
|---|---|---|
| `Catalog.HoursIn` | main.py:436-439 | `BOSSES.get(name)`: nothing exactly when the name is not in the catalog; otherwise the interval of the first entry with that name |
| `Catalog.OthersThan` | main.py:561 | the list comprehension keeps exactly the clans different from the last killer |
| `Catalog.QueueClan` | main.py:559-561 | a queue clan exists iff the last killer is present and one of CLANS; it is then a clan of CLANS different from the killer |
| `Catalog.QueueClanAlternates` | main.py:200-202 | a kill by CLANS[0] puts CLANS[1] in queue, and vice versa |
| `Text.Split` | main.py:327-328 | `data.split("|")` has at least one field, and no field contains the separator |
| `Text.JoinSplit` | main.py:327 | joining the fields with "\|" gives back the callback data |
| `Text.SplitJoin` | main.py:327 | splitting a join of separator-free fields gives back those fields |
| `Text.Strip` | main.py:595 | the piece of the text after its leading whitespace, with no whitespace at either end and only whitespace cut off after it |
| `Text.TrimStart` | main.py:595 | the result is a suffix that does not start with whitespace, and only whitespace was dropped |
| `Text.TrimEnd` | main.py:595 | the result is a prefix that does not end with whitespace, and only whitespace was dropped |
| `Text.StripIdempotent` | main.py:595 | stripping twice equals stripping once |
| `Text.IsDigits` | main.py:596 | an accepted text is non-empty ASCII digits and holds no whitespace |
| `Text.DigitsAreStripped` | main.py:595-596 | stripping a text `isdigit()` accepts changes nothing |
| `Text.ParseNat` | main.py:599 | `int()` of a digit text is zero exactly when every digit is a zero |
| `Text.ShowParse` | main.py:599 | `str(int(s)) == s` for a digit text without a leading zero |
| `Text.ShowNat` | main.py:599 | the partner of `int()`: a non-empty digit string with no leading zero, inverse to `ParseNat` |
| `Text.ParseShow` | main.py:599 | `int(str(n)) == n` |
| `Text.ParseLeadingZero` | main.py:599 | `int` ignores a leading zero |
| `Database.Lookup` | main.py:145-158 | `get_boss_info`: a row exactly for a name in the table, and then the stored row |
| `Database.InsertOrIgnore` | main.py:83-86 | the key is present afterwards; existing rows are unchanged; a new key gets the catalog interval, no killer and no due time |
| `Database.SeedBosses` | main.py:81-86 | after seeding, the keys are the old keys plus the catalog names; existing rows are unchanged; each new row has the catalog interval, no killer and no due time |
| `Database.SeedUnfold` | main.py:82-86 | seeding a catalog suffix is one insert-or-ignore followed by seeding the rest |
| `Database.SeedCoveredIsNoop` | main.py:83-86 | seeding a table that already has every catalog name changes nothing |
| `Database.SeedIdempotent` | main.py:81-86 | seeding twice leaves the table as seeding once |
| `Database.SeedOwner` | main.py:88-92 | the owner row exists afterwards; existing rows are unchanged; the owner is inserted as admin only when absent |
| `Database.UpdateRow` | main.py:135-142 | the named row gets the new killer and due time and keeps its interval; other rows are unchanged; an unknown name changes nothing |
| `Database.ReadAfterUpdate` | main.py:145-158 | `get_boss_info` after the update returns the written values for that boss and the old row for any other name |
| `Database.Database.InitDb` | main.py:60-95 | the boss table becomes the seeding of the old table by the catalog; the users table gets the owner as admin if absent |
| `Database.Database.AddUserIfNotExists` | main.py:101-108 | a new id becomes a plain user; a known id keeps its role; no id gains or loses admin status |
| `Database.Database.SetAdmin` | main.py:111-117 | the id gets the admin role, whatever it was before, so `is_admin` holds for it |
| `Database.Database.IsAdmin` | main.py:120-126 | the owner is an admin; any other id is an admin exactly when its users row holds the admin role |
| `Database.OwnerIsAdmin` | main.py:120-126 | the owner is an admin, whatever the users table holds |
| `Database.Database.SetBossKillerAndRespawn` | main.py:135-142 | the boss table becomes `UpdateRow` of the old table |
| `Pending.KeyIndex` | main.py:415 | finds the first and only position of a dictionary key, or reports that it is absent |
| `Pending.Put` | main.py:415-420 | `d[key] = value`: the key maps to the value afterwards; other keys are unchanged; existing keys keep their positions; keys stay unique |
| `Pending.Remove` | main.py:634 | `del d[key]`: the key is gone, the other items keep their values and their relative order, keys stay unique, one item fewer |
| `Pending.FirstAwaiting` | main.py:601-602 | the position of the first request awaiting minutes, or none when no request awaits |
| `Pending.FindFirstAwaiting` | main.py:601-640 | the scan stops at the first awaiting request, and that is the position `FirstAwaiting` gives |
| `Countdown.NewTask` | main.py:446-447 | `asyncio.create_task`: a live, not yet started task for the boss and due time |
| `Countdown.Cancel` | main.py:368-371 | cancelling leaves the task unable to broadcast or write, and keeps its boss, due time and phase |
| `Countdown.Step` | main.py:544-586 | a warning only on waking from the first sleep; a respawn notice exactly when a live task finishes; the terminal write only by a live task, with the killer re-read at that moment; a cancelled task ends with no effect; no sleep of zero or negative length; a resumption at or after the due time finishes the task, and one before it neither finishes it, nor announces the respawn, nor writes |
| `Countdown.StoppedTaskIsSilent` | main.py:583-584 | a cancelled or finished task sends nothing and writes nothing, however often it is resumed |
| `Countdown.RunToCompletion` | main.py:549-581 | a live task resumed up to its due time completes with one terminal write, the warnings it still had ahead, and one respawn notice last |
| `Countdown.NewTaskLifecycle` | main.py:550-581 | a new task warns iff `respawn_ts - 600` was after the time of its first run, then sends exactly one respawn notice and clears the due time once |
| `Bot.NeedsRestore` | main.py:654 | for a clock past the epoch, a row is restored exactly when its due time is set and after `now`; the zero test adds nothing |
| `Bot.TimerRequest` | main.py:591-605 | a request is consumed only for an admin, a stripped all-digit text short enough for `int()`, and a due time `datetime` can hold; it is then the first awaiting request and the due time is `now + minutes*60`; when all of that holds, a request is consumed |
| `Bot.Bot.constructor` | main.py:55-98 | start-up seeds the tables; no task, no registration, nothing pending, invariant established |
| `Bot.Bot.AtMostOneLiveTask` | main.py:443-448 | two live tasks of one boss are the same task |
| `Bot.Bot.Rearm` | main.py:443-448 | the unfinished task registered for the boss is cancelled; a new task is created and registered; other registrations are unchanged |
| `Bot.Bot.ArmTimer` | main.py:441-448 | the store write, then the re-arm; nothing else changes |
| `Bot.Bot.BossOther` | main.py:357-373 | for a boss with a row and a catalog interval: due time `now + hours*3600`, stored killer kept, re-armed; otherwise nothing changes |
| `Bot.Bot.BossKill` | main.py:428-453 | for an admin and a catalog boss: killer := clan, due `now + hours*3600`, re-armed, kill broadcast; a non-admin or an unknown boss changes nothing |
| `Bot.Bot.BossSetupClan` | main.py:412-420 | records or replaces the pending request for the boss; nothing else changes |
| `Bot.Bot.CallbackQuery` | main.py:318-488 | routes on the first "\|" field; only `boss_other`, `boss_setup_clan` and `boss_kill` with enough fields change state |
| `Bot.Bot.ConsumeRequest` | main.py:601-634 | the boss of the request gets its clan and the due time, is re-armed, and only that entry is deleted |
| `Bot.Bot.AdminTimerInput` | main.py:595-639 | past the admin check: what `TimerRequest` accepts with the sender an admin is consumed as in `ConsumeRequest`; anything it rejects changes nothing |
| `Bot.Bot.CustomTimerInput` | main.py:589-639 | when `TimerRequest` accepts, the first awaiting request is consumed: its boss gets its clan and due `now + minutes*60`, is re-armed, and only that entry is deleted; a non-admin, a non-digit text, a text too long for `int()` or a due time beyond `datetime` changes nothing |
| `Bot.Bot.StepTask` | main.py:544-586 | one `Step` applied to task, outbox and store; the store changes only through the task registered for that boss |
| `Bot.Bot.StartTask` | main.py:656-658 | a new task is appended and registered for the boss, without any cancel |
| `Bot.Bot.RestoreBossTasks` | main.py:651-658 | one new registered task for exactly the rows whose due time is set, non-zero and after `now`; no row is written; other registrations are unchanged |

## Left out

- Telegram I/O is not modelled: message edits, answers, replies, command
  registration, and the "Message is not modified" handling. `query.answer()`
  and the non-state branches of `callback_query_handler` change no state.
- Menu and keyboard building, message texts and `format_datetime_ts` are not
  modelled. Only the queue-clan rule they use is kept.
- `broadcast_message` is one outbox entry per broadcast. The recipient list
  (`get_all_user_ids`) and per-recipient delivery are not modelled. Failed sends
  are swallowed in the source, so they have no effect on state.
- Suspension inside a handler or a broadcast is not modelled. Handlers and
  steps are atomic. python-telegram-bot handles updates one at a time. A
  countdown resumed during a handler's awaits touches neither the pending
  table nor the registry.
- Wall-clock time is an integer `now` argument. Each resumption reads the clock
  once, so the two `datetime.now()` calls of one resumption see the same
  instant. Sleeps wake at the first resumption at or after their target.
  `now + hours*3600` ignores the local-time DST shift that the naive
  `datetime.now() + timedelta` can introduce.
- SQL, the connection, commits and database errors are not modelled. A
  database error inside the countdown would end it through
  `except Exception`; only the missing-row case (`info` is `None`) is modelled.
- `Text.IsDigits`: only ASCII digits are accepted. Python's `str.isdigit`
  also accepts other Unicode digits. `int` parses some of them and rejects
  others, such as superscripts.
- `Bot.TimerRequest`: the `datetime` bound is taken in UTC. The program adds the minutes to local time, so the true bound moves by the local UTC offset. `INT_MAX_STR_DIGITS` is Python's default limit; a different `sys.set_int_max_str_digits` setting is not modelled.
- The catalog is a constructor argument of `Bot`; the program passes `BOSSES`.
  The stored `respawn_hours` column is carried but never read, as in the
  source.
- `RestoreBossTasks` requires that no task is live, as at start-up: it
  registers without cancelling.
- The first definition of `custom_timer_input_handler` (main.py:491) is
  shadowed by the second and is not modelled. `on_startup`'s restart broadcast,
  `add_admin_handler`, `start_handler`, `menu_handler`, `help_handler`,
  `set_commands` and `main()` are out of scope.
