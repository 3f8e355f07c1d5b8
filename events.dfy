/** The Forge event handler of the MinePass game-server mod: the table of
    players currently logged in, the login decision taken from a player's
    MinePass record, and the counter of server tick events that runs the
    MinePass tasks on every 40th event (two seconds' worth of ticks at 20
    ticks per second, were each tick delivered once). Host effects
    (game-type changes, kicks, chat messages, task runs) are recorded in
    an action log. */
module ForgeEvents {
  import opened PrivilegeParsing

  /** java.util.UUID: two 64-bit halves, compared by value. */
  datatype Uuid = Uuid(mostSigBits: bv64, leastSigBits: bv64)

  /** The part of a logged-in EntityPlayerMP the handler uses. */
  datatype Player = Player(uuid: Uuid, name: string)

  /** The part of a MinePass player record the login decision reads. */
  datatype PassRecord = PassRecord(privileges: seq<string>)

  /** Effects the handler asks of the host or of the MinePass task runner. */
  datatype HostAction =
    | SetGameType(target: Uuid, mode: GameType)
    | Kick(target: Uuid, message: string)
    | Chat(target: Uuid, text: string)
    | RunTasks

  const DENY_MESSAGE := "Your current MinePass does not permit access to this server."

  /** ChatFormatting.GOLD: the section sign followed by colour code 6. */
  const GOLD := "\U{A7}6"

  const TASK_TRIGGER_SECONDS := 2
  const SERVER_TICKS_PER_SECOND := 20
  const TASK_TRIGGER_TICKS := TASK_TRIGGER_SECONDS * SERVER_TICKS_PER_SECOND

  /** Whether one tick event, seen with counter value `counter`, runs the tasks. */
  predicate TickFires(counter: int) {
    counter + 1 >= TASK_TRIGGER_TICKS
  }

  /** The counter after one tick event. */
  function NextCounter(counter: int): int {
    if TickFires(counter) then 0 else counter + 1
  }

  /** The counter after `n` tick events starting from `start`. */
  function CounterAfter(start: int, n: nat): int {
    if n == 0 then start else NextCounter(CounterAfter(start, n - 1))
  }

  /** How many of those `n` ticks run the tasks. */
  function FiringsIn(start: int, n: nat): nat {
    if n == 0 then 0
    else FiringsIn(start, n - 1) + (if TickFires(CounterAfter(start, n - 1)) then 1 else 0)
  }

  /** The schedule in closed form: from any counter value the handler can
      hold, `n` tick events leave the counter at `(start + n) % 40` and run the
      tasks `(start + n) / 40` times. */
  lemma {:induction false} TickSchedule(start: int, n: nat)
    requires 0 <= start < TASK_TRIGGER_TICKS
    ensures 0 <= CounterAfter(start, n) < TASK_TRIGGER_TICKS
    ensures CounterAfter(start, n) == (start + n) % TASK_TRIGGER_TICKS
    ensures FiringsIn(start, n) == (start + n) / TASK_TRIGGER_TICKS
  {
    if n > 0 {
      TickSchedule(start, n - 1);
      StepDivMod(start + n - 1);
    }
  }

  /** One more tick on the total count: the remainder wraps from 39 to 0
      exactly when the quotient grows by one. */
  lemma StepDivMod(x: nat)
    ensures (x + 1) % TASK_TRIGGER_TICKS == if x % TASK_TRIGGER_TICKS == TASK_TRIGGER_TICKS - 1 then 0 else x % TASK_TRIGGER_TICKS + 1
    ensures (x + 1) / TASK_TRIGGER_TICKS == x / TASK_TRIGGER_TICKS + if x % TASK_TRIGGER_TICKS == TASK_TRIGGER_TICKS - 1 then 1 else 0
  {
    var q, r := x / 40, x % 40;
    assert x == 40 * q + r;
    if r == 39 {
      assert x + 1 == 40 * (q + 1);
    } else {
      assert x + 1 == 40 * q + (r + 1);
    }
  }

  /** Every window of 40 consecutive tick events runs the tasks exactly once. */
  lemma OncePerWindow(start: int, n: nat)
    requires 0 <= start < TASK_TRIGGER_TICKS
    ensures FiringsIn(start, n + TASK_TRIGGER_TICKS) == FiringsIn(start, n) + 1
  {
    TickSchedule(start, n);
    TickSchedule(start, n + TASK_TRIGGER_TICKS);
    assert (start + n + TASK_TRIGGER_TICKS) / TASK_TRIGGER_TICKS == (start + n) / TASK_TRIGGER_TICKS + 1;
  }

  /** From a fresh handler, 39 tick events run nothing; the 40th runs the tasks
      once and returns the counter to 0. */
  lemma FirstRunOnFortiethTick()
    ensures FiringsIn(0, TASK_TRIGGER_TICKS - 1) == 0
    ensures FiringsIn(0, TASK_TRIGGER_TICKS) == 1
    ensures CounterAfter(0, TASK_TRIGGER_TICKS) == 0
  {
    TickSchedule(0, TASK_TRIGGER_TICKS - 1);
    TickSchedule(0, TASK_TRIGGER_TICKS);
  }

  /** Number of task runs recorded in a log. */
  function TaskRuns(log: seq<HostAction>): nat {
    if log == [] then 0
    else TaskRuns(log[..|log| - 1]) + (if log[|log| - 1].RunTasks? then 1 else 0)
  }

  /** Appending one action adds one task run exactly when it is a task run. */
  lemma TaskRunsSnoc(log: seq<HostAction>, a: HostAction)
    ensures TaskRuns(log + [a]) == TaskRuns(log) + (if a.RunTasks? then 1 else 0)
  {
    assert (log + [a])[..|log|] == log;
  }

  class EventHandler {
    /** UUID to player, maintained by login and logout events. */
    var currentPlayers: map<Uuid, Player>
    var taskTriggerCounter: int
    /** Everything the handler has asked of the host, oldest first. */
    var actions: seq<HostAction>
    /** Tick events delivered since construction (Forge delivers one per
        phase, so two per server tick). */
    ghost var ticks: nat

    ghost predicate Valid()
      reads this
    {
      && (forall id :: id in currentPlayers ==> currentPlayers[id].uuid == id)
      && 0 <= taskTriggerCounter < TASK_TRIGGER_TICKS
      && taskTriggerCounter == CounterAfter(0, ticks)
      && TaskRuns(actions) == FiringsIn(0, ticks)
    }

    constructor ()
      ensures Valid()
      ensures currentPlayers == map[] && taskTriggerCounter == 0
      ensures actions == [] && ticks == 0
    {
      currentPlayers := map[];
      taskTriggerCounter := 0;
      actions := [];
      ticks := 0;
    }

    /** Appends one host effect other than a task run to the log. */
    method Record(a: HostAction)
      requires Valid() && !a.RunTasks?
      modifies this
      ensures Valid()
      ensures actions == old(actions) + [a]
      ensures currentPlayers == old(currentPlayers)
      ensures taskTriggerCounter == old(taskTriggerCounter) && ticks == old(ticks)
    {
      TaskRunsSnoc(actions, a);
      actions := actions + [a];
    }

    /** The login event. `current` is the player's game type on the host and
        `record` is what the MinePass lookup returns for the player's UUID. */
    method OnLogin(player: Player, current: GameType, record: Option<PassRecord>)
      requires Valid()
      modifies this
      ensures Valid()
      ensures currentPlayers == old(currentPlayers)[player.uuid := player]
      ensures taskTriggerCounter == old(taskTriggerCounter) && ticks == old(ticks)
      ensures record.None? ==> actions == old(actions)
      ensures record.Some? && ResolvedMode(record.value.privileges).None? ==>
                actions == old(actions) + [Kick(player.uuid, DENY_MESSAGE)]
      ensures record.Some? && ResolvedMode(record.value.privileges).Some? ==>
                var mode := ResolvedMode(record.value.privileges).value;
                actions == old(actions) + (if mode == current then [] else [SetGameType(player.uuid, mode)])
    {
      currentPlayers := currentPlayers[player.uuid := player];
      if record.Some? {
        var mode := ResolveGameMode(record.value.privileges);
        assert mode == ResolvedMode(record.value.privileges);
        if mode.Some? {
          if current != mode.value {
            Record(SetGameType(player.uuid, mode.value));
          }
        } else {
          Record(Kick(player.uuid, DENY_MESSAGE));
        }
      }
    }

    /** The logout event: forget the player's UUID. */
    method OnLogout(player: Player)
      requires Valid()
      modifies this
      ensures Valid()
      ensures currentPlayers == old(currentPlayers) - {player.uuid}
      ensures taskTriggerCounter == old(taskTriggerCounter) && ticks == old(ticks)
      ensures actions == old(actions)
    {
      currentPlayers := currentPlayers - {player.uuid};
    }

    /** The server tick event: count it, and on the 40th event since the
        last run reset the counter and run the MinePass tasks. */
    method OnTick()
      requires Valid()
      modifies this
      ensures Valid()
      ensures ticks == old(ticks) + 1
      ensures currentPlayers == old(currentPlayers)
      ensures taskTriggerCounter == (old(taskTriggerCounter) + 1) % TASK_TRIGGER_TICKS
      ensures actions == old(actions) + (if old(taskTriggerCounter) == TASK_TRIGGER_TICKS - 1 then [RunTasks] else [])
    {
      taskTriggerCounter := taskTriggerCounter + 1;
      if taskTriggerCounter >= TASK_TRIGGER_TICKS {
        taskTriggerCounter := 0;
        TaskRunsSnoc(actions, RunTasks);
        actions := actions + [RunTasks];
      }
      ticks := ticks + 1;
    }

    /** The task runner's view of who is online: each current UUID with
        that player's name. */
    method GetCurrentPlayers() returns (players: map<Uuid, string>)
      ensures players.Keys == currentPlayers.Keys
      ensures forall id :: id in players ==> players[id] == currentPlayers[id].name
    {
      players := map[];
      var remaining := currentPlayers.Keys;
      while remaining != {}
        invariant remaining <= currentPlayers.Keys
        invariant players.Keys == currentPlayers.Keys - remaining
        invariant forall id :: id in players ==> players[id] == currentPlayers[id].name
        decreases remaining
      {
        var id :| id in remaining;
        players := players[id := currentPlayers[id].name];
        remaining := remaining - {id};
      }
    }

    /** Task-runner callback: disconnect the player with this UUID, if it
        is online. */
    method KickPlayer(playerId: Uuid, message: string)
      requires Valid()
      modifies this
      ensures Valid()
      ensures currentPlayers == old(currentPlayers)
      ensures taskTriggerCounter == old(taskTriggerCounter) && ticks == old(ticks)
      ensures actions == old(actions) + (if playerId in currentPlayers then [Kick(playerId, message)] else [])
    {
      if playerId in currentPlayers {
        Record(Kick(playerId, message));
      }
    }

    /** Task-runner callback: send the player with this UUID a gold chat
        line, if it is online. */
    method WarnPlayer(playerId: Uuid, message: string)
      requires Valid()
      modifies this
      ensures Valid()
      ensures currentPlayers == old(currentPlayers)
      ensures taskTriggerCounter == old(taskTriggerCounter) && ticks == old(ticks)
      ensures actions == old(actions) + (if playerId in currentPlayers then [Chat(playerId, GOLD + message)] else [])
    {
      if playerId in currentPlayers {
        Record(Chat(playerId, GOLD + message));
      }
    }
  }

  /** The handler's invariant in closed form: the counter is the number of
      tick events modulo 40, and the task runs are their quotient by 40. */
  lemma ValidClosedForm(h: EventHandler)
    requires h.Valid()
    ensures h.taskTriggerCounter == h.ticks % TASK_TRIGGER_TICKS
    ensures TaskRuns(h.actions) == h.ticks / TASK_TRIGGER_TICKS
  {
    TickSchedule(0, h.ticks);
  }
}
