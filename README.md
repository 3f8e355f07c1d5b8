# MinePass Forge event handler, modelled in Dafny

MinePass is a game-server plug-in that checks Minecraft players against a
remote pass authority. This project models its Forge event handler
(`EventHandler`), which does four things:

- **Player registry.** It keeps a table of the players currently logged in,
  keyed by UUID. A login adds or overwrites an entry and a logout removes one.
  The MinePass task runner reads this table through its callbacks
  (`getCurrentPlayers`, `kickPlayer`, `warnPlayer`).
- **Privilege parsing.** At login it reads the player's MinePass record. For
  each privilege string it runs one unanchored search for
  `mc:(?<name>[a-z]+)`. Only `survival`, `creative` and `adventure` are
  recognised, and the last recognised name wins.
- **Login decision.** With no record, nothing happens beyond the registry
  insert. With a record but no recognised mode, the player is kicked with
  "Your current MinePass does not permit access to this server.". With a
  resolved mode, the game type is set, but only when it differs from the
  current one.
- **Tick scheduler.** A counter advances on every delivery of the server
  tick event. When it reaches `2 * 20 = 40` it is reset to 0 and the
  MinePass tasks run once. The constant is meant as two seconds of 20-tick
  seconds, but the handler does not look at the event's phase (see
  "## Left out"), so the model counts event deliveries, not server ticks.

Two modules hold the model:

- `PrivilegeParsing` (`privileges.dfy`) holds the regular-expression match as
  pure functions. `FirstCaptureAt` is a declarative reading of
  `Matcher.find()` plus `group("name")`, and two lemmas prove that the
  executable definition agrees with it in both directions. It also holds the
  privilege loop as a method, `ResolveGameMode`, proved against `ResolvedMode`.
  The "last recognised wins" lemmas are stated over the per-privilege results
  (`LastMode`).
- `ForgeEvents` (`events.dfy`) holds the handler as a class with these fields:
  - `currentPlayers`, a map from UUID to player;
  - `taskTriggerCounter`;
  - `actions`, a log of the effects requested from the host: game-type
    changes, kicks, chat lines and task runs.

  The ghost field `ticks` counts tick-event deliveries. The invariant
  `Valid()` states the counter as `CounterAfter(0, ticks)` and the number of
  recorded task runs as `FiringsIn(0, ticks)`. `ValidClosedForm` derives the
  closed form from it through `TickSchedule`: counter `= ticks % 40` and
  runs `= ticks / 40`.

Host queries and foreign code become parameters:
- The MinePass lookup `getPlayer(uuid)` is the `record` argument of `OnLogin`.
- The player's current game type is the `current` argument of `OnLogin`.
- `GameserverTasks.runTasks()` is the `RunTasks` entry of the action log.

The model follows `EventHandler.java`. That code does not do the following, so neither does the model:
- A login whose record is absent is not denied. Only the registry changes.
- `default` and `spectator` are not recognised modes. `DefaultIsNotAMode`
  shows that `["mc:creative", "mc:default"]` resolves to creative.
- There are no `mc:/command` templates and no `$name`/`$uuid` substitution.

## Model

| member | source | states |
|---|---|---|
| PrivilegeParsing.FirstMatchFrom | src/main/java/net/minepass/gs/mc/forge/EventHandler.java:126-131 | the result is the leftmost position at or after `from` where `mc:` is followed by a lower-case letter; None exactly when no such position exists |
| PrivilegeParsing.LowerRunEnd | src/main/java/net/minepass/gs/mc/forge/EventHandler.java:126 | the greedy `[a-z]+`: every character up to the returned end is lower-case, and the character at the end is not (or the string ends) |
| PrivilegeParsing.CapturedName | src/main/java/net/minepass/gs/mc/forge/EventHandler.java:126-132 | `find()` fails exactly when no position of the string matches `mc:[a-z]` |
| PrivilegeParsing.CapturedNameIsCapture | src/main/java/net/minepass/gs/mc/forge/EventHandler.java:126-132 | each captured name is the maximal lower-case run after the first `mc:` match, with no earlier match |
| PrivilegeParsing.CaptureIsCapturedName | src/main/java/net/minepass/gs/mc/forge/EventHandler.java:126-132 | the converse: any first, maximal capture in that sense is the name returned |
| PrivilegeParsing.TokenCapture | src/main/java/net/minepass/gs/mc/forge/EventHandler.java:126-132 | a privilege that is `mc:` followed only by lower-case letters captures all of those letters |
| PrivilegeParsing.GameTypeNamed | src/main/java/net/minepass/gs/mc/forge/EventHandler.java:132-142 | a recognised name is exactly the token of one of survival, creative or adventure; any other name yields nothing |
| PrivilegeParsing.LastModeNone | src/main/java/net/minepass/gs/mc/forge/EventHandler.java:125-144 | no mode resolves if and only if no privilege names a recognised mode |
| PrivilegeParsing.LastModeWitness | src/main/java/net/minepass/gs/mc/forge/EventHandler.java:125-144 | when a mode resolves, some privilege is the last recognised one |
| PrivilegeParsing.LastModeIsLast | src/main/java/net/minepass/gs/mc/forge/EventHandler.java:129-144 | the resolved mode is the mode of the last recognised privilege (last wins) |
| PrivilegeParsing.LastModeAppend | src/main/java/net/minepass/gs/mc/forge/EventHandler.java:129-144 | later entries override earlier ones, and unrecognised ones never reset an earlier mode |
| PrivilegeParsing.MapPrivilegesAppend | src/main/java/net/minepass/gs/mc/forge/EventHandler.java:129-144 | the per-privilege results of two concatenated lists are the results of each list, in order |
| PrivilegeParsing.ResolvedModeAppend | src/main/java/net/minepass/gs/mc/forge/EventHandler.java:129-144 | the same override law for segments of privilege strings |
| PrivilegeParsing.ResolveGameMode | src/main/java/net/minepass/gs/mc/forge/EventHandler.java:125-144 | the loop computes `ResolvedMode`: None iff nothing is recognised, otherwise the mode of the last recognised privilege |
| PrivilegeParsing.LaterModeWins | src/main/java/net/minepass/gs/mc/forge/EventHandler.java:129-144 | `["mc:survival", "mc:creative"]` resolves to creative |
| PrivilegeParsing.DefaultIsNotAMode | src/main/java/net/minepass/gs/mc/forge/EventHandler.java:132-142 | `["mc:creative", "mc:default"]` resolves to creative, since `default` is not recognised |
| PrivilegeParsing.CaptureIsGreedy | src/main/java/net/minepass/gs/mc/forge/EventHandler.java:126-142 | `mc:survivalx` captures `survivalx` and so grants nothing |
| PrivilegeParsing.CaptureIsCaseSensitive | src/main/java/net/minepass/gs/mc/forge/EventHandler.java:126-131 | `mc:Survival` does not match at all |
| PrivilegeParsing.SearchIsUnanchored | src/main/java/net/minepass/gs/mc/forge/EventHandler.java:130-140 | text before `mc:` is skipped: `world mc:adventure` grants adventure |
| PrivilegeParsing.OnlyFirstMatchCounts | src/main/java/net/minepass/gs/mc/forge/EventHandler.java:130-142 | only the first match counts: `mc:mc:creative` captures `mc` and grants nothing |
| ForgeEvents.TickSchedule | src/main/java/net/minepass/gs/mc/forge/EventHandler.java:165-171 | from any counter in [0, 39], after n tick events the counter is `(start + n) % 40` (so stays in [0, 39]) and the tasks have run `(start + n) / 40` times |
| ForgeEvents.OncePerWindow | src/main/java/net/minepass/gs/mc/forge/EventHandler.java:165-171 | every 40 consecutive tick events run the tasks exactly once |
| ForgeEvents.FirstRunOnFortiethTick | src/main/java/net/minepass/gs/mc/forge/EventHandler.java:68-69 | from 0, 39 tick events run nothing; the 40th runs the tasks once and resets the counter to 0 |
| ForgeEvents.EventHandler.constructor | src/main/java/net/minepass/gs/mc/forge/EventHandler.java:64-69 | starts with an empty registry, counter 0, no actions, and the invariant established |
| ForgeEvents.EventHandler.OnLogin | src/main/java/net/minepass/gs/mc/forge/EventHandler.java:115-154 | the registry maps the UUID to the player and no other key changes, whatever the decision. No record: no action. Record but no mode: exactly one kick with the fixed message. Mode resolved: a game-type change only when it differs from the current one, and no kick |
| ForgeEvents.EventHandler.OnLogout | src/main/java/net/minepass/gs/mc/forge/EventHandler.java:156-162 | removes exactly the player's UUID (nothing when absent); other entries, counter and actions unchanged |
| ForgeEvents.EventHandler.OnTick | src/main/java/net/minepass/gs/mc/forge/EventHandler.java:164-171 | the counter becomes `(old + 1) % 40`; a task run is recorded exactly when the old counter was 39; the invariant `Valid()` (counter and runs as functions of the tick events delivered) is kept |
| ForgeEvents.ValidClosedForm | src/main/java/net/minepass/gs/mc/forge/EventHandler.java:165-171 | in every valid handler state the counter is the number of tick events delivered modulo 40 and the recorded task runs are that number divided by 40 |
| ForgeEvents.EventHandler.GetCurrentPlayers | src/main/java/net/minepass/gs/mc/forge/EventHandler.java:72-78 | the snapshot has exactly the registry's UUIDs, each mapped to that player's name |
| ForgeEvents.EventHandler.KickPlayer | src/main/java/net/minepass/gs/mc/forge/EventHandler.java:88-91 | kicks the player with that UUID when it is in the registry, and changes nothing otherwise |
| ForgeEvents.EventHandler.WarnPlayer | src/main/java/net/minepass/gs/mc/forge/EventHandler.java:94-99 | sends the gold-formatted message to the player with that UUID when it is in the registry, and changes nothing otherwise |

## Left out

- `warnPlayerPass` (EventHandler.java:102-111) builds a JSON chat component with a click-to-open link. That is host UI serialisation, so it is not modelled.
- `updateAndReloadLocalAuth` (EventHandler.java:81-85) only calls into the MinePass library and the server's whitelist loader, which are not part of this model.
- `GameserverTasks.runTasks()` belongs to the MinePass library. Its internals, including which callbacks it invokes, are not part of this model. A run appears only as the `RunTasks` entry of the action log.
- `minepass.getPlayer` and the local cache behind it are replaced by the `record` argument of `OnLogin`. `minepass.getServer()` is read at line 124 but never used, so it is left out.
- Host effects are recorded in the action log but not performed. A recorded `SetGameType` does not update any stored game type. The current game type is supplied on each login instead.
- MP_ForgeMod.java is not part of this model: configuration, start-up, the whitelist and server-details calls, log rewriting, and the start and interrupt of the sync thread.
- Concurrency is left out. The shown code reaches the callbacks only through `runTasks` on the tick handler (EventHandler.java:169). Whether the MinePass library also calls `getCurrentPlayers` from the sync thread (MP_ForgeMod.java:168) is not visible. If it does, the Java `HashMap` gives no guarantee. The model is sequential.
- OnLogin: a null privilege list or a null privilege string makes `onLogin` throw after the registry insert (lines 121, 129-130), so no decision is taken: the player stays registered with neither a kick nor a game-type change. The model's `seq<string>` has no null and does not cover this.
- The Forge event bus (subscription, `EventPriority.LOWEST`) is not modelled. Each handler method is one event delivery.
- Double tick delivery: Forge 1.7.10 posts `TickEvent.ServerTickEvent` twice per server tick, once for the start phase and once for the end phase. `onTick` (EventHandler.java:164-171) never checks `event.phase`, so the counter advances twice per server tick and the tasks run every 20 server ticks (about one second), not every two seconds as `taskTriggerSeconds = 2` (line 53) intends. The model's `ticks` counts deliveries, which is what the code counts; the mapping from deliveries to server time is the event bus's and is not modelled.
- Java's `Integer` counter cannot overflow, because it never exceeds 40. Unbounded `int` is therefore exact.
- Java strings are UTF-16 and Dafny strings are sequences of Unicode scalar values. The pattern is pure ASCII, so the captured names agree. Match positions can differ (in "😀mc:creative" Java's match starts at index 2, `FirstMatchFrom` returns 1), but the handler never reads them. Java strings holding unpaired surrogates have no Dafny counterpart and are not modelled.
