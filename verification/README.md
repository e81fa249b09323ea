# KoekammioDiscord status publisher, modelled in Dafny

KoekammioDiscord is a game-server plugin. It shows the server's state as the
presence of a Discord bot: an activity text such as "Players: 5" and a
presence level (online, idle, do-not-disturb, invisible). This project models
the plugin's status-update logic as a sequential state machine on a virtual
millisecond clock, together with the pure functions it calls.

- `Text` (`text.dfy`): ASCII lower-casing, decimal rendering of the count, and
  ordinal replace-all as `string.Replace` does it.
- `Config` (`config.dfy`): the configuration records, the four keyed
  templates and their defaults.
- `Presence` (`presence.dfy`): the presence levels and `MapStatus`.
- `Status` (`status.dfy`): the real-player count, template selection,
  rendering and one `UpdateStatusAsync` call.
- `Scheduler` (`scheduler.dfy`): the rate limiter of `SafeUpdateStatusAsync`.
  Its state is the stamp of the last immediate update plus the pending flag.
  Deferred fires are kept as a queue of due times. The module also covers the
  waiting-for-players override, the initial publish once the bot is ready,
  and traces of events.

The player-joined, player-left, round-started and round-ended handlers all
end in `SafeUpdateStatusAsync`, so each of them is a `Notify` event. A publish
is an emitted `(text, level)` value. The Discord client is reduced to
a "logged in" flag. The server's ready list and round flags are the `Env`
sampled by each handler when it runs. `DateTime.MinValue` becomes "no stamp
yet", so the window has always elapsed before the first update.

Two behaviours of the code are kept as written and proved as such:
- the immediate path moves the stamp before checking that the client is
  logged in, so a skipped publish still uses up the window;
- the deferred fire clears the pending flag and publishes, but never moves the
  stamp. A notification at the instant a fire runs is therefore acted on
  immediately too, and two updates go out back to back
  (`Scheduler.FireDoesNotRestartWindow`).

## Model

| member | source | states |
|---|---|---|
| `Text.ToLower` | KoekammioDiscord/Plugin.cs:225 | the lowered string has the same length and no upper-case ASCII letter; other characters are kept, and each upper-case letter moves up by 32 code points to its lower-case form |
| `Text.ToLowerIdempotent` | KoekammioDiscord/Plugin.cs:225 | lowering an already lowered string changes nothing |
| `Text.EqualIgnoringCaseLower` | KoekammioDiscord/Plugin.cs:225 | two strings lower to the same string exactly when they agree up to ASCII case |
| `Text.Decimal` | KoekammioDiscord/Plugin.cs:216 | the count's text is non-empty and all digits; it starts with `0` only when the count is zero, and then it is that single digit |
| `Text.DecimalRoundTrip` | KoekammioDiscord/Plugin.cs:216 | reading the rendered digits back gives the count, so the rendering is injective |
| `Text.DecimalInjective` | KoekammioDiscord/Plugin.cs:216 | two counts render to the same text exactly when they are equal |
| `Text.ReplaceAll` | KoekammioDiscord/Plugin.cs:216 | replace-all with a replacement as long as the pattern keeps the string's length (its other properties are the lemmas below) |
| `Text.ReplaceAbsent` | KoekammioDiscord/Plugin.cs:216 | replace-all leaves a string with no occurrence of the pattern unchanged |
| `Text.ReplaceLeavesNone` | KoekammioDiscord/Plugin.cs:216 | if the replacement is non-empty and shares no character with the pattern, no occurrence of the pattern survives |
| `Text.ReplaceIsIdentityIff` | KoekammioDiscord/Plugin.cs:216 | under those conditions, replace-all returns its input exactly when the input has no occurrence |
| `Text.ReplaceJoin` | KoekammioDiscord/Plugin.cs:216 | a text made of pieces in which the pattern cannot start, separated by occurrences of the pattern, becomes the same pieces separated by the replacement |
| `Text.ReplaceSplit` | KoekammioDiscord/Plugin.cs:216 | for a pattern whose first character does not recur in it, a text made of occurrence-free pieces separated by the pattern becomes the same pieces separated by the replacement |
| `Text.SplitOnJoins` | KoekammioDiscord/Plugin.cs:216 | every text can be cut at the occurrences the left-to-right scan finds into occurrence-free pieces that join back to it |
| `Text.Substitute` | KoekammioDiscord/Plugin.cs:216 | `{count}` replaced (here and in the override at line 129) by the decimal count with ordinal replace-all: no `{count}` is left, and the text comes back unchanged exactly when it had none (where each one goes: `Text.SubstituteComplete`) |
| `Text.SubstituteComplete` | KoekammioDiscord/Plugin.cs:216 | after `{count}` substitution no `{count}` is left; the text is unchanged exactly when it had no placeholder; for every way of cutting the text at `{count}` into pieces that hold no `{count}`, the result is those pieces joined by the decimal count. The cutting the scan finds is one such way, so this fixes the result for every text |
| `Config.KeysComplete` | KoekammioDiscord/Config.cs:18-30 | there are exactly four template keys, each listed once; two template sets that agree on every key are equal |
| `Config.DefaultConfig` | KoekammioDiscord/Config.cs:7-11 | a fresh configuration is enabled, has debug output off and holds the default templates |
| `Presence.MapStatus` | KoekammioDiscord/Plugin.cs:223-238 | the level is Online, DoNotDisturb or Invisible exactly when the lowered string is "online", "dnd" or "offline"; it is Idle for every other string |
| `Presence.MapStatusRoundTrip` | KoekammioDiscord/Plugin.cs:223-238 | each level is reached from its canonical string ("online", "idle", "dnd", "offline") |
| `Presence.MapStatusIgnoresCase` | KoekammioDiscord/Plugin.cs:225 | two status strings that agree up to ASCII case map to the same level |
| `Status.ReadyCount` | KoekammioDiscord/Plugin.cs:182 | the count is at most the number of ready players; it equals it exactly when there is no dummy, and it is zero exactly when all are dummies |
| `Status.ReadyCountAppend` | KoekammioDiscord/Plugin.cs:182 | the count of a concatenation of ready lists is the sum of their counts |
| `Status.SelectKey` | KoekammioDiscord/Plugin.cs:187-214 | each key is characterised both ways: NoPlayers/Players iff the round is started and in progress with zero/some players, RoundEnded iff started, not in progress and ended, WaitingForPlayers iff not started or neither in progress nor ended |
| `Status.RenderTemplate` | KoekammioDiscord/Plugin.cs:216 | for every cutting of the template text at `{count}` into pieces holding no `{count}`, the rendered text is those pieces joined by the decimal count; no placeholder is left; the text is unchanged exactly when it had none; the level is the mapped status string |
| `Status.Render` | KoekammioDiscord/Plugin.cs:182-216 | the publication is the selected template for the real-player count: for every cutting of the template text at `{count}` into pieces holding no `{count}`, the text is those pieces joined by the decimal real-player count; none is left; and the level is the mapped status string |
| `Status.WaitingPublication` | KoekammioDiscord/Plugin.cs:127-130 | the override publishes what a not-started round would publish: the waiting template with the count filled in |
| `Status.UpdateStatus` | KoekammioDiscord/Plugin.cs:177-221 | nothing is sent exactly when the client is not logged in; otherwise the publication for the state sampled at that moment is sent |
| `Status.DefaultLiteralTemplatesRender` | KoekammioDiscord/Config.cs:20-23 | the default waiting, no-players and round-ended templates are published verbatim for every count, at level Idle |
| `Status.StrayBraceRender` | KoekammioDiscord/Plugin.cs:216 | a template `{{count}` renders as `{` followed by the decimal count: a brace that does not start a placeholder is kept |
| `Status.DefaultPlayersTemplateRender` | KoekammioDiscord/Config.cs:22 | the default players template renders as "Players: " followed by the decimal count, at level Online |
| `Status.DefaultRenderFivePlayers` | KoekammioDiscord/Plugin.cs:192-216 | in a running round with five real players and the default templates, the bot shows "Players: 5" and is Online |
| `Scheduler.Publish` | KoekammioDiscord/Plugin.cs:177-221 | a full update sends at most one publication, one exactly when the client is logged in, and that one is the rendering of the sampled round state and ready list |
| `Scheduler.OnNotify` | KoekammioDiscord/Plugin.cs:147-175 | window elapsed: the stamp becomes now before the logged-in check, pending and the queue are unchanged, and a full update runs. Inside the window: nothing is sent and the stamp is kept. If nothing was pending, exactly one fire is queued, due one window after the stamp. If a fire was pending, nothing changes |
| `Scheduler.OnFire` | KoekammioDiscord/Plugin.cs:158-163 | a fire removes its timer, clears pending, keeps the stamp and runs a full update with the state sampled when it fires |
| `Scheduler.Step` | KoekammioDiscord/Plugin.cs:91-175 | every event keeps the invariant "pending iff exactly one fire is queued, due within a window of the stamp", sends at most one update and never moves the stamp back. The stamp moves exactly on the immediate path. A notification is acted on now or leaves a fire queued. The override and the ready publish leave the state untouched; an enabled ready event sends the full update for the state it samples |
| `Scheduler.Run` | KoekammioDiscord/Plugin.cs:147-175 | any sequential interleaving of events keeps the invariant and never moves the stamp back |
| `Scheduler.ReachableInv` | KoekammioDiscord/Plugin.cs:26-27 | every state reachable from the initial (no stamp, not pending) state satisfies the invariant |
| `Scheduler.ImmediateSpacing` | KoekammioDiscord/Plugin.cs:149-174 | immediate updates in any trace are at least 3000 ms apart, and the first is at least 3000 ms after the starting stamp |
| `Scheduler.QuietTrace` | KoekammioDiscord/Plugin.cs:152-170 | with no notifications, overrides or ready events, a trace sends at most the one update already queued |
| `Scheduler.DisabledIsSilent` | KoekammioDiscord/Plugin.cs:33-37 | a plugin disabled in its configuration never sends anything and never changes state |
| `Scheduler.DisconnectedFire` | KoekammioDiscord/Plugin.cs:158-180 | a fire that finds the client logged out sends nothing, clears pending and keeps the stamp |
| `Scheduler.FirstNotifyImmediate` | KoekammioDiscord/Plugin.cs:149-174 | the first notification always takes the immediate path: stamp set to now, nothing pending, a full update run |
| `Scheduler.FireDoesNotRestartWindow` | KoekammioDiscord/Plugin.cs:161-162 | after an on-time fire, a notification at the same instant still publishes immediately: two updates, stamp moved to that instant |
| `Scheduler.NotifiesInsideWindow` | KoekammioDiscord/Plugin.cs:149-170 | notifications inside the window of the last immediate update publish nothing and keep the stamp; the first queues one fire due one window after the stamp, later ones change nothing |
| `Scheduler.BurstCoalesces` | KoekammioDiscord/Plugin.cs:149-174 | any burst of notifications inside one window, followed by the fire, sends exactly the full update for the state sampled when the fire runs; the stamp is kept and nothing stays queued |
| `Scheduler.BurstScenario` | KoekammioDiscord/Plugin.cs:147-175 | default templates, notifications at 0, 1000 and 2000 ms, then the fire. The first notification publishes the waiting text, the second queues one fire due at 3000, the third changes nothing, and the fire publishes "Players: 5" from the state it samples |

## Left out

- The Discord client calls (`LoginAsync`, `StartAsync`, `SetActivityAsync`, `SetStatusAsync`, `StopAsync`, `LogoutAsync`): these are network calls. A publish is an emitted value, and the client is a "logged in" flag. Failures of a sink call are not modelled.
- The override path has no logged-in check in the code, so the model emits its publication unconditionally. What the client does with a call while it is disconnected is not modelled.
- Event subscription in `Enable`/`Disable` and the teardown clear of the activity: host plumbing. A disabled configuration is modelled as "every event is ignored".
- Real concurrency (`Task.Run`, unsynchronised access to the flag pair). Handlers run one at a time, in any order.
- The 100 ms delay before re-counting after a player leaves, and the 3 s grace before the ready publish: these delays only decide when an event happens. Events carry the state they sample.
- Fire timing: a `Fire` event may come at any point of a trace, not only at its due time. The traces are therefore a superset of the timings the code can produce. Due times are recorded and bounded by the invariant.
- `double` seconds arithmetic on `DateTime`: time is an integer number of milliseconds with a window of 3000.
- Culture-sensitive `ToLower`: only ASCII letters are lowered.
- Null template strings: `text` and `status` in `KoekammioDiscord/Config.cs:28-29` have no initializer, so a configuration can leave them null. `Replace` (`Plugin.cs:129,216`) or `ToLower` (`Plugin.cs:225`) would then throw. On the immediate path this happens after the stamp has moved (`Plugin.cs:173`), so the window is used up and nothing is published. In `OnWaitingForPlayers` it throws inside the handler. Dafny strings are never null, so the model publishes in these cases.
- Logging and the `debug` switch's output: no behaviour beyond logging. The `debug` default is modelled.
- Reading `Player.ReadyList` and `Round.*` from the live server: these are inputs, a sequence of players with a dummy flag plus three round booleans.
- The bot token is kept as an opaque string with its default value. Login with it is not modelled.
