/**
 The rate-limited status publisher as a sequential state machine over a
 virtual millisecond clock. The state is the time of the last immediate
 update ("none" before the first one) and the pending flag, together with
 the due times of the deferred fires that have been scheduled and not yet
 run. Handlers are events; each returns the new state and what it
 published.
 */
module Scheduler {
  import opened Options
  import opened Config
  import opened Status
  import opened Presence

  /** The minimum distance between two immediate updates, in milliseconds. */
  const Window: int := 3000

  /** The time of the last immediate update (`None` stands for the initial
      `DateTime.MinValue`) and whether a deferred update is queued. */
  datatype SchedState = SchedState(last: Option<int>, pending: bool)

  const Initial: SchedState := SchedState(None, false)

  /** What a handler samples when it runs: whether the client is logged in,
      the round flags and the ready list. */
  datatype Env = Env(loggedIn: bool, round: RoundState, players: seq<Player>)

  /** The scheduler state and the due times of the deferred fires still
      outstanding, oldest first. */
  datatype World = World(sched: SchedState, timers: seq<int>)

  const Start: World := World(Initial, [])

  /** The events the publisher reacts to: a state-change notification at a
      time, the oldest deferred fire running, the waiting-for-players
      override, and the initial publish once the client is ready. */
  datatype Event =
    | Notify(now: int, env: Env)
    | Fire(env: Env)
    | WaitingOverride(env: Env)
    | Ready(env: Env)

  datatype StepResult = StepResult(world: World, emitted: seq<Publication>)

  /** At least one window has passed since the last immediate update; always
      true before the first one. */
  predicate WindowElapsed(s: SchedState, now: int) {
    s.last.None? || now - s.last.value >= Window
  }

  /** A full status update: what it sends, if anything. */
  function Publish(m: StatusMessages, env: Env): (out: seq<Publication>)
    ensures |out| <= 1
    ensures |out| == 1 <==> env.loggedIn
    ensures |out| == 1 ==> out[0] == Render(m, env.round, env.players)
  {
    UpdateStatus(env.loggedIn, m, env.round, env.players).ToSeq()
  }

  /** A rate-limited update request at time `now`. */
  function OnNotify(m: StatusMessages, w: World, now: int, env: Env): (r: StepResult)
    // Window elapsed: the stamp moves to now before the logged-in check,
    // the pending flag and the queue are left alone.
    ensures WindowElapsed(w.sched, now) ==>
              && r.world.sched.last == Some(now)
              && r.world.sched.pending == w.sched.pending
              && r.world.timers == w.timers
              && r.emitted == Publish(m, env)
    // Inside the window nothing is published and the stamp is kept.
    ensures !WindowElapsed(w.sched, now) ==>
              && r.emitted == []
              && r.world.sched.last == w.sched.last
              && r.world.sched.pending
    // Inside the window with nothing queued: exactly one fire is queued, due
    // one window after the last immediate update.
    ensures !WindowElapsed(w.sched, now) && !w.sched.pending ==>
              r.world.timers == w.timers + [w.sched.last.value + Window]
    // Inside the window with a fire already queued: nothing changes.
    ensures !WindowElapsed(w.sched, now) && w.sched.pending ==> r.world == w
  {
    if WindowElapsed(w.sched, now) then
      StepResult(World(SchedState(Some(now), w.sched.pending), w.timers), Publish(m, env))
    else if !w.sched.pending then
      var elapsed := now - w.sched.last.value;
      var delay := Window - elapsed;
      StepResult(World(SchedState(w.sched.last, true), w.timers + [now + delay]), [])
    else
      StepResult(w, [])
  }

  /** The oldest deferred fire runs: it clears the pending flag, then performs
      a full update without touching the stamp. With nothing queued there is
      no fire, and nothing happens. */
  function OnFire(m: StatusMessages, w: World, env: Env): (r: StepResult)
    ensures |w.timers| == 0 ==> r == StepResult(w, [])
    ensures |w.timers| > 0 ==>
              && r.world.sched.last == w.sched.last
              && !r.world.sched.pending
              && r.world.timers == w.timers[1..]
              && r.emitted == Publish(m, env)
  {
    if |w.timers| == 0 then StepResult(w, [])
    else StepResult(World(SchedState(w.sched.last, false), w.timers[1..]), Publish(m, env))
  }

  /** The notify event that takes the immediate path. */
  predicate IsImmediate(cfg: PluginConfig, w: World, e: Event) {
    cfg.isEnabled && e.Notify? && WindowElapsed(w.sched, e.now)
  }

  /** `b` is the same stamp as `a` or a later one. */
  predicate NotEarlier(a: Option<int>, b: Option<int>) {
    a.None? || (b.Some? && a.value <= b.value)
  }

  /** The scheduler invariant: the pending flag is set exactly when one
      deferred fire is outstanding, and that fire is due no later than one
      window after the last immediate update. */
  predicate Inv(w: World) {
    && |w.timers| == (if w.sched.pending then 1 else 0)
    && (w.sched.pending ==> w.sched.last.Some? && w.timers[0] <= w.sched.last.value + Window)
  }

  /** One event. A disabled plugin subscribes to nothing and has no client,
      so every event is ignored. */
  function Step(cfg: PluginConfig, w: World, e: Event): (r: StepResult)
    ensures Inv(w) ==> Inv(r.world)
    ensures |r.emitted| <= 1
    ensures NotEarlier(w.sched.last, r.world.sched.last)
    // The stamp moves exactly on the immediate path, and then to the event time.
    ensures IsImmediate(cfg, w, e) ==> r.world.sched.last == Some(e.now)
    ensures !IsImmediate(cfg, w, e) ==> r.world.sched.last == w.sched.last
    // A notification is either acted on now or leaves a fire queued.
    ensures cfg.isEnabled && e.Notify? ==> IsImmediate(cfg, w, e) || r.world.sched.pending
    // The override and the ready path bypass the limiter entirely.
    ensures e.WaitingOverride? || e.Ready? ==> r.world == w
    ensures cfg.isEnabled && e.WaitingOverride? ==>
              r.emitted == [WaitingPublication(cfg.statuses, e.env.players)]
    ensures cfg.isEnabled && e.Ready? ==> r.emitted == Publish(cfg.statuses, e.env)
    ensures !cfg.isEnabled ==> r == StepResult(w, [])
  {
    if !cfg.isEnabled then StepResult(w, [])
    else
      match e
      case Notify(now, env) => OnNotify(cfg.statuses, w, now, env)
      case Fire(env) => OnFire(cfg.statuses, w, env)
      case WaitingOverride(env) => StepResult(w, [WaitingPublication(cfg.statuses, env.players)])
      case Ready(env) => StepResult(w, Publish(cfg.statuses, env))
  }

  /** A trace of events handled one after another. */
  function Run(cfg: PluginConfig, w: World, evs: seq<Event>): (r: StepResult)
    ensures Inv(w) ==> Inv(r.world)
    ensures |r.emitted| <= |evs|
    ensures NotEarlier(w.sched.last, r.world.sched.last)
    decreases |evs|
  {
    if |evs| == 0 then StepResult(w, [])
    else
      var s := Step(cfg, w, evs[0]);
      var t := Run(cfg, s.world, evs[1..]);
      StepResult(t.world, s.emitted + t.emitted)
  }

  /** Every state reached from the start by any trace keeps the invariant. */
  lemma ReachableInv(cfg: PluginConfig, evs: seq<Event>)
    ensures Inv(Run(cfg, Start, evs).world)
  {
  }

  /** The times at which notifications in a trace took the immediate path. */
  function ImmediateTimes(cfg: PluginConfig, w: World, evs: seq<Event>): seq<int>
    decreases |evs|
  {
    if |evs| == 0 then []
    else
      var s := Step(cfg, w, evs[0]);
      (if IsImmediate(cfg, w, evs[0]) then [evs[0].now] else [])
        + ImmediateTimes(cfg, s.world, evs[1..])
  }

  /** Consecutive times at least one window apart. */
  predicate Spaced(ts: seq<int>) {
    forall i :: 0 <= i < |ts| - 1 ==> ts[i] + Window <= ts[i + 1]
  }

  /** Rate limiting: immediate updates are at least one window apart, and the
      first one is at least one window after the stamp the trace starts from. */
  lemma {:induction false} ImmediateSpacing(cfg: PluginConfig, w: World, evs: seq<Event>)
    ensures Spaced(ImmediateTimes(cfg, w, evs))
    ensures var ts := ImmediateTimes(cfg, w, evs);
            |ts| > 0 && w.sched.last.Some? ==> w.sched.last.value + Window <= ts[0]
    decreases |evs|
  {
    if |evs| > 0 {
      var s := Step(cfg, w, evs[0]);
      var rest := ImmediateTimes(cfg, s.world, evs[1..]);
      ImmediateSpacing(cfg, s.world, evs[1..]);
      var ts := ImmediateTimes(cfg, w, evs);
      if IsImmediate(cfg, w, evs[0]) {
        assert ts == [evs[0].now] + rest;
        forall i | 0 <= i < |ts| - 1
          ensures ts[i] + Window <= ts[i + 1]
        {
          if i > 0 {
            assert ts[i] == rest[i - 1] && ts[i + 1] == rest[i];
          }
        }
      } else {
        assert ts == rest;
      }
    }
  }

  /** Without notifications, overrides or ready events, a trace publishes at
      most the one update that was already queued. */
  lemma {:induction false} QuietTrace(cfg: PluginConfig, w: World, evs: seq<Event>)
    requires Inv(w)
    requires forall i :: 0 <= i < |evs| ==> evs[i].Fire?
    ensures |Run(cfg, w, evs).emitted| <= |w.timers|
    ensures |Run(cfg, w, evs).emitted| <= (if w.sched.pending then 1 else 0)
    decreases |evs|
  {
    if |evs| > 0 {
      var s := Step(cfg, w, evs[0]);
      QuietTrace(cfg, s.world, evs[1..]);
      if cfg.isEnabled && |w.timers| > 0 {
        assert |s.world.timers| == |w.timers| - 1;
      } else {
        assert s.world == w && s.emitted == [];
      }
    }
  }

  /** A disabled plugin never publishes and never changes state. */
  lemma {:induction false} DisabledIsSilent(cfg: PluginConfig, w: World, evs: seq<Event>)
    requires !cfg.isEnabled
    ensures Run(cfg, w, evs) == StepResult(w, [])
    decreases |evs|
  {
    if |evs| > 0 {
      DisabledIsSilent(cfg, w, evs[1..]);
    }
  }

  /** A queued fire that finds the client logged out publishes nothing, clears
      the pending flag and leaves the stamp, so the window is not extended. */
  lemma DisconnectedFire(cfg: PluginConfig, w: World, env: Env)
    requires cfg.isEnabled && Inv(w) && w.sched.pending && !env.loggedIn
    ensures var r := Step(cfg, w, Fire(env));
            && r.emitted == []
            && r.world == World(SchedState(w.sched.last, false), [])
  {
  }

  /** The first notification always acts immediately. */
  lemma FirstNotifyImmediate(cfg: PluginConfig, now: int, env: Env)
    requires cfg.isEnabled
    ensures var r := Step(cfg, Start, Notify(now, env));
            && r.world == World(SchedState(Some(now), false), [])
            && r.emitted == Publish(cfg.statuses, env)
  {
  }

  /** A deferred fire does not start a new window: when it runs on time,
      a notification at the same instant is still acted on immediately, so
      two updates go out back to back. */
  lemma FireDoesNotRestartWindow(cfg: PluginConfig, w: World, env: Env, env': Env)
    requires cfg.isEnabled && Inv(w) && w.sched.pending
    requires w.timers[0] == w.sched.last.value + Window
    requires env.loggedIn && env'.loggedIn
    ensures var r := Run(cfg, w, [Fire(env), Notify(w.timers[0], env')]);
            && |r.emitted| == 2
            && r.world.sched.last == Some(w.timers[0])
  {
    var evs := [Fire(env), Notify(w.timers[0], env')];
    assert evs[1..] == [Notify(w.timers[0], env')];
    var s := Step(cfg, w, Fire(env));
    assert s.world.sched.last == w.sched.last;
    assert IsImmediate(cfg, s.world, Notify(w.timers[0], env'));
    var t := Step(cfg, s.world, Notify(w.timers[0], env'));
    assert t.world.sched.last == Some(w.timers[0]);
    assert Run(cfg, t.world, []) == StepResult(t.world, []);
    assert Run(cfg, s.world, evs[1..]) == StepResult(t.world, t.emitted);
  }

  /** Every event is a notification that falls inside the window opened by
      the immediate update at `last`. */
  predicate NotifiesWithin(last: int, evs: seq<Event>) {
    forall i :: 0 <= i < |evs| ==> evs[i].Notify? && evs[i].now < last + Window
  }

  /** Notifications inside the window publish nothing and keep the stamp.
      The first one queues a single fire due one window after the stamp,
      and the rest change nothing. */
  lemma {:induction false} NotifiesInsideWindow(cfg: PluginConfig, w: World, evs: seq<Event>)
    requires cfg.isEnabled && Inv(w) && w.sched.last.Some?
    requires NotifiesWithin(w.sched.last.value, evs)
    requires |evs| > 0 || w.sched.pending
    ensures var r := Run(cfg, w, evs);
            && r.emitted == []
            && r.world.sched == SchedState(w.sched.last, true)
            && |r.world.timers| == 1
            && (w.sched.pending ==> r.world == w)
            && (!w.sched.pending ==> r.world.timers == [w.sched.last.value + Window])
    decreases |evs|
  {
    if |evs| > 0 {
      var s := Step(cfg, w, evs[0]);
      assert !WindowElapsed(w.sched, evs[0].now);
      assert s.world.sched == SchedState(w.sched.last, true);
      assert NotifiesWithin(s.world.sched.last.value, evs[1..]) by {
        forall i | 0 <= i < |evs[1..]|
          ensures evs[1..][i].Notify? && evs[1..][i].now < s.world.sched.last.value + Window
        {
          assert evs[1..][i] == evs[i + 1];
        }
      }
      NotifiesInsideWindow(cfg, s.world, evs[1..]);
    }
  }

  /** Running two traces one after the other is running their concatenation. */
  lemma {:induction false} RunAppend(cfg: PluginConfig, w: World, a: seq<Event>, b: seq<Event>)
    ensures var ra := Run(cfg, w, a);
            var rb := Run(cfg, ra.world, b);
            Run(cfg, w, a + b) == StepResult(rb.world, ra.emitted + rb.emitted)
    decreases |a|
  {
    if |a| == 0 {
      assert a + b == b;
    } else {
      var s := Step(cfg, w, a[0]);
      assert (a + b)[0] == a[0];
      assert (a + b)[1..] == a[1..] + b;
      RunAppend(cfg, s.world, a[1..], b);
      var ra' := Run(cfg, s.world, a[1..]);
      var rb := Run(cfg, ra'.world, b);
      assert s.emitted + (ra'.emitted + rb.emitted) == (s.emitted + ra'.emitted) + rb.emitted;
    }
  }

  /** Debouncing: any burst of notifications inside one window, followed by
      the fire, results in one full update, made with the state sampled
      when the fire runs. The stamp is kept and nothing is left queued. */
  lemma BurstCoalesces(cfg: PluginConfig, w: World, evs: seq<Event>, atFire: Env)
    requires cfg.isEnabled && Inv(w) && w.sched.last.Some?
    requires NotifiesWithin(w.sched.last.value, evs)
    requires |evs| > 0 || w.sched.pending
    ensures var r := Run(cfg, w, evs + [Fire(atFire)]);
            && r.emitted == Publish(cfg.statuses, atFire)
            && r.world == World(SchedState(w.sched.last, false), [])
  {
    NotifiesInsideWindow(cfg, w, evs);
    RunAppend(cfg, w, evs, [Fire(atFire)]);
    var mid := Run(cfg, w, evs).world;
    assert [Fire(atFire)][1..] == [];
    assert Run(cfg, mid, [Fire(atFire)]) == Step(cfg, mid, Fire(atFire));
  }

  /** The first notification of the burst publishes the waiting template. */
  lemma BurstOpens(waiting: Env)
    requires waiting == Env(true, RoundState(false, false, false), [])
    ensures Step(DefaultConfig(), Start, Notify(0, waiting))
              == StepResult(World(SchedState(Some(0), false), []),
                            [Publication("Waiting for players...", Idle)])
  {
    DefaultLiteralTemplatesRender(0);
  }

  /** The rest of the burst: queue once, ignore the next, fire with the
      state sampled at fire time. */
  lemma BurstCloses(a: Env, b: Env, atFire: Env)
    requires atFire.loggedIn && atFire.round == RoundState(true, true, false)
    requires |atFire.players| == 5 && forall i :: 0 <= i < 5 ==> !atFire.players[i].isDummy
    ensures Run(DefaultConfig(), World(SchedState(Some(0), false), []),
                [Notify(1000, a), Notify(2000, b), Fire(atFire)])
              == StepResult(World(SchedState(Some(0), false), []), [Publication("Players: 5", Online)])
  {
    var cfg := DefaultConfig();
    var w1 := World(SchedState(Some(0), false), []);
    var w2 := World(SchedState(Some(0), true), [3000]);
    var w3 := World(SchedState(Some(0), false), []);
    assert Step(cfg, w1, Notify(1000, a)) == StepResult(w2, []);
    assert Step(cfg, w2, Notify(2000, b)) == StepResult(w2, []);
    DefaultRenderFivePlayers(atFire.players);
    assert Step(cfg, w2, Fire(atFire)) == StepResult(w3, [Publication("Players: 5", Online)]);
    var evs := [Notify(1000, a), Notify(2000, b), Fire(atFire)];
    assert evs[1..][1..] == [Fire(atFire)];
    assert Run(cfg, w2, [Fire(atFire)]) == StepResult(w3, [Publication("Players: 5", Online)]);
    assert Run(cfg, w2, evs[1..]) == Run(cfg, w2, [Fire(atFire)]);
  }

  /** A trace is its first event followed by the rest. */
  lemma RunPrepend(cfg: PluginConfig, w: World, e: Event, rest: seq<Event>)
    ensures var s := Step(cfg, w, e);
            var t := Run(cfg, s.world, rest);
            Run(cfg, w, [e] + rest) == StepResult(t.world, s.emitted + t.emitted)
  {
    assert ([e] + rest)[1..] == rest;
  }

  /** A notification one second after an immediate update queues the fire. */
  lemma BurstSecond(a: Env)
    ensures Run(DefaultConfig(), World(SchedState(Some(0), false), []), [Notify(1000, a)]).world
              == World(SchedState(Some(0), true), [3000])
  {
    var cfg := DefaultConfig();
    var w1 := World(SchedState(Some(0), false), []);
    RunPrepend(cfg, w1, Notify(1000, a), []);
    assert [Notify(1000, a)] + [] == [Notify(1000, a)];
  }

  /** A trace whose first step and remaining run are known. */
  lemma RunCompose(cfg: PluginConfig, w: World, e: Event, tail: seq<Event>, first: StepResult, rest: StepResult)
    requires Step(cfg, w, e) == first
    requires Run(cfg, first.world, tail) == rest
    ensures Run(cfg, w, [e] + tail) == StepResult(rest.world, first.emitted + rest.emitted)
  {
    RunPrepend(cfg, w, e, tail);
  }

  /** The whole burst, as the opening notification followed by the rest. */
  lemma BurstFull(waiting: Env, a: Env, b: Env, atFire: Env)
    requires waiting == Env(true, RoundState(false, false, false), [])
    requires atFire.loggedIn && atFire.round == RoundState(true, true, false)
    requires |atFire.players| == 5 && forall i :: 0 <= i < 5 ==> !atFire.players[i].isDummy
    ensures Run(DefaultConfig(), Start,
                [Notify(0, waiting), Notify(1000, a), Notify(2000, b), Fire(atFire)])
              == StepResult(World(SchedState(Some(0), false), []),
                            [Publication("Waiting for players...", Idle), Publication("Players: 5", Online)])
  {
    var tail := [Notify(1000, a), Notify(2000, b), Fire(atFire)];
    BurstOpens(waiting);
    BurstCloses(a, b, atFire);
    RunCompose(DefaultConfig(), Start, Notify(0, waiting), tail,
               StepResult(World(SchedState(Some(0), false), []), [Publication("Waiting for players...", Idle)]),
               StepResult(World(SchedState(Some(0), false), []), [Publication("Players: 5", Online)]));
    assert [Notify(0, waiting)] + tail == [Notify(0, waiting), Notify(1000, a), Notify(2000, b), Fire(atFire)];
  }

  /** A burst inside one window with the default templates: the first
      notification publishes at once, the second queues one fire due at 3000,
      the third changes nothing, and the fire publishes what it samples when
      it runs, whatever the state was at the notifications in between. */
  lemma BurstScenario(waiting: Env, a: Env, b: Env, atFire: Env)
    requires waiting == Env(true, RoundState(false, false, false), [])
    requires atFire.loggedIn && atFire.round == RoundState(true, true, false)
    requires |atFire.players| == 5 && forall i :: 0 <= i < 5 ==> !atFire.players[i].isDummy
    ensures Run(DefaultConfig(), Start, [Notify(0, waiting), Notify(1000, a)]).world
              == World(SchedState(Some(0), true), [3000])
    ensures var r := Run(DefaultConfig(), Start,
                         [Notify(0, waiting), Notify(1000, a), Notify(2000, b), Fire(atFire)]);
            && r.emitted == [Publication("Waiting for players...", Idle), Publication("Players: 5", Online)]
            && r.world == World(SchedState(Some(0), false), [])
  {
    BurstOpens(waiting);
    BurstSecond(a);
    RunPrepend(DefaultConfig(), Start, Notify(0, waiting), [Notify(1000, a)]);
    assert [Notify(0, waiting)] + [Notify(1000, a)] == [Notify(0, waiting), Notify(1000, a)];
    BurstFull(waiting, a, b, atFire);
  }
}
