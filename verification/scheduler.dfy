/** Scheduler: `run_sync` and `main`, as the trace of actions the process
    issues against a sequence of observed host states. */
module Scheduler {
  import opened Common
  import opened Actions
  import Scanner
  import Resolver
  import Enforcer
  import Launcher
  import PyPath
  import PyText

  /** Everything one cycle observes after its fetch: the walk of the stacks
      directory, the paths that exist, what `docker compose ps --services`
      answers in a given directory, and the host's container listing (`None`
      when listing raised). */
  datatype World = World(
    walk: seq<Scanner.WalkEntry>,
    existing: set<string>,
    services: string -> Resolver.CommandOutcome,
    listing: Option<seq<Enforcer.Listed>>)

  /** Why a cycle stopped early: an exception escaped the enforcement step. */
  datatype Abort =
    | ServicesQueryFailed   // `None.splitlines()` after a failed `ps --services`
    | ContainerListFailed   // `containers.list(all=True)` raised

  /** The actions of one cycle, and the exception that ended it early, if any. */
  datatype CycleRun = CycleRun(actions: seq<Action>, aborted: Option<Abort>)

  /** How the process stands once the observed cycles are used up. */
  datatype Exit =
    | Finished       // run-once mode returned from main
    | Crashed        // an exception escaped main
    | StillRunning   // loop mode: the process sleeps and goes on

  datatype Run = Run(actions: seq<Action>, cycles: nat, exit: Exit)

  /** The answers of the per-manifest service queries, in manifest order. */
  function Queries(w: World, manifests: seq<string>): seq<Resolver.CommandOutcome>
  {
    seq(|manifests|, i requires 0 <= i < |manifests| => w.services(Launcher.ComposeDir(manifests[i])))
  }

  /** The container is one a cycle whose queries answered `outs` stops: it
      was looked up, no query reported its name, and its label does not
      exempt it. */
  predicate Unexpected(c: Enforcer.Listed, outs: seq<Resolver.CommandOutcome>)
  {
    && c.lookup.Found?
    && !Resolver.Declares(outs, c.name)
    && !Enforcer.IsExemptValue(Enforcer.LabelValue(c.lookup.labels))
  }

  /** Some listed container with id `id` is unexpected. */
  predicate UnexpectedId(cs: seq<Enforcer.Listed>, outs: seq<Resolver.CommandOutcome>, id: string)
  {
    exists i :: 0 <= i < |cs| && cs[i].id == id && Unexpected(cs[i], outs)
  }

  lemma UnexpectedIsShouldStop(cs: seq<Enforcer.Listed>, expected: set<string>, outs: seq<Resolver.CommandOutcome>)
    requires forall name :: name in expected <==> Resolver.Declares(outs, name)
    ensures forall id :: Enforcer.ShouldStopId(cs, expected, id) <==> UnexpectedId(cs, outs, id)
  {
    assert forall i :: 0 <= i < |cs| ==> (Enforcer.ShouldStop(cs[i], expected) <==> Unexpected(cs[i], outs));
  }

  /** The enforcer's pass against an expected set that holds exactly the
      names the queries reported. */
  lemma EnforceAgainstDeclared(cs: seq<Enforcer.Listed>, expected: set<string>, outs: seq<Resolver.CommandOutcome>)
    requires forall name :: name in expected <==> Resolver.Declares(outs, name)
    ensures exists e ::
      && (forall name :: name in e <==> Resolver.Declares(outs, name))
      && Enforcer.Enforce(cs, expected) == StopAll(Enforcer.StopsOf(cs, e))
  {
    assert Enforcer.Enforce(cs, expected) == StopAll(Enforcer.StopsOf(cs, expected));
  }

  /** `stop_unexpected_containers`: list the containers (which may raise),
      build the expected set (which raises on a failed query), then stop the
      containers the enforcer picks. It raises exactly when the listing or a
      query failed, the listing first; otherwise it issues only stops, and a
      stop for exactly the ids of the unexpected containers: one pass of the
      enforcer over the listing, against the names the queries reported. */
  function StopUnexpected(listing: Option<seq<Enforcer.Listed>>, outs: seq<Resolver.CommandOutcome>)
    : (r: Result<seq<Action>, Abort>)
    ensures r.Failure? <==> listing.None? || Resolver.AnyFailed(outs)
    ensures r.Failure? ==> r.error == if listing.None? then ContainerListFailed else ServicesQueryFailed
    ensures r.Success? ==> AllInPhase(r.value, 2)
    ensures r.Success? ==> listing.Some? && forall id ::
      Stop(id) in r.value <==> UnexpectedId(listing.value, outs, id)
    ensures r.Success? ==> listing.Some? && exists expected ::
      && (forall name :: name in expected <==> Resolver.Declares(outs, name))
      && r.value == StopAll(Enforcer.StopsOf(listing.value, expected))
  {
    match listing
    case None => Failure(ContainerListFailed)
    case Some(cs) =>
      match Resolver.ExpectedContainers(outs)
      case None => Failure(ServicesQueryFailed)
      case Some(expected) =>
        UnexpectedIsShouldStop(cs, expected, outs);
        EnforceAgainstDeclared(cs, expected, outs);
        Success(Enforcer.Enforce(cs, expected))
  }

  /** The shape of every cycle: its only fetch first, then launch, enforce
      and prune actions in that order, never a sleep. A completed cycle ends
      with its only prune; an aborted one neither stops nor prunes anything. */
  predicate CycleShaped(t: seq<Action>, completed: bool)
  {
    && t != [] && t[0] == Fetch
    && (forall k :: 0 < k < |t| ==> 1 <= Phase(t[k]) <= 3)
    && PhaseOrdered(t)
    && (completed ==> t[|t| - 1] == Prune && forall k :: 0 <= k < |t| - 1 ==> Phase(t[k]) <= 2)
    && (!completed ==> forall k :: 0 <= k < |t| ==> Phase(t[k]) <= 1)
  }

  lemma CompletedCycleShape(launch: seq<Action>, stops: seq<Action>)
    requires AllInPhase(launch, 1) && AllInPhase(stops, 2)
    ensures CycleShaped([Fetch] + launch + stops + [Prune], true)
  {
    var t := [Fetch] + launch + stops + [Prune];
    var a, b := 1 + |launch|, 1 + |launch| + |stops|;
    forall k | 0 <= k < |t|
      ensures Phase(t[k]) == if k == 0 then 0 else if k < a then 1 else if k < b then 2 else 3
    {
      if 0 < k < a {
        assert t[k] == launch[k - 1];
      } else if a <= k < b {
        assert t[k] == stops[k - a];
      }
    }
  }

  lemma AbortedCycleShape(launch: seq<Action>)
    requires AllInPhase(launch, 1)
    ensures CycleShaped([Fetch] + launch, false)
  {
    var t := [Fetch] + launch;
    forall k | 0 < k < |t|
      ensures Phase(t[k]) == 1
    {
      assert t[k] == launch[k - 1];
    }
  }

  /** A cycle fetches once, prunes once if it completed and never otherwise,
      and never sleeps. */
  lemma CycleCounts(t: seq<Action>, completed: bool)
    requires CycleShaped(t, completed)
    ensures multiset(t)[Fetch] == 1
    ensures multiset(t)[Prune] == if completed then 1 else 0
    ensures forall n :: multiset(t)[Sleep(n)] == 0
  {
    assert multiset(t)[Fetch] == 1 by {
      OnlyAtHead(t);
    }
    forall n
      ensures multiset(t)[Sleep(n)] == 0
    {
      AbsentByPhase(t, Sleep(n));
    }
    if completed {
      OnlyAtEnd(t);
    } else {
      AbsentByPhase(t, Prune);
    }
  }

  /** A trace without launch actions starts nothing and decrypts nothing. */
  lemma {:induction false} NoLaunch(t: seq<Action>)
    requires forall k :: 0 <= k < |t| ==> Phase(t[k]) != 1
    ensures ComposeDirs(t) == [] && DecryptFlags(t) == []
    decreases |t|
  {
    if t != [] {
      NoLaunch(t[1..]);
    }
  }

  /** Wrapping the launch between a fetch and steps of the later phases
      does not change which directories are started. */
  lemma ComposeDirsWithin(launch: seq<Action>, after: seq<Action>)
    requires AllInPhase(launch, 1)
    requires forall k :: 0 <= k < |after| ==> Phase(after[k]) != 1
    ensures ComposeDirs([Fetch] + launch + after) == ComposeDirs(launch)
  {
    NoLaunch([Fetch]);
    NoLaunch(after);
    ComposeDirsAppend([Fetch], launch);
    ComposeDirsAppend([Fetch] + launch, after);
  }

  /** Nor does it change which starts are preceded by a decrypt. */
  lemma DecryptFlagsWithin(launch: seq<Action>, after: seq<Action>)
    requires AllInPhase(launch, 1) && Launcher.DecryptsPrecedeTheirStart(launch)
    requires forall k :: 0 <= k < |after| ==> Phase(after[k]) != 1
    ensures DecryptFlags([Fetch] + launch + after) == DecryptFlags(launch)
  {
    NoLaunch([Fetch]);
    NoLaunch(after);
    DecryptFlagsAppend([Fetch], launch);
    var front := [Fetch] + launch;
    assert !front[|front| - 1].Decrypt? by {
      if launch != [] {
        assert front[|front| - 1] == launch[|launch| - 1];
      }
    }
    DecryptFlagsAppend(front, after);
  }

  /** Nor does it change where the decrypts are: each still comes directly
      before the compose-up of its own directory. */
  lemma DecryptsWithin(launch: seq<Action>, after: seq<Action>)
    requires AllInPhase(launch, 1) && Launcher.DecryptsPrecedeTheirStart(launch)
    requires forall k :: 0 <= k < |after| ==> !after[k].Decrypt?
    ensures Launcher.DecryptsPrecedeTheirStart([Fetch] + launch + after)
  {
    var t := [Fetch] + launch + after;
    forall k | 0 <= k < |t| && t[k].Decrypt?
      ensures k + 1 < |t| && t[k + 1].ComposeUp?
      ensures t[k].encrypted == Launcher.EncryptedEnv(t[k + 1].dir)
      ensures t[k].plain == Launcher.PlainEnv(t[k + 1].dir)
    {
      assert 1 <= k <= |launch| && t[k] == launch[k - 1];
      assert t[k + 1] == launch[k];
    }
  }

  /** The stops of a completed cycle are those of its enforcement step. */
  lemma StopsWithin(launch: seq<Action>, stops: seq<Action>)
    requires AllInPhase(launch, 1)
    ensures forall id :: Stop(id) in [Fetch] + launch + stops + [Prune] <==> Stop(id) in stops
  {
    var t := [Fetch] + launch + stops + [Prune];
    forall id | Stop(id) in t
      ensures Stop(id) in stops
    {
      var k :| 0 <= k < |t| && t[k] == Stop(id);
      if |launch| < k <= |launch| + |stops| {
        assert t[k] == stops[k - 1 - |launch|];
      }
    }
    forall id | Stop(id) in stops
      ensures Stop(id) in t
    {
      var k :| 0 <= k < |stops| && stops[k] == Stop(id);
      assert t[1 + |launch| + k] == stops[k];
    }
  }

  /** A completed cycle around a launch and an enforcement step: it has the
      cycle shape, starts what the launch starts, decrypts where the launch
      decrypts, and stops what the enforcement step stops. */
  lemma CompletedCycle(launch: seq<Action>, stops: seq<Action>)
    requires AllInPhase(launch, 1) && Launcher.DecryptsPrecedeTheirStart(launch)
    requires AllInPhase(stops, 2)
    ensures var t := [Fetch] + launch + stops + [Prune];
      && CycleShaped(t, true)
      && ComposeDirs(t) == ComposeDirs(launch)
      && DecryptFlags(t) == DecryptFlags(launch)
      && Launcher.DecryptsPrecedeTheirStart(t)
      && forall id :: Stop(id) in t <==> Stop(id) in stops
  {
    var after := stops + [Prune];
    assert [Fetch] + launch + after == [Fetch] + launch + stops + [Prune];
    CompletedCycleShape(launch, stops);
    ComposeDirsWithin(launch, after);
    DecryptFlagsWithin(launch, after);
    DecryptsWithin(launch, after);
    StopsWithin(launch, stops);
  }

  /** An aborted cycle: the cycle shape, and the launch's starts and decrypts. */
  lemma AbortedCycle(launch: seq<Action>)
    requires AllInPhase(launch, 1) && Launcher.DecryptsPrecedeTheirStart(launch)
    ensures var t := [Fetch] + launch;
      && CycleShaped(t, false)
      && ComposeDirs(t) == ComposeDirs(launch)
      && DecryptFlags(t) == DecryptFlags(launch)
      && Launcher.DecryptsPrecedeTheirStart(t)
  {
    assert [Fetch] + launch + [] == [Fetch] + launch;
    DecryptsWithin(launch, []);
    AbortedCycleShape(launch);
    ComposeDirsWithin(launch, []);
    DecryptFlagsWithin(launch, []);
  }

  /** The stops of one enforcer pass, wrapped in a completed cycle. */
  lemma StopsOfCompletedCycle(launch: seq<Action>, stops: seq<Action>, cs: seq<Enforcer.Listed>,
                              outs: seq<Resolver.CommandOutcome>)
    requires exists expected ::
      && (forall name :: name in expected <==> Resolver.Declares(outs, name))
      && stops == StopAll(Enforcer.StopsOf(cs, expected))
    ensures exists expected ::
      && (forall name :: name in expected <==> Resolver.Declares(outs, name))
      && [Fetch] + launch + stops + [Prune] == [Fetch] + launch + StopAll(Enforcer.StopsOf(cs, expected)) + [Prune]
  {
  }

  /** One `run_sync`: fetch, then launch every manifest, then enforce, then
      prune. The cycle has the shape above; it starts a stack in every
      manifest's directory in manifest order, each directly after a decrypt
      of that directory's own `.env.enc` exactly when it holds one; it
      completes exactly when the container listing and every manifest's
      service query succeeded, and then its stops are one pass of the
      enforcer over the listing, against the names the queries reported. */
  function RunSync(w: World): (c: CycleRun)
    ensures CycleShaped(c.actions, c.aborted.None?)
    ensures c.aborted.None? <==>
      w.listing.Some? && !Resolver.AnyFailed(Queries(w, Scanner.FindComposeFiles(w.walk)))
    ensures ComposeDirs(c.actions) == Launcher.ManifestDirs(Scanner.FindComposeFiles(w.walk))
    ensures DecryptFlags(c.actions) == Launcher.EncryptedFlags(Scanner.FindComposeFiles(w.walk), w.existing)
    ensures Launcher.DecryptsPrecedeTheirStart(c.actions)
    ensures c.aborted.None? ==> w.listing.Some? && forall id :: Stop(id) in c.actions <==>
      UnexpectedId(w.listing.value, Queries(w, Scanner.FindComposeFiles(w.walk)), id)
    ensures c.aborted.None? ==> w.listing.Some? && exists expected ::
      && (forall name :: name in expected <==> Resolver.Declares(Queries(w, Scanner.FindComposeFiles(w.walk)), name))
      && c.actions == [Fetch] + Launcher.Launch(Scanner.FindComposeFiles(w.walk), w.existing)
                      + StopAll(Enforcer.StopsOf(w.listing.value, expected)) + [Prune]
    ensures c.aborted.Some? ==> c.actions == [Fetch] + Launcher.Launch(Scanner.FindComposeFiles(w.walk), w.existing)
  {
    var manifests := Scanner.FindComposeFiles(w.walk);
    var launch := Launcher.Launch(manifests, w.existing);
    Launcher.ComposeUpForEveryManifest(manifests, w.existing);
    Launcher.DecryptPerManifest(manifests, w.existing);
    match StopUnexpected(w.listing, Queries(w, manifests))
    case Failure(e) =>
      AbortedCycle(launch);
      CycleRun([Fetch] + launch, Some(e))
    case Success(stops) =>
      CompletedCycle(launch, stops);
      StopsOfCompletedCycle(launch, stops, w.listing.value, Queries(w, manifests));
      CycleRun([Fetch] + launch + stops + [Prune], None)
  }

  /** The `while True` loop over the results of successive cycles: after
      each cycle that returns, `time.sleep(interval)`, which raises for a
      negative interval; an exception out of a cycle ends the process. The
      loop never returns; it ends by an exception exactly when some cycle
      raises or the interval is negative, and otherwise it counts every
      observed cycle. `LoopOfOne` and `LoopAppend` give its trace. */
  function Loop(interval: int, runs: seq<CycleRun>): (r: Run)
    ensures r.cycles <= |runs|
    ensures runs != [] ==> 1 <= r.cycles
    ensures r.exit != Finished
    ensures r.exit == Crashed <==> runs != [] && (interval < 0 || !Completes(runs))
    ensures r.exit == StillRunning ==> r.cycles == |runs|
    decreases |runs|
  {
    if runs == [] then Run([], 0, StillRunning)
    else if runs[0].aborted.Some? then Run(runs[0].actions, 1, Crashed)
    else if interval < 0 then Run(runs[0].actions, 1, Crashed)
    else
      var rest := Loop(interval, runs[1..]);
      CompletesStep(runs);
      Run(runs[0].actions + [Sleep(interval)] + rest.actions, 1 + rest.cycles, rest.exit)
  }

  /** `f` applied to each element of `xs`, in order. */
  function Each<A, B>(xs: seq<A>, f: A -> B): (ys: seq<B>)
    ensures |ys| == |xs|
    ensures forall k :: 0 <= k < |xs| ==> ys[k] == f(xs[k])
  {
    seq(|xs|, k requires 0 <= k < |xs| => f(xs[k]))
  }

  lemma EachAppend<A, B>(a: seq<A>, b: seq<A>, f: A -> B)
    ensures Each(a + b, f) == Each(a, f) + Each(b, f)
  {
    var ab := a + b;
    assert forall k :: 0 <= k < |a| ==> ab[k] == a[k];
    assert forall k :: |a| <= k < |ab| ==> ab[k] == b[k - |a|];
  }

  lemma EachCons<A, B>(x: A, b: seq<A>, f: A -> B)
    ensures Each([x] + b, f) == [f(x)] + Each(b, f)
  {
    EachAppend([x], b, f);
    assert Each([x], f) == [f(x)];
  }

  lemma EachAround<A, B>(a: seq<A>, x: A, b: seq<A>, f: A -> B)
    ensures Each(a + [x] + b, f) == Each(a, f) + ([f(x)] + Each(b, f))
  {
    EachAppend(a + [x], b, f);
    EachAppend(a, [x], f);
    assert Each([x], f) == [f(x)];
  }

  /** The cycle each observed state would give, in order: each has the shape
      of a cycle, and all complete exactly when every state lets its cycle
      complete. */
  function CyclesOf(worlds: seq<World>): (runs: seq<CycleRun>)
    ensures |runs| == |worlds|
    ensures Shaped(runs)
    ensures Completes(runs) <==> AllComplete(worlds)
  {
    var runs := Each(worlds, RunSync);
    assert forall k :: 0 <= k < |runs| ==> runs[k].aborted == RunSync(worlds[k]).aborted;
    runs
  }

  /** The loop over one cycle: its actions, then a sleep if it completed and
      the interval is not negative, and the process is still running;
      otherwise the process ends by an exception right after it. */
  lemma LoopOfOne(interval: int, c: CycleRun)
    ensures Loop(interval, [c]) ==
      if c.aborted.None? && interval >= 0 then Run(c.actions + [Sleep(interval)], 1, StillRunning)
      else Run(c.actions, 1, Crashed)
  {
    assert [c][1..] == [];
  }

  /** A completed first cycle, a sleep, then the loop over the rest. */
  lemma LoopAfterCompleted(interval: int, c: CycleRun, rest: seq<CycleRun>)
    requires interval >= 0 && c.aborted.None?
    ensures var tail := Loop(interval, rest);
      Loop(interval, [c] + rest) == Run(c.actions + [Sleep(interval)] + tail.actions, 1 + tail.cycles, tail.exit)
  {
    assert ([c] + rest)[0] == c && ([c] + rest)[1..] == rest;
  }

  /** The loop's trace starts with its first cycle's actions, and is nothing
      more when that cycle raised or the interval is negative. */
  lemma LoopStart(interval: int, c: CycleRun, rest: seq<CycleRun>)
    ensures c.actions <= Loop(interval, [c] + rest).actions
    ensures c.aborted.Some? || interval < 0 ==> Loop(interval, [c] + rest).actions == c.actions
  {
    assert ([c] + rest)[0] == c && ([c] + rest)[1..] == rest;
  }

  lemma Regroup<T>(p: seq<T>, q: seq<T>, r: seq<T>, s: seq<T>)
    ensures p + (q + r + s) == p + q + (r + s)
    ensures p + q + (r + s) == p + q + r + s
  {
  }

  /** Cycles that complete hand the loop on unchanged: the loop over `a + b`
      runs the loop over `a`, then the loop over `b`. */
  lemma {:induction false} LoopAppend(interval: int, a: seq<CycleRun>, b: seq<CycleRun>)
    requires interval >= 0 && Completes(a)
    ensures Loop(interval, a + b).actions == Loop(interval, a).actions + Loop(interval, b).actions
    decreases |a|
  {
    if a == [] {
      assert a + b == b;
    } else {
      CompletesStep(a);
      var c, more := a[0], a[1..];
      assert a == [c] + more && a + b == [c] + (more + b);
      LoopAfterCompleted(interval, c, more + b);
      LoopAfterCompleted(interval, c, more);
      LoopAppend(interval, more, b);
      Regroup(c.actions, [Sleep(interval)], Loop(interval, more).actions, Loop(interval, b).actions);
    }
  }

  /** The loop over the observed states of the host. */
  function Forever(interval: int, worlds: seq<World>): (r: Run)
    ensures r.cycles <= |worlds|
  {
    Loop(interval, CyclesOf(worlds))
  }

  /** `main`: one cycle when the interval is zero, the loop otherwise.
      `first` is the first cycle's view of the host, `later` those of the
      cycles after it. The process returns only in run-once mode after a
      cycle that completed; a zero or negative interval runs the first cycle
      alone, and a negative one then raises in `time.sleep`; a positive one
      goes on running exactly when every observed cycle completes. The trace
      starts with the first cycle's actions; with a positive interval and a
      first cycle that completed, a sleep follows and then the loop over the
      later states. */
  function Main(interval: int, first: World, later: seq<World>): (r: Run)
    ensures 1 <= r.cycles
    ensures r.exit == Finished <==> interval == 0 && RunSync(first).aborted.None?
    ensures interval <= 0 ==> r.cycles == 1 && r.actions == RunSync(first).actions
    ensures interval < 0 ==> r.exit == Crashed
    ensures r.exit == StillRunning <==> interval > 0 && AllComplete([first] + later)
    ensures r.exit == StillRunning ==> r.cycles == 1 + |later|
    ensures RunSync(first).actions <= r.actions
    ensures RunSync(first).aborted.Some? ==> r.actions == RunSync(first).actions
    ensures interval > 0 && RunSync(first).aborted.None? ==>
      r.actions == RunSync(first).actions + [Sleep(interval)] + Forever(interval, later).actions
  {
    if interval == 0 then
      var c := RunSync(first);
      Run(c.actions, 1, if c.aborted.Some? then Crashed else Finished)
    else
      ForeverFirst(interval, first, later);
      Forever(interval, [first] + later)
  }

  /** The loop over the observed states starts with the first state's cycle;
      then, when that cycle completed and the interval is not negative, a
      sleep and the loop over the later states follow, and otherwise
      nothing. */
  lemma ForeverFirst(interval: int, first: World, later: seq<World>)
    ensures var r, c := Forever(interval, [first] + later), RunSync(first);
      && CyclesOf([first] + later)[0] == c
      && c.actions <= r.actions
      && (c.aborted.Some? || interval < 0 ==> r.actions == c.actions)
      && (c.aborted.None? && interval >= 0 ==>
            r.actions == c.actions + [Sleep(interval)] + Forever(interval, later).actions)
  {
    var c := RunSync(first);
    assert CyclesOf([first] + later) == [c] + CyclesOf(later) by {
      EachCons(first, later, RunSync);
    }
    LoopStart(interval, c, CyclesOf(later));
    if c.aborted.None? && interval >= 0 {
      LoopAfterCompleted(interval, c, CyclesOf(later));
    }
  }

  /** With a zero interval the process performs exactly one cycle, never
      sleeps, and ends. */
  lemma RunOnceWhenIntervalZero(first: World, later: seq<World>)
    ensures var r := Main(0, first, later);
      && r.cycles == 1 && r.exit != StillRunning
      && r.actions == RunSync(first).actions
      && multiset(r.actions)[Fetch] == 1
      && forall n :: multiset(r.actions)[Sleep(n)] == 0
  {
    var c := RunSync(first);
    CycleCounts(c.actions, c.aborted.None?);
  }

  /** Every cycle result has the shape of a cycle. */
  predicate Shaped(runs: seq<CycleRun>)
  {
    forall k :: 0 <= k < |runs| ==> CycleShaped(runs[k].actions, runs[k].aborted.None?)
  }

  predicate Completes(runs: seq<CycleRun>)
  {
    forall k :: 0 <= k < |runs| ==> runs[k].aborted.None?
  }

  lemma CompletesStep(runs: seq<CycleRun>)
    requires runs != []
    ensures Completes(runs) <==> runs[0].aborted.None? && Completes(runs[1..])
  {
    assert forall k :: 0 < k < |runs| ==> runs[k] == runs[1..][k - 1];
  }

  predicate AllComplete(worlds: seq<World>)
  {
    forall k :: 0 <= k < |worlds| ==> RunSync(worlds[k]).aborted.None?
  }

  /** After a completed cycle the loop has fetched, pruned and slept once
      more than it does over the remaining cycles. */
  lemma CountsAfterCompleted(interval: int, runs: seq<CycleRun>)
    requires interval >= 0 && runs != [] && runs[0].aborted.None?
    requires CycleShaped(runs[0].actions, true)
    ensures var r, tail := Loop(interval, runs), Loop(interval, runs[1..]);
      && r.actions == runs[0].actions + [Sleep(interval)] + tail.actions
      && r.exit == tail.exit && r.cycles == 1 + tail.cycles
      && multiset(r.actions)[Fetch] == 1 + multiset(tail.actions)[Fetch]
      && multiset(r.actions)[Prune] == 1 + multiset(tail.actions)[Prune]
      && multiset(r.actions)[Sleep(interval)] == 1 + multiset(tail.actions)[Sleep(interval)]
  {
    var c := runs[0].actions;
    var tail := Loop(interval, runs[1..]);
    CycleCounts(c, true);
    assert multiset(c + [Sleep(interval)] + tail.actions)
        == multiset(c) + multiset{Sleep(interval)} + multiset(tail.actions);
  }

  /** Every sleep comes right after a prune, and every fetch but the first
      right after a sleep of the interval. */
  predicate CyclesSeparated(t: seq<Action>, interval: int)
  {
    && (forall k :: 0 <= k < |t| && t[k].Sleep? ==> k > 0 && t[k - 1] == Prune)
    && (forall k :: 0 < k < |t| && t[k] == Fetch ==> t[k - 1] == Sleep(interval))
  }

  lemma SeparatedAfterOneMore(c: seq<Action>, interval: int, tail: seq<Action>)
    requires CycleShaped(c, true)
    requires CyclesSeparated(tail, interval) && (tail != [] ==> tail[0] == Fetch)
    ensures CyclesSeparated(c + [Sleep(interval)] + tail, interval)
  {
    var t := c + [Sleep(interval)] + tail;
    var n := |c|;
    forall k | 0 <= k < |t| && t[k].Sleep?
      ensures k > 0 && t[k - 1] == Prune
    {
      if k > n + 1 {
        assert t[k] == tail[k - n - 1];
        assert t[k - 1] == tail[k - n - 2];
      }
    }
    forall k | 0 < k < |t| && t[k] == Fetch
      ensures t[k - 1] == Sleep(interval)
    {
      if k > n + 1 {
        assert t[k] == tail[k - n - 1];
        assert t[k - 1] == tail[k - n - 2];
      }
    }
  }

  lemma ShiftCycles(runs: seq<CycleRun>)
    requires runs != [] && Shaped(runs)
    ensures Shaped(runs[1..])
    ensures Completes(runs) ==> Completes(runs[1..])
  {
    forall k | 0 <= k < |runs| - 1
      ensures runs[1..][k] == runs[k + 1]
    {
    }
  }

  /** The loop over cycles that all complete, with a positive interval. */
  lemma {:induction false} LoopOverCompleted(interval: int, runs: seq<CycleRun>)
    requires interval > 0 && Shaped(runs) && Completes(runs)
    ensures var r := Loop(interval, runs);
      && r.exit == StillRunning && r.cycles == |runs|
      && multiset(r.actions)[Fetch] == |runs|
      && multiset(r.actions)[Prune] == |runs|
      && multiset(r.actions)[Sleep(interval)] == |runs|
      && CyclesSeparated(r.actions, interval)
      && (runs != [] ==> r.actions[0] == Fetch)
    decreases |runs|
  {
    if runs != [] {
      var c := runs[0].actions;
      ShiftCycles(runs);
      LoopOverCompleted(interval, runs[1..]);
      SeparatedAfterOneMore(c, interval, Loop(interval, runs[1..]).actions);
      CountsAfterCompleted(interval, runs);
    }
  }

  /** With a positive interval and no cycle raising, the loop fetches once,
      prunes once and sleeps once per observed state, with a sleep between a
      cycle's prune and the next cycle's fetch. */
  lemma LoopRepeatsCycles(interval: int, worlds: seq<World>)
    requires interval > 0 && AllComplete(worlds)
    ensures var r := Forever(interval, worlds);
      && r.exit == StillRunning && r.cycles == |worlds|
      && multiset(r.actions)[Fetch] == |worlds|
      && multiset(r.actions)[Prune] == |worlds|
      && multiset(r.actions)[Sleep(interval)] == |worlds|
      && CyclesSeparated(r.actions, interval)
      && (worlds != [] ==> r.actions[0] == Fetch)
  {
    var runs := CyclesOf(worlds);
    LoopOverCompleted(interval, runs);
  }

  /** The loop over completed cycles `before`, then cycle `c`, then `after`. */
  lemma LoopByCycle(interval: int, before: seq<CycleRun>, c: CycleRun, after: seq<CycleRun>)
    requires interval >= 0 && Completes(before)
    ensures Loop(interval, before + ([c] + after)).actions == Loop(interval, before).actions + c.actions
      + (if c.aborted.None? then [Sleep(interval)] + Loop(interval, after).actions else [])
  {
    var front := Loop(interval, before).actions;
    LoopAppend(interval, before, [c] + after);
    LoopStart(interval, c, after);
    if c.aborted.None? {
      LoopAfterCompleted(interval, c, after);
      var tail := Loop(interval, after).actions;
      Regroup(front, c.actions, [Sleep(interval)], tail);
    } else {
      assert front + c.actions == front + c.actions + [];
    }
  }

  /** In the loop, each observed state gets exactly its own cycle: after the
      states before it, all of which completed, come that state's cycle
      actions, and then a sleep and the states after it if it completed, or
      nothing more if it raised. */
  lemma ForeverByCycle(interval: int, a: seq<World>, w: World, b: seq<World>)
    requires interval >= 0 && AllComplete(a)
    ensures var r, c := Forever(interval, a + [w] + b), RunSync(w);
      r.actions == Forever(interval, a).actions + c.actions
        + (if c.aborted.None? then [Sleep(interval)] + Forever(interval, b).actions else [])
  {
    var c := RunSync(w);
    var ra, rb := CyclesOf(a), CyclesOf(b);
    assert CyclesOf(a + [w] + b) == ra + ([c] + rb) by {
      EachAround(a, w, b, RunSync);
    }
    LoopByCycle(interval, ra, c, rb);
  }

  /** The loop over cycles of which the `j`-th is the first to raise. */
  lemma {:induction false} LoopUntilCrash(interval: int, runs: seq<CycleRun>, j: nat)
    requires interval > 0 && j < |runs| && Shaped(runs)
    requires Completes(runs[..j]) && runs[j].aborted.Some?
    ensures var r := Loop(interval, runs);
      && r.exit == Crashed && r.cycles == j + 1
      && multiset(r.actions)[Fetch] == j + 1
      && multiset(r.actions)[Prune] == j
    decreases j
  {
    if j == 0 {
      CycleCounts(runs[0].actions, false);
    } else {
      var rest := runs[1..];
      assert runs[0].aborted.None? by {
        assert runs[..j][0] == runs[0];
      }
      var before := rest[..j - 1];
      forall k | 0 <= k < |before|
        ensures before[k].aborted.None?
      {
        assert before[k] == runs[..j][k + 1];
      }
      assert rest[j - 1] == runs[j];
      ShiftCycles(runs);
      LoopUntilCrash(interval, rest, j - 1);
      CountsAfterCompleted(interval, runs);
    }
  }

  /** In the loop, the first cycle that raises ends the process: every
      earlier cycle completed, the raising one prunes nothing, and no later
      cycle starts. */
  lemma CrashEndsTheLoop(interval: int, worlds: seq<World>, j: nat)
    requires interval > 0 && j < |worlds|
    requires AllComplete(worlds[..j]) && RunSync(worlds[j]).aborted.Some?
    ensures var r := Forever(interval, worlds);
      && r.exit == Crashed && r.cycles == j + 1
      && multiset(r.actions)[Fetch] == j + 1
      && multiset(r.actions)[Prune] == j
  {
    var runs := CyclesOf(worlds);
    var before := runs[..j];
    forall k | 0 <= k < |before|
      ensures before[k].aborted.None?
    {
      assert before[k] == RunSync(worlds[..j][k]);
    }
    LoopUntilCrash(interval, runs, j);
  }

  lemma ScanOneStack(root: string)
    requires root != [] && root[|root| - 1] != '/'
    ensures var manifests := Scanner.FindComposeFiles([Scanner.WalkEntry(root, [Scanner.ComposeYml])]);
      |manifests| == 1 && Launcher.ComposeDir(manifests[0]) == root
      && Launcher.Launch(manifests, {}) == [ComposeUp(root)]
  {
    var walk := [Scanner.WalkEntry(root, [Scanner.ComposeYml])];
    var manifest := PyPath.Join(root, Scanner.ComposeYml);
    assert Scanner.FindComposeFiles(walk) == [manifest] by {
      assert Scanner.FindComposeFiles(walk[1..]) == [];
    }
    PyPath.DirnameOfJoin(root, Scanner.ComposeYml);
  }

  lemma ExpectOneService(svc: string)
    requires svc != [] && PyText.NoSpace(svc)
    ensures Resolver.ExpectedContainers([Resolver.Succeeded(svc + "\n")]) == Some({svc})
  {
    assert Resolver.ServiceNames(svc + "\n") == {svc} by {
      Resolver.ServiceNamesOfListing([svc], "", "\n");
      assert "" + PyText.JoinLines([svc]) + "\n" == svc + "\n";
    }
    Resolver.ExpectedOfOne(svc + "\n");
  }

  lemma StopOnlyOrphan(svc: string, svcId: string, orphan: string, orphanId: string)
    requires orphan != svc
    ensures Enforcer.Enforce([Enforcer.Listed(svc, svcId, Enforcer.Found(None)),
                              Enforcer.Listed(orphan, orphanId, Enforcer.Found(None))], {svc})
            == [Stop(orphanId)]
  {
    var cs := [Enforcer.Listed(svc, svcId, Enforcer.Found(None)),
               Enforcer.Listed(orphan, orphanId, Enforcer.Found(None))];
    Enforcer.ExemptSpellings();
    assert Enforcer.Classify(cs[0], {svc}) == Enforcer.KeptByManifest;
    assert Enforcer.Classify(cs[1], {svc}) == Enforcer.Stopped;
    assert cs[1..][1..] == [];
    assert Enforcer.StopsOf(cs, {svc}) == [orphanId];
  }

  /** One manifest whose project declares `svc`; the host lists the container
      `svc` and an unlabelled `orphan`: the cycle starts the stack, stops the
      orphan alone, and prunes. */
  lemma DeclaredStaysOrphanStops(w: World, root: string, svc: string, svcId: string, orphan: string, orphanId: string)
    requires root != [] && root[|root| - 1] != '/'
    requires svc != [] && PyText.NoSpace(svc) && orphan != svc
    requires w.walk == [Scanner.WalkEntry(root, [Scanner.ComposeYml])] && w.existing == {}
    requires forall dir :: w.services(dir) == Resolver.Succeeded(svc + "\n")
    requires w.listing == Some([Enforcer.Listed(svc, svcId, Enforcer.Found(None)),
                                Enforcer.Listed(orphan, orphanId, Enforcer.Found(None))])
    ensures RunSync(w).actions == [Fetch, ComposeUp(root), Stop(orphanId), Prune]
  {
    var t := [Fetch] + [ComposeUp(root)] + [Stop(orphanId)] + [Prune];
    assert t == [Fetch, ComposeUp(root), Stop(orphanId), Prune];
    var manifests := Scanner.FindComposeFiles(w.walk);
    assert |manifests| == 1 && Launcher.ComposeDir(manifests[0]) == root
        && Launcher.Launch(manifests, w.existing) == [ComposeUp(root)] by {
      ScanOneStack(root);
    }
    var outs := Queries(w, manifests);
    assert outs == [Resolver.Succeeded(svc + "\n")];
    assert StopUnexpected(w.listing, outs) == Success([Stop(orphanId)]) by {
      ExpectOneService(svc);
      StopOnlyOrphan(svc, svcId, orphan, orphanId);
    }
    assert RunSync(w).actions == t;
  }
}
