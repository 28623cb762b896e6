/**
 The backup lock: flock on an open file description that the tools of a run inherit.

 A run is one acquisition, of any instance of the program; an instance may have several runs
 at once when its schedule makes them overlap. The description of a run is open as long as its
 parent or any of its tools has the descriptor; the kernel drops the lock with the last one.
 */
module Lock {
  import opened Text

  // `path` is the file the lock's name leads to now. `holder` says for a file which run's
  // description has it locked, `file` which file a run has opened, `parents` whose parents
  // still have the descriptor, `tools` which live process belongs to which run.
  datatype State = State(
    path: nat, files: nat, holder: map<nat, nat>, file: map<nat, nat>, owner: map<nat, nat>,
    parents: set<nat>, tools: map<nat, nat>, killed: set<nat>)

  const START := State(0, 1, map[], map[], map[], {}, map[], {})

  datatype Step =
    | Acquire(run: nat, instance: nat)      // open the path, then flock without waiting
    | Spawn(run: nat, process: nat)         // the parent starts a tool with the descriptor
    | Fork(parent: nat, process: nat)       // a tool starts a process of its own
    | Exit(process: nat)                    // however a tool ends
    | Close(run: nat)                       // the parent closes its descriptor
    | Kill(instance: nat)                   // the parent is gone with all its descriptors
    | Unlock(run: nat)                      // an explicit unlock, which the program never does
    | Unlink                                // the name is removed, and the next open makes a new file

  predicate Open(s: State, run: nat) { run in s.parents || exists p :: p in s.tools && s.tools[p] == run }

  predicate Free(s: State) { s.path !in s.holder }

  predicate Enabled(s: State, step: Step) {
    match step
    case Acquire(run, instance) => run !in s.file && instance !in s.killed
    case Spawn(run, process) => run in s.parents && process !in s.tools
    case Fork(parent, process) => parent in s.tools && process !in s.tools
    case Exit(process) => process in s.tools
    case Close(run) => run in s.parents
    case Kill(instance) => instance !in s.killed
    case Unlock(run) => run in s.parents
    case Unlink => true
  }

  // The kernel drops the locks of descriptions that nobody has open any more.
  function Settle(s: State): State {
    s.(holder := map f | f in s.holder && Open(s, s.holder[f]) :: s.holder[f])
  }

  function RunsOf(s: State, instance: nat): set<nat> { set r | r in s.owner && s.owner[r] == instance }

  function After(s: State, step: Step): State
    requires Enabled(s, step)
  {
    match step
    case Acquire(run, instance) =>
      // A description that cannot be locked is closed again.
      if !Free(s) then s
      else s.(holder := s.holder[s.path := run], file := s.file[run := s.path],
              owner := s.owner[run := instance], parents := s.parents + {run})
    case Spawn(run, process) => s.(tools := s.tools[process := run])
    case Fork(parent, process) => s.(tools := s.tools[process := s.tools[parent]])
    case Exit(process) => Settle(s.(tools := s.tools - {process}))
    case Close(run) => Settle(s.(parents := s.parents - {run}))
    case Kill(instance) =>
      Settle(s.(parents := s.parents - RunsOf(s, instance), killed := s.killed + {instance}))
    case Unlock(run) => s.(holder := map f | f in s.holder && s.holder[f] != run :: s.holder[f])
    case Unlink => s.(path := s.files, files := s.files + 1)
  }

  function Execute(steps: seq<Step>): Option<State> {
    if steps == [] then Some(START)
    else
      var before := Execute(steps[..|steps| - 1]);
      var step := steps[|steps| - 1];
      if before.Some? && Enabled(before.value, step) then Some(After(before.value, step)) else None
  }

  // The program keeps to its own rule never to unlink the file nor to unlock it, and nobody else breaks it.
  predicate Disciplined(steps: seq<Step>) { forall i :: 0 <= i < |steps| ==> !steps[i].Unlock? && !steps[i].Unlink? }

  // One file only, locked exactly while somebody has a description of it open, and then by
  // the one run that everybody belongs to.
  ghost predicate Inv(s: State) {
    && s.path == 0 && (forall f :: f in s.holder ==> f == 0)
    && (forall r :: r in s.parents ==> r in s.file && 0 in s.holder && s.holder[0] == r)
    && (forall p :: p in s.tools ==> s.tools[p] in s.file && 0 in s.holder && s.holder[0] == s.tools[p])
    && (0 in s.holder ==> Open(s, s.holder[0]))
  }

  lemma SettleKeeps(s: State)
    requires s.path == 0 && (forall f :: f in s.holder ==> f == 0)
    requires forall r :: r in s.parents ==> r in s.file && 0 in s.holder && s.holder[0] == r
    requires forall p :: p in s.tools ==> s.tools[p] in s.file && 0 in s.holder && s.holder[0] == s.tools[p]
    ensures Inv(Settle(s))
  {
    var t := Settle(s);
    forall r | r in t.parents ensures 0 in t.holder && t.holder[0] == r { assert Open(s, r); }
    forall p | p in t.tools ensures 0 in t.holder && t.holder[0] == t.tools[p] { assert Open(s, s.tools[p]); }
    if 0 in t.holder { assert Open(s, s.holder[0]); assert Open(t, t.holder[0]); }
  }

  lemma StepKeeps(s: State, step: Step)
    requires Inv(s) && Enabled(s, step) && !step.Unlock? && !step.Unlink?
    ensures Inv(After(s, step))
  {
    hide Settle;
    match step
    case Acquire(run, instance) =>
      if Free(s) {
        assert s.parents == {} && s.tools == map[];
        assert Open(After(s, step), run);
      }
    case Spawn(run, process) => assert Open(After(s, step), run);
    case Fork(parent, process) => assert Open(After(s, step), s.tools[parent]) by {
      assert After(s, step).tools[process] == s.tools[parent];
    }
    case Exit(process) => SettleKeeps(s.(tools := s.tools - {process}));
    case Close(run) => SettleKeeps(s.(parents := s.parents - {run}));
    case Kill(instance) =>
      SettleKeeps(s.(parents := s.parents - RunsOf(s, instance), killed := s.killed + {instance}));
    case Unlock(_) =>
    case Unlink =>
  }

  lemma {:induction false} ReachableInv(steps: seq<Step>)
    requires Execute(steps).Some? && Disciplined(steps)
    ensures Inv(Execute(steps).value)
  {
    hide Inv, After, Enabled;
    if steps == [] {
      StartInv();
    } else {
      ReachableInv(steps[..|steps| - 1]);
      StepKeeps(Execute(steps[..|steps| - 1]).value, steps[|steps| - 1]);
    }
  }

  lemma StartInv()
    ensures Inv(START)
  {
  }

  // Whatever instances start, finish, crash and leave behind: all live tools belong to one
  // run, no run acquires the lock while any tool of another survives its parent, and the lock
  // is free again as soon as the last holder of a descriptor is gone.
  lemma LockExclusive(steps: seq<Step>)
    requires Execute(steps).Some? && Disciplined(steps)
    ensures var s := Execute(steps).value;
      && (forall p, q :: p in s.tools && q in s.tools ==> s.tools[p] == s.tools[q])
      && (forall r, p :: r in s.parents && p in s.tools ==> s.tools[p] == r)
      && (forall r, r' :: r in s.parents && r' in s.parents ==> r == r')
      && (Free(s) <==> s.parents == {} && s.tools == map[])
  {
    hide Execute;
    ReachableInv(steps);
  }

  // The kernel's part: what a run has open is closed by its end, its parent's death, or itself,
  // and by nothing else.
  ghost predicate Alive(s: State) { forall r :: r in s.parents ==> r in s.owner && s.owner[r] !in s.killed }

  lemma {:induction false} KilledHoldNothing(steps: seq<Step>)
    requires Execute(steps).Some?
    ensures Alive(Execute(steps).value)
  {
    hide Settle;
    if steps != [] {
      var s := Execute(steps[..|steps| - 1]).value;
      KilledHoldNothing(steps[..|steps| - 1]);
      StillAlive(s, steps[|steps| - 1]);
    }
  }

  lemma StillAlive(s: State, step: Step)
    requires Alive(s) && Enabled(s, step)
    ensures Alive(After(s, step))
  {
    if step.Acquire? && Free(s) { assert step.run !in s.file; }
  }

  // Parents and tools of a run stay with it through everything but their own end.
  lemma OthersStay(s: State, step: Step)
    requires Alive(s) && Enabled(s, step)
    ensures forall r :: r in s.parents && step != Close(r) && step != Kill(s.owner[r]) ==> r in After(s, step).parents
    ensures forall r :: r in s.parents && (step == Close(r) || step == Kill(s.owner[r])) ==>
      r !in After(s, step).parents
    ensures forall p :: p in s.tools && step != Exit(p) ==>
      p in After(s, step).tools && After(s, step).tools[p] == s.tools[p]
    ensures forall p :: p in s.tools && step == Exit(p) ==> p !in After(s, step).tools
    ensures forall r :: r in After(s, step).parents && r !in s.parents ==> step.Acquire? && step.run == r
  {
  }

  // An attempt to start a run succeeds if and only if nobody of any other holds a descriptor,
  // and a tool that is started belongs to the run of whoever starts it.
  lemma AcquiredExactly(steps: seq<Step>, run: nat, instance: nat)
    requires Execute(steps).Some? && Disciplined(steps) && Enabled(Execute(steps).value, Acquire(run, instance))
    ensures var s := Execute(steps).value;
            run in After(s, Acquire(run, instance)).parents <==> s.parents == {} && s.tools == map[]
  {
    hide Execute;
    LockExclusive(steps);
    ReachableInv(steps);
  }

  // ---- No stale lock -------------------------------------------------------------------------------

  lemma Extend(steps: seq<Step>, step: Step) returns (longer: seq<Step>, s: State)
    requires Execute(steps).Some? && Enabled(Execute(steps).value, step)
    ensures longer == steps + [step] && Execute(longer) == Some(s) && s == After(Execute(steps).value, step)
  {
    longer := steps + [step];
    assert longer[..|longer| - 1] == steps;
    s := After(Execute(steps).value, step);
  }

  // Nothing happens but that parents are killed and tools end.
  ghost predicate OnlyCrashes(steps: seq<Step>, longer: seq<Step>) {
    steps <= longer && forall i :: |steps| <= i < |longer| ==> longer[i].Exit? || longer[i].Kill?
  }

  lemma {:induction false} ToolsEnd(steps: seq<Step>) returns (longer: seq<Step>)
    requires Execute(steps).Some? && Disciplined(steps)
    ensures Execute(longer).Some? && Disciplined(longer) && OnlyCrashes(steps, longer)
    ensures Execute(longer).value.tools == map[]
    decreases |Execute(steps).value.tools|
  {
    hide Execute;
    var s := Execute(steps).value;
    longer := steps;
    if s.tools != map[] {
      var process := SomeTool(s.tools);
      var more, t := Extend(steps, Exit(process));
      assert t.tools == s.tools - {process};
      FewerTools(s.tools, process);
      longer := ToolsEnd(more);
    }
  }

  lemma SomeTool(tools: map<nat, nat>) returns (process: nat)
    requires tools != map[]
    ensures process in tools
  {
    assert tools.Keys != {};
    process :| process in tools.Keys;
  }

  lemma FewerTools(tools: map<nat, nat>, process: nat)
    requires process in tools
    ensures |tools - {process}| < |tools|
  {
    assert (tools - {process}).Keys == tools.Keys - {process};
    assert |(tools - {process}).Keys| == |tools - {process}| && |tools.Keys| == |tools|;
  }

  // Whatever has happened, crashes alone set the lock free again: nobody has to clean up.
  lemma NoStaleLock(steps: seq<Step>) returns (longer: seq<Step>)
    requires Execute(steps).Some? && Disciplined(steps)
    ensures Execute(longer).Some? && Disciplined(longer) && OnlyCrashes(steps, longer) && Free(Execute(longer).value)
  {
    hide Execute;
    longer := ToolsEnd(steps);
    var s := Execute(longer).value;
    if run :| run in s.parents {
      KilledHoldNothing(longer);
      LockExclusive(longer);
      var t;
      longer, t := Extend(longer, Kill(s.owner[run]));
      assert t.parents == s.parents - RunsOf(s, s.owner[run]);
      assert run in RunsOf(s, s.owner[run]);
      assert t.tools == map[] && t.parents == {};
    }
    LockExclusive(longer);
  }

  // ---- Why the rule is needed ----------------------------------------------------------------------

  // Tools of two runs alive together.
  ghost predicate Overlap(s: State) { exists p, q :: p in s.tools && q in s.tools && s.tools[p] != s.tools[q] }

  // After a tool was started, the given interference and a second run with a tool of its own.
  lemma Interfered(interference: Step) returns (steps: seq<Step>)
    requires interference == Unlink || interference == Unlock(0)
    ensures steps == [Acquire(0, 0), Spawn(0, 10), interference, Acquire(1, 1), Spawn(1, 11)]
    ensures Execute(steps).Some? && Overlap(Execute(steps).value)
  {
    var s;
    steps, s := Extend([], Acquire(0, 0));
    steps, s := Extend(steps, Spawn(0, 10));
    assert s.parents == {0} && s.tools == map[10 := 0] && s.holder == map[0 := 0];
    steps, s := Extend(steps, interference);
    assert Free(s);
    steps, s := Extend(steps, Acquire(1, 1));
    steps, s := Extend(steps, Spawn(1, 11));
    assert s.tools[10] == 0 && s.tools[11] == 1;
  }
}
