// The migration runner (pkg/postgres/migrate.go): each file's body and its row in
// schema_migrations commit together, and the row's version is a primary key.
module Migrations {

  // ---- any number of runners over one file list --------------------------------

  datatype Phase = Running | Failed | Done

  /** A process running Migrate: the versions it read when it started, which may since be stale,
      and the file it has come to. */
  datatype Runner = Runner(applied: set<string>, next: nat, phase: Phase)

  /** schema_migrations, every body that was ever committed, and the runners. */
  datatype State = State(recorded: set<string>, bodies: seq<string>, runners: map<int, Runner>)

  datatype Step =
    | Load(id: int)      // reads the applied versions and starts
    | Skip(id: int)      // the next version was applied when it looked
    | Commit(id: int)    // body and row commit
    | Conflict(id: int)  // the row's key is taken: body and row roll back
    | Fail(id: int)      // any other error: nothing commits and the run ends
    | Finish(id: int)    // no file left

  predicate Active(s: State, id: int) {
    id in s.runners && s.runners[id].phase.Running?
  }

  predicate Enabled(files: seq<string>, s: State, step: Step) {
    match step
    case Load(id) => id !in s.runners
    case Fail(id) => Active(s, id)
    case Finish(id) => Active(s, id) && s.runners[id].next == |files|
    case _ =>
      Active(s, step.id) && s.runners[step.id].next < |files|
      && var r := s.runners[step.id];
         var version := files[r.next];
         match step
         case Skip(_) => version in r.applied
         case Commit(_) => version !in r.applied && version !in s.recorded
         case _ => version !in r.applied && version in s.recorded
  }

  function Next(files: seq<string>, s: State, step: Step): State
    requires Enabled(files, s, step)
  {
    match step
    case Load(id) => s.(runners := s.runners[id := Runner(s.recorded, 0, Running)])
    case Skip(id) => s.(runners := s.runners[id := s.runners[id].(next := s.runners[id].next + 1)])
    case Commit(id) =>
      var version := files[s.runners[id].next];
      State(s.recorded + {version}, s.bodies + [version],
            s.runners[id := s.runners[id].(next := s.runners[id].next + 1)])
    case Conflict(id) => s.(runners := s.runners[id := s.runners[id].(phase := Failed)])
    case Fail(id) => s.(runners := s.runners[id := s.runners[id].(phase := Failed)])
    case Finish(id) => s.(runners := s.runners[id := s.runners[id].(phase := Done)])
  }

  predicate Legal(files: seq<string>, s: State, steps: seq<Step>)
    decreases |steps|
  {
    steps == [] || (Enabled(files, s, steps[0]) && Legal(files, Next(files, s, steps[0]), steps[1..]))
  }

  function Run(files: seq<string>, s: State, steps: seq<Step>): State
    requires Legal(files, s, steps)
    decreases |steps|
  {
    if steps == [] then s else Run(files, Next(files, s, steps[0]), steps[1..])
  }

  predicate Distinct(xs: seq<string>) {
    forall i, j | 0 <= i < j < |xs| :: xs[i] != xs[j]
  }

  /** A database nobody is migrating: every recorded version stands for one committed body. */
  ghost predicate Quiet(s: State) {
    s.runners == map[] && Distinct(s.bodies) && forall v :: v in s.recorded <==> v in s.bodies
  }

  /** Whatever a runner has passed is recorded, and what it believes applied is. */
  predicate RunnerSound(files: seq<string>, s: State, r: Runner) {
    r.applied <= s.recorded && r.next <= |files|
    && (forall j | 0 <= j < r.next :: files[j] in s.recorded)
    && (r.phase.Done? ==> r.next == |files|)
  }

  ghost predicate Sound(files: seq<string>, s: State) {
    Distinct(s.bodies)
    && (forall v :: v in s.recorded <==> v in s.bodies)
    && (forall id | id in s.runners :: RunnerSound(files, s, s.runners[id]))
  }

  lemma StepKeeps(files: seq<string>, s: State, step: Step)
    requires Sound(files, s) && Enabled(files, s, step)
    ensures Sound(files, Next(files, s, step))
  {
    var t := Next(files, s, step);
    forall id | id in t.runners ensures RunnerSound(files, t, t.runners[id]) {
      if id in s.runners {
        assert RunnerSound(files, s, s.runners[id]);
      }
    }
  }

  lemma {:induction false} RunKeeps(files: seq<string>, s: State, steps: seq<Step>)
    requires Sound(files, s) && Legal(files, s, steps)
    ensures Sound(files, Run(files, s, steps))
    decreases |steps|
  {
    hide Sound, Next, Enabled;
    if steps != [] {
      StepKeeps(files, s, steps[0]);
      RunKeeps(files, Next(files, s, steps[0]), steps[1..]);
    }
  }

  /** No body commits twice, the recorded versions are exactly the committed bodies, and a runner
      that reports success leaves every file recorded - however many runners, however stale. */
  lemma CommitAtMostOnce(files: seq<string>, s: State, steps: seq<Step>)
    requires Quiet(s) && Legal(files, s, steps)
    ensures var t := Run(files, s, steps);
            Distinct(t.bodies) && (forall v :: v in t.recorded <==> v in t.bodies)
            && forall id | id in t.runners && t.runners[id].phase.Done? :: forall f | f in files :: f in t.recorded
  {
    RunKeeps(files, s, steps);
    var t := Run(files, s, steps);
    forall id, f | id in t.runners && t.runners[id].phase.Done? && f in files ensures f in t.recorded {
      assert RunnerSound(files, t, t.runners[id]);
      var j :| 0 <= j < |files| && files[j] == f;
    }
  }

  /** A runner that met a taken key or any other error has ended and does nothing more. */
  lemma {:induction false} FailedStays(files: seq<string>, s: State, steps: seq<Step>, id: int)
    requires Legal(files, s, steps) && id in s.runners && s.runners[id].phase.Failed?
    ensures var t := Run(files, s, steps); id in t.runners && t.runners[id] == s.runners[id]
    decreases |steps|
  {
    if steps != [] {
      var t := Next(files, s, steps[0]);
      assert id in t.runners && t.runners[id] == s.runners[id];
      hide Next, Enabled;
      FailedStays(files, t, steps[1..], id);
    }
  }

  /** An error ends the run that met it without success, wherever it happens in a schedule. */
  lemma {:induction false} ErrorEndsRun(files: seq<string>, s: State, steps: seq<Step>, i: nat)
    requires Legal(files, s, steps) && i < |steps| && (steps[i].Conflict? || steps[i].Fail?)
    ensures var t := Run(files, s, steps); steps[i].id in t.runners && t.runners[steps[i].id].phase.Failed?
    decreases |steps|
  {
    var t := Next(files, s, steps[0]);
    if i == 0 {
      FailedStays(files, t, steps[1..], steps[0].id);
    } else {
      hide Next, Enabled;
      ErrorEndsRun(files, t, steps[1..], i - 1);
    }
  }

  // ---- one runner while the others rest ----------------------------------------------

  /** An active runner always has exactly one way on, errors aside. */
  lemma OneWayOn(files: seq<string>, s: State, id: int)
    requires Sound(files, s) && Active(s, id)
    ensures Enabled(files, s, Finish(id)) <==> s.runners[id].next == |files|
    ensures s.runners[id].next < |files| ==>
              var version, seen := files[s.runners[id].next], s.runners[id].applied;
              (Enabled(files, s, Skip(id)) <==> version in seen)
              && (Enabled(files, s, Commit(id)) <==> version !in s.recorded)
              && (Enabled(files, s, Conflict(id)) <==> version in s.recorded - seen)
  {
    assert RunnerSound(files, s, s.runners[id]);
  }

  lemma {:induction false} MissingCons(f: string, files: seq<string>, applied: set<string>)
    ensures Missing([f] + files, applied) == (if f in applied then [] else [f]) + Missing(files, applied)
  {
    if files == [] {
      assert ([f] + files)[..0] == [] && [f] + files == [f];
    } else {
      var n := |files| - 1;
      MissingCons(f, files[..n], applied);
      assert ([f] + files)[..n + 1] == [f] + files[..n];
    }
  }

  /** Steps of one runner in which nothing fails by itself. */
  predicate OwnSteps(steps: seq<Step>, id: int) {
    forall i | 0 <= i < |steps| :: steps[i].id == id && !steps[i].Fail?
  }

  /** From `s` to `t` the runner has committed the files it did not see applied, in order, up to
      `files[k]`, where it ended: with success after the last file, else with an error at one that
      somebody else had recorded meanwhile. */
  ghost predicate GotTo(files: seq<string>, s: State, t: State, id: int, k: nat)
    requires id in s.runners
  {
    var r := s.runners[id];
    r.next <= k <= |files| && id in t.runners
    && t.bodies == s.bodies + Missing(files[r.next..k], r.applied)
    && (forall j | r.next <= j < k && files[j] !in r.applied :: files[j] !in s.recorded)
    && (if k == |files| then t.runners[id].phase.Done?
        else t.runners[id].phase.Failed? && files[k] in s.recorded - r.applied)
  }

  lemma OneStep(files: seq<string>, s: State, step: Step, rest: seq<Step>)
    requires Enabled(files, s, step) && Legal(files, Next(files, s, step), rest)
    ensures Legal(files, s, [step] + rest) && Run(files, s, [step] + rest) == Run(files, Next(files, s, step), rest)
  {
    hide Enabled, Next;
    assert ([step] + rest)[1..] == rest;
  }

  lemma LastStep(files: seq<string>, s: State, id: int) returns (step: Step)
    requires Sound(files, s) && Active(s, id)
    requires s.runners[id].next == |files| || files[s.runners[id].next] in s.recorded - s.runners[id].applied
    ensures Enabled(files, s, step) && step.id == id && !step.Fail?
    ensures GotTo(files, s, Next(files, s, step), id, s.runners[id].next)
  {
    OneWayOn(files, s, id);
    assert RunnerSound(files, s, s.runners[id]);
    step := if s.runners[id].next == |files| then Finish(id) else Conflict(id);
    assert files[s.runners[id].next..s.runners[id].next] == [];
    assert s.bodies + [] == s.bodies;
  }

  /** What the runner's next step does if it neither ends nor meets a taken key. */
  lemma MiddleStep(files: seq<string>, s: State, id: int) returns (step: Step)
    requires Distinct(files) && Sound(files, s) && Active(s, id)
    requires s.runners[id].next < |files| && files[s.runners[id].next] !in s.recorded - s.runners[id].applied
    ensures Enabled(files, s, step) && step.id == id && !step.Fail?
    ensures var r, t := s.runners[id], Next(files, s, step);
            var mine := if files[r.next] in r.applied then [] else [files[r.next]];
            Active(t, id) && t.runners[id].next == r.next + 1 && t.runners[id].applied == r.applied
            && t.bodies == s.bodies + mine
            && (forall v :: v in t.recorded <==> v in s.recorded || v in mine)
            && (mine != [] ==> files[r.next] !in s.recorded)
  {
    OneWayOn(files, s, id);
    var r := s.runners[id];
    assert RunnerSound(files, s, r);
    step := if files[r.next] in r.applied then Skip(id) else Commit(id);
    assert s.bodies + [] == s.bodies;
  }

  lemma GotFurther(files: seq<string>, s: State, t: State, end: State, id: int, k: nat)
    requires Distinct(files) && id in s.runners && id in t.runners && s.runners[id].next < |files|
    requires var r := s.runners[id];
             var mine := if files[r.next] in r.applied then [] else [files[r.next]];
             t.runners[id].next == r.next + 1 && t.runners[id].applied == r.applied
             && t.bodies == s.bodies + mine
             && (forall v :: v in t.recorded <==> v in s.recorded || v in mine)
             && (mine != [] ==> files[r.next] !in s.recorded)
    requires GotTo(files, t, end, id, k)
    ensures GotTo(files, s, end, id, k)
  {
    var r := s.runners[id];
    assert files[r.next..k] == [files[r.next]] + files[r.next + 1..k];
    MissingCons(files[r.next], files[r.next + 1..k], r.applied);
    hide Missing;
    var mine := if files[r.next] in r.applied then [] else [files[r.next]];
    Regrouped(s.bodies, mine, Missing(files[r.next + 1..k], r.applied));
    forall j | r.next + 1 <= j < |files| ensures files[j] in t.recorded <==> files[j] in s.recorded {
      assert files[j] != files[r.next];
    }
  }

  /** From any state that others have left a running runner gets through on its own steps. */
  lemma {:induction false} AloneGoesOn(files: seq<string>, s: State, id: int) returns (steps: seq<Step>, k: nat)
    requires Distinct(files) && Sound(files, s) && Active(s, id)
    ensures OwnSteps(steps, id) && Legal(files, s, steps) && GotTo(files, s, Run(files, s, steps), id, k)
    decreases |files| - s.runners[id].next
  {
    assert RunnerSound(files, s, s.runners[id]);
    hide Sound, Enabled, Next, GotTo, Distinct, RunnerSound;
    var next := s.runners[id].next;
    if next == |files| || files[next] in s.recorded - s.runners[id].applied {
      var step := LastStep(files, s, id);
      steps, k := [step] + [], next;
      OneStep(files, s, step, []);
    } else {
      var step := MiddleStep(files, s, id);
      var t := Next(files, s, step);
      StepKeeps(files, s, step);
      var rest;
      rest, k := AloneGoesOn(files, t, id);
      steps := [step] + rest;
      OneStep(files, s, step, rest);
      GotFurther(files, s, t, Run(files, t, rest), id, k);
    }
  }

  lemma Regrouped(xs: seq<string>, ys: seq<string>, zs: seq<string>)
    ensures xs + (ys + zs) == xs + ys + zs
  {
  }

  // ---- in order -------------------------------------------------------------------

  /** Of the files, exactly the first `k` are recorded. */
  predicate UpTo(files: seq<string>, recorded: set<string>, k: nat) {
    k <= |files| && forall i | 0 <= i < |files| :: files[i] in recorded <==> i < k
  }

  /** A version is recorded only if the ones before it are. */
  predicate DownwardClosed(files: seq<string>, recorded: set<string>) {
    forall i, j | 0 <= i < j < |files| && files[j] in recorded :: files[i] in recorded
  }

  lemma {:induction false} ClosedIsPrefix(files: seq<string>, recorded: set<string>) returns (k: nat)
    requires DownwardClosed(files, recorded)
    ensures UpTo(files, recorded, k)
  {
    k := 0;
    while k < |files| && files[k] in recorded
      invariant k <= |files| && forall i | 0 <= i < k :: files[i] in recorded
    {
      k := k + 1;
    }
  }

  /** The only file that can commit is the first one not recorded. */
  lemma CommitIsNext(files: seq<string>, s: State, k: nat, step: Step)
    requires Distinct(files) && Sound(files, s) && UpTo(files, s.recorded, k) && Enabled(files, s, step)
    ensures var t := Next(files, s, step);
            if step.Commit? then k < |files| && UpTo(files, t.recorded, k + 1) && t.bodies == s.bodies + [files[k]]
            else UpTo(files, t.recorded, k) && t.bodies == s.bodies
  {
    if step.Commit? {
      var r, t := s.runners[step.id], Next(files, s, step);
      assert RunnerSound(files, s, r);
      if r.next > 0 {
        assert files[r.next - 1] in s.recorded;
      }
      assert r.next == k;
      forall i | 0 <= i < |files| ensures files[i] in t.recorded <==> i < k + 1 {
        if i != k { assert files[i] != files[k]; }
      }
    }
  }

  lemma {:induction false} RunInOrder(files: seq<string>, s: State, k: nat, steps: seq<Step>) returns (m: nat)
    requires Distinct(files) && Sound(files, s) && UpTo(files, s.recorded, k) && Legal(files, s, steps)
    ensures var t := Run(files, s, steps);
            k <= m && UpTo(files, t.recorded, m) && t.bodies == s.bodies + files[k..m]
    decreases |steps|
  {
    if steps == [] {
      m := k;
      assert s.bodies + files[k..k] == s.bodies;
    } else {
      var t := Next(files, s, steps[0]);
      StepKeeps(files, s, steps[0]);
      CommitIsNext(files, s, k, steps[0]);
      hide Sound, Next, Enabled;
      if steps[0].Commit? {
        m := RunInOrder(files, t, k + 1, steps[1..]);
        assert files[k..m] == [files[k]] + files[k + 1..m];
        assert s.bodies + ([files[k]] + files[k + 1..m]) == s.bodies + [files[k]] + files[k + 1..m];
      } else {
        m := RunInOrder(files, t, k, steps[1..]);
      }
    }
  }

  /** From a database whose recorded files are downward closed, the bodies that any number of
      racing runners commit are exactly the following files, one after the other in file order, and
      the recorded files stay downward closed. */
  lemma CommitInOrder(files: seq<string>, s: State, steps: seq<Step>)
    requires Distinct(files) && Quiet(s) && DownwardClosed(files, s.recorded) && Legal(files, s, steps)
    ensures var t := Run(files, s, steps);
            DownwardClosed(files, t.recorded)
            && exists k, m :: 0 <= k <= m <= |files| && UpTo(files, s.recorded, k) && UpTo(files, t.recorded, m)
                              && t.bodies == s.bodies + files[k..m]
  {
    var k := ClosedIsPrefix(files, s.recorded);
    var m := RunInOrder(files, s, k, steps);
  }

  // ---- one runner, as the code runs it ------------------------------------------------

  class Database {
    var recorded: set<string>
    var bodies: seq<string>

    predicate Consistent()
      reads this
    {
      Distinct(bodies) && forall v | v in bodies :: v in recorded
    }

    /** One transaction: the body, the row, the commit. `bodyOk` and `commitOk` are the answers
        of the server where the version does not decide. */
    method ApplyMigration(version: string, bodyOk: bool, commitOk: bool) returns (ok: bool)
      requires Consistent()
      modifies this
      ensures Consistent()
      ensures ok <==> bodyOk && commitOk && version !in old(recorded)
      ensures recorded == if ok then old(recorded) + {version} else old(recorded)
      ensures bodies == if ok then old(bodies) + [version] else old(bodies)
    {
      if !bodyOk || version in recorded || !commitOk {
        return false;
      }
      bodies := bodies + [version];
      recorded := recorded + {version};
      return true;
    }

    /** Applies the files that were not applied at the start, in order; `works` is the server's
        answer for each body. Stops at the first error. */
    method Migrate(files: seq<string>, works: string -> bool) returns (ok: bool)
      requires Consistent() && Distinct(files)
      modifies this
      ensures Consistent()
      ensures ok <==> forall f | f in files && f !in old(recorded) :: works(f)
      ensures exists k :: 0 <= k <= |files| && bodies == old(bodies) + Missing(files[..k], old(recorded))
                && (ok ==> k == |files|)
                && (!ok ==> k < |files| && files[k] !in old(recorded) && !works(files[k]))
      ensures forall v :: v in recorded <==> v in old(recorded) || v in bodies[|old(bodies)|..]
    {
      var applied := recorded;
      ghost var before := bodies;
      ProgressStart(files, applied, before, works);
      for k := 0 to |files|
        invariant Consistent()
        invariant Progress(files, k, applied, before, works, recorded, bodies)
      {
        hide Consistent, Distinct, Progress;
        var version := files[k];
        ProgressStep(files, k, applied, before, works, recorded, bodies);
        if version in applied {
          continue;
        }
        var committed := ApplyMigration(version, works(version), true);
        if !committed {
          ProgressStops(files, k, applied, before, works, recorded, bodies);
          return false;
        }
      }
      ProgressEnds(files, applied, before, works, recorded, bodies);
      return true;
    }
  }

  /** The tables after the first `k` files, all of which worked if they were missing. */
  ghost predicate Progress(files: seq<string>, k: nat, applied: set<string>, before: seq<string>,
                           works: string -> bool, recorded: set<string>, bodies: seq<string>)
    requires k <= |files|
  {
    bodies == before + Missing(files[..k], applied)
    && (forall v :: v in recorded <==> v in applied || v in Missing(files[..k], applied))
    && forall i | 0 <= i < k && files[i] !in applied :: works(files[i])
  }

  lemma ProgressStart(files: seq<string>, applied: set<string>, before: seq<string>, works: string -> bool)
    ensures Progress(files, 0, applied, before, works, applied, before)
  {
    assert files[..0] == [] && before + [] == before;
  }

  lemma ProgressStep(files: seq<string>, k: nat, applied: set<string>, before: seq<string>,
                     works: string -> bool, recorded: set<string>, bodies: seq<string>)
    requires k < |files| && Distinct(files) && Progress(files, k, applied, before, works, recorded, bodies)
    ensures files[k] in applied ==> Progress(files, k + 1, applied, before, works, recorded, bodies)
    ensures files[k] !in applied ==> files[k] !in recorded
    ensures files[k] !in applied && works(files[k]) ==>
              Progress(files, k + 1, applied, before, works, recorded + {files[k]}, bodies + [files[k]])
  {
    MissingStep(files, k, applied);
    hide Missing, Distinct;
    var done := Missing(files[..k], applied);
    assert before + done + [files[k]] == before + (done + [files[k]]);
  }

  lemma ProgressIs(files: seq<string>, k: nat, applied: set<string>, before: seq<string>,
                   works: string -> bool, recorded: set<string>, bodies: seq<string>)
    requires k <= |files| && Progress(files, k, applied, before, works, recorded, bodies)
    ensures bodies == before + Missing(files[..k], applied) && |before| <= |bodies|
    ensures forall v :: v in recorded <==> v in applied || v in bodies[|before|..]
  {
    hide Missing;
    assert bodies[|before|..] == Missing(files[..k], applied);
  }

  lemma ProgressStops(files: seq<string>, k: nat, applied: set<string>, before: seq<string>,
                      works: string -> bool, recorded: set<string>, bodies: seq<string>)
    requires k < |files| && Progress(files, k, applied, before, works, recorded, bodies)
    requires files[k] !in applied && !works(files[k])
    ensures !forall f | f in files && f !in applied :: works(f)
    ensures exists i :: 0 <= i < |files| && bodies == before + Missing(files[..i], applied)
              && files[i] !in applied && !works(files[i])
    ensures |before| <= |bodies| && forall v :: v in recorded <==> v in applied || v in bodies[|before|..]
  {
    ProgressIs(files, k, applied, before, works, recorded, bodies);
    assert files[k] in files;
    hide Missing, Progress;
  }

  lemma ProgressEnds(files: seq<string>, applied: set<string>, before: seq<string>,
                     works: string -> bool, recorded: set<string>, bodies: seq<string>)
    requires Progress(files, |files|, applied, before, works, recorded, bodies)
    ensures forall f | f in files && f !in applied :: works(f)
    ensures bodies == before + Missing(files[..|files|], applied)
    ensures |before| <= |bodies| && forall v :: v in recorded <==> v in applied || v in bodies[|before|..]
  {
    ProgressIs(files, |files|, applied, before, works, recorded, bodies);
    hide Missing;
    forall f | f in files && f !in applied ensures works(f) {
      var i :| 0 <= i < |files| && files[i] == f;
    }
  }

  lemma MissingStep(files: seq<string>, k: nat, applied: set<string>)
    requires k < |files| && Distinct(files)
    ensures var done := Missing(files[..k], applied);
            Missing(files[..k + 1], applied) == (if files[k] in applied then done else done + [files[k]])
            && files[k] !in done
  {
    assert files[..k + 1] == files[..k] + [files[k]];
    MissingSnoc(files[..k], files[k], applied);
    MissingIn(files[..k], applied);
    hide Missing;
    assert Missing(files[..k], applied) + [] == Missing(files[..k], applied);
  }

  /** The files not yet applied, in order. */
  function Missing(files: seq<string>, applied: set<string>): seq<string> {
    if files == [] then []
    else Missing(files[..|files| - 1], applied)
         + if files[|files| - 1] in applied then [] else [files[|files| - 1]]
  }

  lemma MissingSnoc(files: seq<string>, f: string, applied: set<string>)
    ensures Missing(files + [f], applied) == Missing(files, applied) + if f in applied then [] else [f]
  {
    assert (files + [f])[..|files|] == files;
  }

  lemma {:induction false} MissingIn(files: seq<string>, applied: set<string>)
    ensures forall f :: f in Missing(files, applied) <==> f in files && f !in applied
  {
    if files != [] {
      MissingIn(files[..|files| - 1], applied);
      assert files == files[..|files| - 1] + [files[|files| - 1]];
    }
  }
}
