// compile_sources_parallel of parallel.rs: the plan, the tasks gated by a semaphore, the
// abort on the first error and the drain, as a machine whose scheduler is arbitrary.
module Parallel {
  import opened Paths
  import opened Workspace
  import Text

  /** A build's fixed data: the signature the planner computes for a source, and the one a
      compile of it stamps. */
  datatype Setup = Setup(project: Project, plan: Path -> string, stamp: Path -> string)

  predicate Stale(st: Setup, w: World, source: Path) {
    NeedsRebuild(st.project, w, source, ObjectName(st.project, source), Some(st.plan(source)))
  }

  /** The sources to compile, in source order. */
  function WorkList(st: Setup, w: World, sources: seq<Path>): seq<Path> {
    if sources == [] then []
    else if Stale(st, w, sources[0]) then [sources[0]] + WorkList(st, w, sources[1..])
    else WorkList(st, w, sources[1..])
  }

  function Objects(pr: Project, sources: seq<Path>): (r: seq<Name>)
    ensures |r| == |sources|
  {
    seq(|sources|, i requires 0 <= i < |sources| => ObjectName(pr, sources[i]))
  }

  lemma {:induction false} WorkListAppend(st: Setup, w: World, a: seq<Path>, last: Path)
    ensures WorkList(st, w, a + [last]) ==
            if Stale(st, w, last) then WorkList(st, w, a) + [last] else WorkList(st, w, a)
  {
    if a == [] {
      assert a + [last] == [last] && [last][1..] == [];
    } else {
      assert (a + [last])[1..] == a[1..] + [last];
      WorkListAppend(st, w, a[1..], last);
    }
  }

  ghost predicate Planning(st: Setup, w: World, sources: seq<Path>, i: nat, work: seq<Path>, objects: seq<Name>) {
    i <= |sources| && work == WorkList(st, w, sources[..i]) && objects == Objects(st.project, sources[..i])
  }

  lemma PlanStart(st: Setup, w: World, sources: seq<Path>)
    ensures Planning(st, w, sources, 0, [], [])
  {
  }

  lemma PlanStep(st: Setup, w: World, sources: seq<Path>, i: nat, work: seq<Path>, objects: seq<Name>)
    requires i < |sources| && Planning(st, w, sources, i, work, objects)
    ensures var source, obj := sources[i], ObjectName(st.project, sources[i]);
            Planning(st, w, sources, i + 1,
                     if NeedsRebuild(st.project, w, source, obj, Some(st.plan(source))) then work + [source] else work,
                     objects + [obj])
  {
    hide WorkList, NeedsRebuild;
    assert sources[..i + 1] == sources[..i] + [sources[i]];
    WorkListAppend(st, w, sources[..i], sources[i]);
  }

  lemma PlanEnd(st: Setup, w: World, sources: seq<Path>, work: seq<Path>, objects: seq<Name>)
    requires Planning(st, w, sources, |sources|, work, objects)
    ensures work == WorkList(st, w, sources) && objects == Objects(st.project, sources)
  {
    assert sources[..|sources|] == sources;
  }

  /** The plan loop: what to compile, and every object in source order. */
  method PlanWork(st: Setup, w: World, sources: seq<Path>) returns (work: seq<Path>, objects: seq<Name>)
    ensures work == WorkList(st, w, sources)
    ensures objects == Objects(st.project, sources)
  {
    hide *;
    work, objects := [], [];
    PlanStart(st, w, sources);
    var i := 0;
    while i < |sources|
      invariant 0 <= i <= |sources|
      invariant Planning(st, w, sources, i, work, objects)
    {
      var source := sources[i];
      var obj := ObjectName(st.project, source);
      var signature := st.plan(source);
      PlanStep(st, w, sources, i, work, objects);
      if NeedsRebuild(st.project, w, source, obj, Some(signature)) {
        work := work + [source];
      }
      objects := objects + [obj];
      i := i + 1;
    }
    PlanEnd(st, w, sources, work, objects);
  }

  lemma {:induction false} WorkListMembers(st: Setup, w: World, sources: seq<Path>)
    ensures forall s :: s in WorkList(st, w, sources) <==> s in sources && Stale(st, w, s)
  {
    if sources != [] {
      WorkListMembers(st, w, sources[1..]);
      assert sources == [sources[0]] + sources[1..];
    }
  }

  // ----- the task machine -----------------------------------------------------

  /** How a task ends; a compiler that fails may remove the object it was to write. */
  datatype Outcome = Compiled(stderr: string) | Failed(message: string, removes: bool) | Panicked | Cancelled

  datatype Phase = Waiting | Running | Finished(outcome: Outcome) | Joined(outcome: Outcome)

  datatype Build = Build(
    phases: seq<Phase>,
    permits: int,
    error: Option<string>,
    warnings: seq<string>,
    dir: Dir)

  /** One task step. A successful compile writes object, dependency file and stamp. */
  datatype TaskStep =
    | Acquire(task: nat)
    | Finish(task: nat, outcome: Outcome, log: seq<Event>, at: Time, depfileAt: Time, stampAt: Time)
    | Cancel(task: nat)
    | Join(task: nat)

  function Parallelism(jobs: nat, total: nat): nat {
    var n := if jobs <= total then jobs else total;
    if n >= 1 then n else 1
  }

  function Start(work: seq<Path>, jobs: nat, dir: Dir): Build {
    Build(seq(|work|, i => Waiting), Parallelism(jobs, |work|), None, [], dir)
  }

  /** The error text a joined outcome contributes, if it is one. */
  function ErrorOf(o: Outcome): Option<string> {
    match o
    case Compiled(_) => None
    case Failed(m, _) => Some(m)
    case Panicked => Some("compile task panicked or was cancelled")
    case Cancelled => Some("compile task panicked or was cancelled")
  }

  function WarningOf(o: Outcome): seq<string> {
    if o.Compiled? && Text.Trim(o.stderr) != [] then [Text.Trim(o.stderr)] else []
  }

  function FirstError(error: Option<string>, o: Outcome): Option<string> {
    if error.Some? then error else ErrorOf(o)
  }

  /** The files after a task has ended. */
  function Ended(st: Setup, source: Path, dir: Dir, o: Outcome, log: seq<Event>,
                 at: Time, depfileAt: Time, stampAt: Time): Dir
  {
    if o.Compiled? then WithCompiled(st.project, dir, source, st.stamp(source), log, at, depfileAt, stampAt)
    else if o.Failed? && o.removes then dir - {ObjectName(st.project, source)}
    else dir
  }

  /** Tasks may be cancelled once an error is recorded; a running one may still finish. */
  ghost predicate CanStep(st: Setup, tree: Tree, work: seq<Path>, b: Build, s: TaskStep) {
    && s.task < |b.phases| == |work|
    && var phase := b.phases[s.task];
       match s
       case Acquire(_) => phase.Waiting? && b.permits > 0
       case Finish(i, o, log, _, _, _) =>
         && phase.Running? && !o.Cancelled?
         && (o.Compiled? ==> Compiles(st.project.tools, st.stamp(work[i]), work[i], tree, log))
       case Cancel(_) => b.error.Some? && (phase.Waiting? || phase.Running?)
       case Join(_) => phase.Finished?
  }

  function Next(st: Setup, work: seq<Path>, b: Build, s: TaskStep): Build
    requires s.task < |b.phases| == |work|
    requires s.Join? ==> b.phases[s.task].Finished?
  {
    match s
    case Acquire(i) => b.(phases := b.phases[i := Running], permits := b.permits - 1)
    case Finish(i, o, log, at, dAt, sAt) =>
      b.(phases := b.phases[i := Finished(o)], permits := b.permits + 1,
         dir := Ended(st, work[i], b.dir, o, log, at, dAt, sAt))
    case Cancel(i) =>
      b.(phases := b.phases[i := Finished(Cancelled)],
         permits := if b.phases[i].Running? then b.permits + 1 else b.permits)
    case Join(i) =>
      var o := b.phases[i].outcome;
      b.(phases := b.phases[i := Joined(o)],
         error := FirstError(b.error, o),
         warnings := b.warnings + WarningOf(o))
  }

  ghost predicate Interleaving(st: Setup, tree: Tree, work: seq<Path>, jobs: nat, dir: Dir,
                               trail: seq<Build>, steps: seq<TaskStep>)
  {
    && |trail| == |steps| + 1
    && trail[0] == Start(work, jobs, dir)
    && forall k :: 0 <= k < |steps| ==>
         CanStep(st, tree, work, trail[k], steps[k]) && trail[k + 1] == Next(st, work, trail[k], steps[k])
  }

  predicate Drained(b: Build) {
    forall i :: 0 <= i < |b.phases| ==> b.phases[i].Joined?
  }

  // ----- permits and termination ----------------------------------------------

  function Sum(phases: seq<Phase>, f: Phase -> nat): nat {
    if phases == [] then 0 else f(phases[0]) + Sum(phases[1..], f)
  }

  lemma {:induction false} SumUpdate(phases: seq<Phase>, i: nat, p: Phase, f: Phase -> nat)
    requires i < |phases|
    ensures Sum(phases[i := p], f) + f(phases[i]) == Sum(phases, f) + f(p)
  {
    if i == 0 {
      assert phases[0 := p][1..] == phases[1..];
    } else {
      assert phases[i := p][1..] == phases[1..][i - 1 := p];
      SumUpdate(phases[1..], i - 1, p, f);
    }
  }

  lemma {:induction false} SumOfWaiting(phases: seq<Phase>, f: Phase -> nat)
    requires forall i :: 0 <= i < |phases| ==> phases[i] == Waiting
    ensures Sum(phases, f) == |phases| * f(Waiting)
  {
    if phases != [] { SumOfWaiting(phases[1..], f); }
  }

  lemma {:induction false} SomeInSum(phases: seq<Phase>, f: Phase -> nat) returns (i: nat)
    requires Sum(phases, f) > 0
    ensures i < |phases| && f(phases[i]) > 0
  {
    if f(phases[0]) > 0 {
      i := 0;
    } else {
      var j := SomeInSum(phases[1..], f);
      i := j + 1;
    }
  }

  function Holds(p: Phase): nat { if p.Running? then 1 else 0 }

  function Rank(p: Phase): nat {
    match p case Waiting => 3 case Running => 2 case Finished(_) => 1 case Joined(_) => 0
  }

  /** A step moves no permit in or out, and lowers the rank of the whole by at least one. */
  lemma StepConserves(st: Setup, tree: Tree, work: seq<Path>, b: Build, s: TaskStep)
    requires CanStep(st, tree, work, b, s)
    ensures var b' := Next(st, work, b, s);
            && Sum(b'.phases, Holds) + b'.permits == Sum(b.phases, Holds) + b.permits
            && Sum(b'.phases, Rank) < Sum(b.phases, Rank)
  {
    var p := Next(st, work, b, s).phases[s.task];
    assert Next(st, work, b, s).phases == b.phases[s.task := p];
    SumUpdate(b.phases, s.task, p, Holds);
    SumUpdate(b.phases, s.task, p, Rank);
  }

  /** At every moment of every interleaving: running tasks and free permits add up to the
      parallelism, no permit is overdrawn, and the number of steps taken is bounded. */
  lemma {:induction false} PermitsAddUp(st: Setup, tree: Tree, work: seq<Path>, jobs: nat, dir: Dir,
                                        trail: seq<Build>, steps: seq<TaskStep>, k: nat)
    requires Interleaving(st, tree, work, jobs, dir, trail, steps) && k < |trail|
    ensures |trail[k].phases| == |work|
    ensures Sum(trail[k].phases, Holds) + trail[k].permits == Parallelism(jobs, |work|)
    ensures trail[k].permits >= 0
    ensures k + Sum(trail[k].phases, Rank) <= 3 * |work|
  {
    if k == 0 {
      SumOfWaiting(trail[0].phases, Holds);
      SumOfWaiting(trail[0].phases, Rank);
    } else {
      PermitsAddUp(st, tree, work, jobs, dir, trail, steps, k - 1);
      StepConserves(st, tree, work, trail[k - 1], steps[k - 1]);
    }
  }

  function RunningTasks(b: Build): set<nat> { set i | 0 <= i < |b.phases| && b.phases[i].Running? }

  lemma {:induction false} SumAtEnd(phases: seq<Phase>, last: Phase, f: Phase -> nat)
    ensures Sum(phases + [last], f) == Sum(phases, f) + f(last)
  {
    if phases == [] {
      assert phases + [last] == [last] && [last][1..] == phases;
    } else {
      assert (phases + [last])[1..] == phases[1..] + [last];
      SumAtEnd(phases[1..], last, f);
    }
  }

  lemma {:induction false} SumIsCount(phases: seq<Phase>)
    ensures Sum(phases, Holds) == |set i: nat | 0 <= i < |phases| && phases[i].Running?|
  {
    var tasks := set i: nat | 0 <= i < |phases| && phases[i].Running?;
    if phases == [] {
      assert tasks == {};
    } else {
      var n := |phases| - 1;
      var before := set i: nat | 0 <= i < n && phases[..n][i].Running?;
      SumIsCount(phases[..n]);
      SumAtEnd(phases[..n], phases[n], Holds);
      assert phases == phases[..n] + [phases[n]];
      assert tasks == before + (if phases[n].Running? then {n} else {});
    }
  }

  lemma {:induction false} WaitingIsNotRunning(phases: seq<Phase>, i: nat)
    requires i < |phases| && phases[i].Waiting?
    ensures Sum(phases, Holds) < |phases|
  {
    if i > 0 {
      WaitingIsNotRunning(phases[1..], i - 1);
    } else {
      AtMostAll(phases[1..]);
    }
  }

  lemma {:induction false} AtMostAll(phases: seq<Phase>)
    ensures Sum(phases, Holds) <= |phases|
  {
    if phases != [] { AtMostAll(phases[1..]); }
  }

  /** No more than `jobs` tasks run at once, or one if `jobs` is zero, and none waits longer
      than it must: a waiting task can be started exactly while fewer than that run. */
  lemma JobsBoundTasks(st: Setup, tree: Tree, work: seq<Path>, jobs: nat, dir: Dir,
                       trail: seq<Build>, steps: seq<TaskStep>, k: nat)
    requires Interleaving(st, tree, work, jobs, dir, trail, steps) && k < |trail|
    ensures |RunningTasks(trail[k])| <= if jobs >= 1 then jobs else 1
    ensures forall i: nat :: i < |work| && |trail[k].phases| == |work| && trail[k].phases[i].Waiting? ==>
              (CanStep(st, tree, work, trail[k], Acquire(i))
               <==> |RunningTasks(trail[k])| < if jobs >= 1 then jobs else 1)
  {
    PermitsAddUp(st, tree, work, jobs, dir, trail, steps, k);
    SumIsCount(trail[k].phases);
    assert RunningTasks(trail[k]) == set i: nat | 0 <= i < |trail[k].phases| && trail[k].phases[i].Running?;
    AtMostAll(trail[k].phases);
    forall i: nat | i < |work| && trail[k].phases[i].Waiting?
      ensures Sum(trail[k].phases, Holds) < |work|
    {
      WaitingIsNotRunning(trail[k].phases, i);
    }
  }

  /** While a task is not joined, some step can be taken. */
  lemma NeverStuck(st: Setup, tree: Tree, work: seq<Path>, jobs: nat, dir: Dir,
                   trail: seq<Build>, steps: seq<TaskStep>, k: nat) returns (s: TaskStep)
    requires Interleaving(st, tree, work, jobs, dir, trail, steps) && k < |trail|
    requires !Drained(trail[k])
    ensures CanStep(st, tree, work, trail[k], s)
  {
    PermitsAddUp(st, tree, work, jobs, dir, trail, steps, k);
    var b := trail[k];
    var i :| 0 <= i < |b.phases| && !b.phases[i].Joined?;
    match b.phases[i]
    case Finished(_) => s := Join(i);
    case Running => s := Finish(i, Failed("timed out", false), [], 0, 0, 0);
    case Waiting =>
      if b.permits > 0 {
        s := Acquire(i);
      } else {
        var j := SomeInSum(b.phases, Holds);
        s := Finish(j, Failed("timed out", false), [], 0, 0, 0);
      }
  }

  // ----- the verdict ----------------------------------------------------------

  predicate Done(p: Phase) { p.Finished? || p.Joined? }

  predicate Succeeded(p: Phase) { Done(p) && p.outcome.Compiled? }

  /** The task has written or removed files. */
  predicate Wrote(p: Phase) { Done(p) && (p.outcome.Compiled? || (p.outcome.Failed? && p.outcome.removes)) }

  predicate FailedAndJoined(p: Phase) { p.Joined? && !p.outcome.Compiled? }

  /** An error is on record exactly when a failed task has been joined, and only then are
      tasks cancelled. */
  predicate VerdictInv(b: Build) {
    && (b.error.Some? <==> exists i :: 0 <= i < |b.phases| && FailedAndJoined(b.phases[i]))
    && (forall i :: 0 <= i < |b.phases| && Done(b.phases[i]) && b.phases[i].outcome.Cancelled? ==> b.error.Some?)
  }

  lemma StepKeepsVerdict(st: Setup, tree: Tree, work: seq<Path>, b: Build, s: TaskStep)
    requires CanStep(st, tree, work, b, s) && VerdictInv(b)
    ensures VerdictInv(Next(st, work, b, s))
  {
    var b' := Next(st, work, b, s);
    assert forall i :: 0 <= i < |b.phases| && i != s.task ==> b'.phases[i] == b.phases[i];
    if j :| 0 <= j < |b.phases| && FailedAndJoined(b.phases[j]) {
      assert FailedAndJoined(b'.phases[j]);
    } else if s.Join? && !b.phases[s.task].outcome.Compiled? {
      assert FailedAndJoined(b'.phases[s.task]);
    }
  }

  lemma {:induction false} VerdictAlways(st: Setup, tree: Tree, work: seq<Path>, jobs: nat, dir: Dir,
                                         trail: seq<Build>, steps: seq<TaskStep>, k: nat)
    requires Interleaving(st, tree, work, jobs, dir, trail, steps) && k < |trail|
    ensures VerdictInv(trail[k])
  {
    if k > 0 {
      VerdictAlways(st, tree, work, jobs, dir, trail, steps, k - 1);
      StepKeepsVerdict(st, tree, work, trail[k - 1], steps[k - 1]);
    }
  }

  /** `Ok` is returned exactly when no task failed: every one compiled its source. */
  lemma OkExactlyWhenAllCompiled(st: Setup, tree: Tree, work: seq<Path>, jobs: nat, dir: Dir,
                                 trail: seq<Build>, steps: seq<TaskStep>)
    requires Interleaving(st, tree, work, jobs, dir, trail, steps) && Drained(trail[|steps|])
    ensures |trail[|steps|].phases| == |work|
    ensures trail[|steps|].error.None?
            <==> forall i :: 0 <= i < |work| ==> Succeeded(trail[|steps|].phases[i])
  {
    VerdictAlways(st, tree, work, jobs, dir, trail, steps, |steps|);
    PermitsAddUp(st, tree, work, jobs, dir, trail, steps, |steps|);
    var b := trail[|steps|];
    if i :| 0 <= i < |work| && !Succeeded(b.phases[i]) {
      assert FailedAndJoined(b.phases[i]);
    }
  }

  /** The error a build returns: the message of the failed task that was joined first. It is set
      when that task is joined and no later failure changes it. */
  lemma {:induction false} FirstErrorStays(st: Setup, tree: Tree, work: seq<Path>, jobs: nat, dir: Dir,
                                           trail: seq<Build>, steps: seq<TaskStep>, k: nat, l: nat)
    requires Interleaving(st, tree, work, jobs, dir, trail, steps) && k < l < |trail|
    requires steps[k].Join? && steps[k].task < |trail[k].phases|
    requires trail[k].error.None? && trail[k].phases[steps[k].task].Finished?
    ensures var o := trail[k].phases[steps[k].task].outcome;
            && (o.Failed? ==> trail[l].error == Some(o.message))
            && (o.Panicked? || o.Cancelled? ==> trail[l].error == Some("compile task panicked or was cancelled"))
    decreases l
  {
    assert CanStep(st, tree, work, trail[l - 1], steps[l - 1]);
    assert trail[l] == Next(st, work, trail[l - 1], steps[l - 1]);
    if k < l - 1 {
      FirstErrorStays(st, tree, work, jobs, dir, trail, steps, k, l - 1);
    }
  }

  function JoinedWarnings(phases: seq<Phase>): multiset<string> {
    if phases == [] then multiset{}
    else (if phases[0].Joined? then multiset(WarningOf(phases[0].outcome)) else multiset{})
         + JoinedWarnings(phases[1..])
  }

  lemma {:induction false} JoinAddsWarning(phases: seq<Phase>, i: nat, p: Phase)
    requires i < |phases| && !phases[i].Joined?
    ensures JoinedWarnings(phases[i := p]) ==
            JoinedWarnings(phases) + (if p.Joined? then multiset(WarningOf(p.outcome)) else multiset{})
  {
    if i == 0 {
      assert phases[0 := p][1..] == phases[1..];
    } else {
      assert phases[i := p][1..] == phases[1..][i - 1 := p];
      JoinAddsWarning(phases[1..], i - 1, p);
    }
  }

  lemma StepKeepsWarnings(st: Setup, tree: Tree, work: seq<Path>, b: Build, s: TaskStep)
    requires CanStep(st, tree, work, b, s) && multiset(b.warnings) == JoinedWarnings(b.phases)
    ensures multiset(Next(st, work, b, s).warnings) == JoinedWarnings(Next(st, work, b, s).phases)
  {
    var b' := Next(st, work, b, s);
    var p := b'.phases[s.task];
    assert b'.phases == b.phases[s.task := p];
    JoinAddsWarning(b.phases, s.task, p);
    if s.Join? {
      var extra := WarningOf(p.outcome);
      assert multiset(b.warnings + extra) == multiset(b.warnings) + multiset(extra);
    }
  }

  ghost predicate WarningsAgree(b: Build) { multiset(b.warnings) == JoinedWarnings(b.phases) }

  lemma StepTakenKeepsWarnings(st: Setup, tree: Tree, work: seq<Path>, jobs: nat, dir: Dir,
                               trail: seq<Build>, steps: seq<TaskStep>, k: nat)
    requires Interleaving(st, tree, work, jobs, dir, trail, steps) && 0 < k < |trail|
    requires WarningsAgree(trail[k - 1])
    ensures WarningsAgree(trail[k])
  {
    StepKeepsWarnings(st, tree, work, trail[k - 1], steps[k - 1]);
  }

  lemma NoWarningsAtStart(st: Setup, tree: Tree, work: seq<Path>, jobs: nat, dir: Dir,
                          trail: seq<Build>, steps: seq<TaskStep>)
    requires Interleaving(st, tree, work, jobs, dir, trail, steps)
    ensures |trail| > 0 && WarningsAgree(trail[0])
  {
    NoWarningsYet(trail[0].phases);
  }

  /** The collected warnings are those of the joined tasks, each once, in some order. */
  lemma {:induction false} WarningsAreConserved(st: Setup, tree: Tree, work: seq<Path>, jobs: nat, dir: Dir,
                                                trail: seq<Build>, steps: seq<TaskStep>, k: nat)
    requires Interleaving(st, tree, work, jobs, dir, trail, steps) && k < |trail|
    ensures WarningsAgree(trail[k])
  {
    hide *;
    if k == 0 {
      NoWarningsAtStart(st, tree, work, jobs, dir, trail, steps);
    } else {
      WarningsAreConserved(st, tree, work, jobs, dir, trail, steps, k - 1);
      StepTakenKeepsWarnings(st, tree, work, jobs, dir, trail, steps, k);
    }
  }

  lemma {:induction false} NoWarningsYet(phases: seq<Phase>)
    requires forall i :: 0 <= i < |phases| ==> phases[i] == Waiting
    ensures JoinedWarnings(phases) == multiset{}
  {
    if phases != [] { NoWarningsYet(phases[1..]); }
  }

  // ----- the drain loop -------------------------------------------------------

  function AllWarnings(outcomes: seq<Outcome>): seq<string> {
    if outcomes == [] then [] else AllWarnings(outcomes[..|outcomes| - 1]) + WarningOf(outcomes[|outcomes| - 1])
  }

  /** The state of the drain loop after `i` outcomes. */
  ghost predicate Draining(outcomes: seq<Outcome>, i: nat, warnings: seq<string>, firstError: Option<string>,
                           aborts: nat)
  {
    && i <= |outcomes| && warnings == AllWarnings(outcomes[..i])
    && (firstError.None? <==> forall j :: 0 <= j < i ==> outcomes[j].Compiled?)
    && (firstError.Some? ==> exists k :: 0 <= k < i && FirstFailure(outcomes, k, firstError))
    && aborts == if firstError.Some? then 1 else 0
  }

  ghost predicate FirstFailure(outcomes: seq<Outcome>, k: nat, error: Option<string>) {
    k < |outcomes| && ErrorOf(outcomes[k]) == error && forall j :: 0 <= j < k ==> outcomes[j].Compiled?
  }

  lemma DrainStep(outcomes: seq<Outcome>, i: nat, warnings: seq<string>, firstError: Option<string>, aborts: nat)
    requires Draining(outcomes, i, warnings, firstError, aborts) && i < |outcomes|
    ensures if outcomes[i].Compiled? then
              Draining(outcomes, i + 1, warnings + WarningOf(outcomes[i]), firstError, aborts)
            else if firstError.None? then Draining(outcomes, i + 1, warnings, ErrorOf(outcomes[i]), aborts + 1)
            else Draining(outcomes, i + 1, warnings, firstError, aborts)
  {
    assert outcomes[..i + 1][..i] == outcomes[..i];
    if !outcomes[i].Compiled? && firstError.None? {
      assert FirstFailure(outcomes, i, ErrorOf(outcomes[i]));
    }
  }

  /** The `join_next` loop over the outcomes in the order they are joined. */
  method Drain(outcomes: seq<Outcome>) returns (warnings: seq<string>, firstError: Option<string>, aborts: nat)
    ensures warnings == AllWarnings(outcomes)
    ensures firstError.None? <==> forall i :: 0 <= i < |outcomes| ==> outcomes[i].Compiled?
    ensures firstError.Some? ==> exists i :: 0 <= i < |outcomes| && FirstFailure(outcomes, i, firstError)
    ensures aborts == if firstError.Some? then 1 else 0
  {
    warnings, firstError, aborts := [], None, 0;
    DrainStart(outcomes);
    hide *;
    var i := 0;
    while i < |outcomes|
      invariant 0 <= i <= |outcomes|
      invariant Draining(outcomes, i, warnings, firstError, aborts)
    {
      DrainStep(outcomes, i, warnings, firstError, aborts);
      var stderr := WarningOf(outcomes[i]);
      if outcomes[i].Compiled? {
        warnings := warnings + stderr;
      } else if firstError.None? {
        firstError := ErrorOf(outcomes[i]);
        aborts := aborts + 1;
      }
      i := i + 1;
    }
    DrainEnd(outcomes, warnings, firstError, aborts);
  }

  lemma DrainStart(outcomes: seq<Outcome>)
    ensures Draining(outcomes, 0, [], None, 0)
  {
  }

  lemma DrainEnd(outcomes: seq<Outcome>, warnings: seq<string>, firstError: Option<string>, aborts: nat)
    requires Draining(outcomes, |outcomes|, warnings, firstError, aborts)
    ensures warnings == AllWarnings(outcomes)
    ensures firstError.None? <==> forall i :: 0 <= i < |outcomes| ==> outcomes[i].Compiled?
    ensures firstError.Some? ==> exists i :: 0 <= i < |outcomes| && FirstFailure(outcomes, i, firstError)
    ensures aborts == if firstError.Some? then 1 else 0
  {
    assert outcomes[..|outcomes|] == outcomes;
  }

  /** What the user is told: of the first task that failed its message, or that it panicked or
      was cancelled; and of each that compiled what it printed, trimmed, if that is not blank. */
  lemma WhatIsReported(outcomes: seq<Outcome>, k: nat, error: Option<string>, last: Outcome)
    requires FirstFailure(outcomes, k, error)
    ensures outcomes[k].Failed? ==> error == Some(outcomes[k].message)
    ensures outcomes[k].Panicked? || outcomes[k].Cancelled? ==>
              error == Some("compile task panicked or was cancelled")
    ensures AllWarnings(outcomes + [last])
         == AllWarnings(outcomes)
              + (if last.Compiled? && exists i :: 0 <= i < |last.stderr| && !Text.IsWhitespace(last.stderr[i])
                 then [Text.Trim(last.stderr)] else [])
  {
    assert (outcomes + [last])[..|outcomes|] == outcomes;
    if last.Compiled? { Text.TrimIsBlank(last.stderr); }
  }

  // ----- files ----------------------------------------------------------------

  ghost predicate Distinct(work: seq<Path>) {
    forall i, j :: 0 <= i < j < |work| ==> work[i] != work[j]
  }

  /** A task that has succeeded left exactly its three files, recorded from a real compile. */
  ghost predicate Output(st: Setup, tree: Tree, source: Path, dir: Dir) {
    var o := ObjectName(st.project, source);
    && o in dir && DepfileName(o) in dir && StampName(o) in dir
    && dir[o].content.Object?
    && Compiles(st.project.tools, st.stamp(source), source, tree, dir[o].content.log)
    && dir[o].content == Object(st.stamp(source), source, dir[o].content.log)
    && dir[DepfileName(o)].content == Blob(DepfileText(st.project, source, dir[o].content.log))
    && dir[StampName(o)].content == Blob(st.stamp(source))
  }

  /** A name belongs to a source when it is its object, dependency file or stamp. */
  predicate Owns(pr: Project, source: Path, n: Name) {
    n.stem == pr.stem(source) && n.ext in {"o", "d", "cmdhash"}
  }

  predicate SameEntry(n: Name, a: Dir, b: Dir) {
    (n in a <==> n in b) && (n in a ==> a[n] == b[n])
  }

  /** The files of a build in progress: outputs of the tasks that succeeded, else untouched. */
  ghost predicate FilesInv(st: Setup, tree: Tree, work: seq<Path>, dir0: Dir, b: Build) {
    && |b.phases| == |work|
    && (forall i :: 0 <= i < |work| && Succeeded(b.phases[i]) ==> Output(st, tree, work[i], b.dir))
    && (forall n :: (forall i :: 0 <= i < |work| && Wrote(b.phases[i]) ==> !Owns(st.project, work[i], n)) ==>
          SameEntry(n, dir0, b.dir))
  }

  /** A task writes or removes its own three files and nothing else. */
  lemma TaskWrites(st: Setup, tree: Tree, dir: Dir, source: Path, o: Outcome, log: seq<Event>,
                   at: Time, dAt: Time, sAt: Time)
    requires o.Compiled? ==> Compiles(st.project.tools, st.stamp(source), source, tree, log)
    ensures var dir' := Ended(st, source, dir, o, log, at, dAt, sAt);
            && (o.Compiled? ==> Output(st, tree, source, dir'))
            && forall n :: !Owns(st.project, source, n) ==> SameEntry(n, dir, dir')
  {
  }

  lemma OutputIsFramed(st: Setup, tree: Tree, source: Path, a: Dir, b: Dir)
    requires Output(st, tree, source, a)
    requires forall n :: Owns(st.project, source, n) ==> SameEntry(n, a, b)
    ensures Output(st, tree, source, b)
  {
    var o := ObjectName(st.project, source);
    assert SameEntry(o, a, b) && SameEntry(DepfileName(o), a, b) && SameEntry(StampName(o), a, b);
  }

  ghost predicate WorkOk(st: Setup, work: seq<Path>) {
    WellNamed(st.project) && Distinct(work) && forall i :: 0 <= i < |work| ==> work[i] in st.project.sources
  }

  lemma StemsApart(st: Setup, work: seq<Path>, i: nat, j: nat)
    requires WorkOk(st, work) && i < |work| && j < |work| && i != j
    ensures st.project.stem(work[i]) != st.project.stem(work[j])
  {
  }

  lemma StepKeepsFiles(st: Setup, tree: Tree, work: seq<Path>, dir0: Dir, b: Build, s: TaskStep)
    requires CanStep(st, tree, work, b, s) && FilesInv(st, tree, work, dir0, b) && WorkOk(st, work)
    ensures FilesInv(st, tree, work, dir0, Next(st, work, b, s))
  {
    var b' := Next(st, work, b, s);
    assert forall i :: 0 <= i < |work| && i != s.task ==> b'.phases[i] == b.phases[i];
    if s.Finish? {
      FinishKeepsFiles(st, tree, work, dir0, b, s);
    } else {
      assert forall i :: 0 <= i < |work| ==> (Succeeded(b'.phases[i]) <==> Succeeded(b.phases[i]));
      assert forall i :: 0 <= i < |work| ==> (Wrote(b'.phases[i]) <==> Wrote(b.phases[i]));
    }
  }

  lemma FinishKeepsFiles(st: Setup, tree: Tree, work: seq<Path>, dir0: Dir, b: Build, s: TaskStep)
    requires CanStep(st, tree, work, b, s) && FilesInv(st, tree, work, dir0, b) && WorkOk(st, work)
    requires s.Finish?
    ensures FilesInv(st, tree, work, dir0, Next(st, work, b, s))
  {
    var b' := Next(st, work, b, s);
    var source := work[s.task];
    TaskWrites(st, tree, b.dir, source, s.outcome, s.log, s.at, s.depfileAt, s.stampAt);
    hide Ended;
    assert forall i :: 0 <= i < |work| && i != s.task ==> b'.phases[i] == b.phases[i];
    forall i | 0 <= i < |work| && Succeeded(b'.phases[i])
      ensures Output(st, tree, work[i], b'.dir)
    {
      if i != s.task {
        StemsApart(st, work, i, s.task);
        OutputIsFramed(st, tree, work[i], b.dir, b'.dir);
      }
    }
    forall n | forall i :: 0 <= i < |work| && Wrote(b'.phases[i]) ==> !Owns(st.project, work[i], n)
      ensures SameEntry(n, dir0, b'.dir)
    {
      assert forall i :: 0 <= i < |work| && Wrote(b.phases[i]) ==> Wrote(b'.phases[i]);
      assert SameEntry(n, dir0, b.dir);
      if Wrote(b'.phases[s.task]) {
        assert !Owns(st.project, source, n);
      } else {
        NothingWritten(st, source, b.dir, s);
      }
    }
  }

  lemma NothingWritten(st: Setup, source: Path, dir: Dir, s: TaskStep)
    requires s.Finish? && !Wrote(Finished(s.outcome))
    ensures Ended(st, source, dir, s.outcome, s.log, s.at, s.depfileAt, s.stampAt) == dir
  {
  }

  lemma {:induction false} FilesAlways(st: Setup, tree: Tree, work: seq<Path>, jobs: nat, dir: Dir,
                                       trail: seq<Build>, steps: seq<TaskStep>, k: nat)
    requires Interleaving(st, tree, work, jobs, dir, trail, steps) && k < |trail|
    requires WorkOk(st, work)
    ensures FilesInv(st, tree, work, dir, trail[k])
  {
    if k > 0 {
      FilesAlways(st, tree, work, jobs, dir, trail, steps, k - 1);
      StepKeepsFiles(st, tree, work, dir, trail[k - 1], steps[k - 1]);
    }
  }

  // ----- the sequential build -------------------------------------------------

  /** One successful compile of `source`, recorded in `out`, takes directory `a` to `b`. */
  ghost predicate CompilesTo(st: Setup, tree: Tree, source: Path, out: TaskStep, a: Dir, b: Dir) {
    && out.Finish? && Compiles(st.project.tools, st.stamp(source), source, tree, out.log)
    && b == WithCompiled(st.project, a, source, st.stamp(source), out.log, out.at, out.depfileAt, out.stampAt)
  }

  /** Compiling the work list in order, one source at a time, every compile succeeding. */
  ghost predicate Sequential(st: Setup, tree: Tree, work: seq<Path>, dirs: seq<Dir>, outs: seq<TaskStep>) {
    && |dirs| == |work| + 1 && |outs| == |work|
    && forall i :: 0 <= i < |work| ==> CompilesTo(st, tree, work[i], outs[i], dirs[i], dirs[i + 1])
  }

  /** The sequential compile of `source` that leaves its files as they are in `final`. */
  function RecordOf(st: Setup, task: nat, source: Path, final: Dir): TaskStep {
    var o := ObjectName(st.project, source);
    if o in final && DepfileName(o) in final && StampName(o) in final && final[o].content.Object? then
      Finish(task, Compiled([]), final[o].content.log, final[o].mtime, final[DepfileName(o)].mtime,
             final[StampName(o)].mtime)
    else Cancel(task)
  }

  function Records(st: Setup, work: seq<Path>, final: Dir): (r: seq<TaskStep>)
    ensures |r| == |work|
    ensures forall i :: 0 <= i < |work| ==> r[i] == RecordOf(st, i, work[i], final)
  {
    seq(|work|, i requires 0 <= i < |work| => RecordOf(st, i, work[i], final))
  }

  function After(st: Setup, dir: Dir, source: Path, out: TaskStep): Dir {
    if out.Finish? then
      WithCompiled(st.project, dir, source, st.stamp(source), out.log, out.at, out.depfileAt, out.stampAt)
    else dir
  }

  /** Directory after directory, compiling in order. */
  function Unroll(st: Setup, work: seq<Path>, outs: seq<TaskStep>, dir: Dir): (dirs: seq<Dir>)
    requires |outs| == |work|
    ensures |dirs| == |work| + 1 && dirs[0] == dir
    ensures forall i :: 0 <= i < |work| ==> dirs[i + 1] == After(st, dirs[i], work[i], outs[i])
  {
    if work == [] then [dir]
    else
      var rest := Unroll(st, work[1..], outs[1..], After(st, dir, work[0], outs[0]));
      [dir] + rest
  }

  lemma RecordRestores(st: Setup, tree: Tree, task: nat, source: Path, final: Dir, dir: Dir)
    requires Output(st, tree, source, final)
    ensures var out := RecordOf(st, task, source, final);
            && CompilesTo(st, tree, source, out, dir, After(st, dir, source, out))
            && forall n :: SameEntry(n, if Owns(st.project, source, n) then final else dir, After(st, dir, source, out))
  {
  }

  /** Names settled after `k` compiles are as in `final`, the others as at the start. */
  ghost predicate Restored(st: Setup, work: seq<Path>, k: nat, dir0: Dir, dir: Dir, final: Dir)
    requires k <= |work|
  {
    && (forall n, i :: 0 <= i < k && Owns(st.project, work[i], n) ==> SameEntry(n, final, dir))
    && (forall n :: (forall i :: 0 <= i < k ==> !Owns(st.project, work[i], n)) ==> SameEntry(n, dir0, dir))
  }

  lemma RestoredStep(st: Setup, tree: Tree, work: seq<Path>, k: nat, dir0: Dir, dir: Dir, final: Dir)
    requires k < |work| && Restored(st, work, k, dir0, dir, final) && Output(st, tree, work[k], final)
    ensures Restored(st, work, k + 1, dir0, After(st, dir, work[k], RecordOf(st, k, work[k], final)), final)
  {
    hide Output, RecordOf, After;
    RecordRestores(st, tree, k, work[k], final, dir);
    var next := After(st, dir, work[k], RecordOf(st, k, work[k], final));
    forall n, i | 0 <= i < k + 1 && Owns(st.project, work[i], n) ensures SameEntry(n, final, next) {
      if !Owns(st.project, work[k], n) { assert SameEntry(n, dir, next) && SameEntry(n, final, dir); }
    }
    forall n | forall i :: 0 <= i < k + 1 ==> !Owns(st.project, work[i], n) ensures SameEntry(n, dir0, next) {
      assert !Owns(st.project, work[k], n);
      assert SameEntry(n, dir, next) && SameEntry(n, dir0, dir);
    }
  }

  lemma {:induction false} UnrollRestores(st: Setup, tree: Tree, work: seq<Path>, dir: Dir, final: Dir, k: nat)
    requires k <= |work| && forall i :: 0 <= i < |work| ==> Output(st, tree, work[i], final)
    ensures Restored(st, work, k, dir, Unroll(st, work, Records(st, work, final), dir)[k], final)
  {
    if k > 0 {
      var dirs := Unroll(st, work, Records(st, work, final), dir);
      UnrollRestores(st, tree, work, dir, final, k - 1);
      RestoredStep(st, tree, work, k - 1, dir, dirs[k - 1], final);
    }
  }

  lemma SameFiles(a: Dir, b: Dir)
    requires forall n :: SameEntry(n, a, b)
    ensures a == b
  {
    forall n ensures (n in a <==> n in b) && (n in a ==> a[n] == b[n]) {
      assert SameEntry(n, a, b);
    }
  }

  /** Every interleaving that returns `Ok` is some sequential build: the work list compiled
      in order from the same start, every compile succeeding, ends in the very same files. */
  lemma SomeSequentialBuild(st: Setup, tree: Tree, work: seq<Path>, jobs: nat, dir: Dir,
                            trail: seq<Build>, steps: seq<TaskStep>)
    returns (dirs: seq<Dir>, outs: seq<TaskStep>)
    requires Interleaving(st, tree, work, jobs, dir, trail, steps)
    requires Drained(trail[|steps|]) && trail[|steps|].error.None?
    requires WorkOk(st, work)
    ensures Sequential(st, tree, work, dirs, outs) && dirs[0] == dir && dirs[|work|] == trail[|steps|].dir
  {
    var b := trail[|steps|];
    FilesAlways(st, tree, work, jobs, dir, trail, steps, |steps|);
    OkExactlyWhenAllCompiled(st, tree, work, jobs, dir, trail, steps);
    outs := Records(st, work, b.dir);
    dirs := Unroll(st, work, outs, dir);
    forall i | 0 <= i < |work| ensures CompilesTo(st, tree, work[i], outs[i], dirs[i], dirs[i + 1]) {
      RecordRestores(st, tree, i, work[i], b.dir, dirs[i]);
    }
    UnrollRestores(st, tree, work, dir, b.dir, |work|);
    forall n ensures SameEntry(n, dirs[|work|], b.dir) {
      if i :| 0 <= i < |work| && Owns(st.project, work[i], n) {
        assert SameEntry(n, b.dir, dirs[|work|]);
      } else {
        assert SameEntry(n, dir, dirs[|work|]) && SameEntry(n, dir, b.dir);
      }
    }
    SameFiles(dirs[|work|], b.dir);
  }

  /** The same names with the same contents, at whatever times. */
  ghost predicate SameContents(a: Dir, b: Dir) {
    a.Keys == b.Keys && forall n :: n in a ==> a[n].content == b[n].content
  }

  lemma CompilesAlike(st: Setup, tree: Tree, source: Path, x: TaskStep, y: TaskStep, a: Dir, b: Dir, a': Dir, b': Dir)
    requires CompilesTo(st, tree, source, x, a, a') && CompilesTo(st, tree, source, y, b, b') && SameContents(a, b)
    ensures SameContents(a', b')
  {
    CompileIsDeterministic(st.project.tools, st.stamp(source), source, tree, x.log, y.log);
    hide DepfileText, Compiles;
  }

  /** Two sequential builds of one work list from one start agree all along. */
  lemma {:induction false} SequentialBuildsAgree(st: Setup, tree: Tree, work: seq<Path>,
                                                 dirs: seq<Dir>, outs: seq<TaskStep>,
                                                 dirs': seq<Dir>, outs': seq<TaskStep>, k: nat)
    requires Sequential(st, tree, work, dirs, outs) && Sequential(st, tree, work, dirs', outs')
    requires k <= |work| && dirs[0] == dirs'[0]
    ensures SameContents(dirs[k], dirs'[k])
  {
    if k > 0 {
      SequentialBuildsAgree(st, tree, work, dirs, outs, dirs', outs', k - 1);
      CompilesAlike(st, tree, work[k - 1], outs[k - 1], outs'[k - 1], dirs[k - 1], dirs'[k - 1], dirs[k], dirs'[k]);
    }
  }

  /** Whatever the interleaving, a build that returns `Ok` leaves the same files with the
      same contents as every way of compiling the work list in order. */
  lemma EveryInterleavingIsSequential(st: Setup, tree: Tree, work: seq<Path>, jobs: nat, dir: Dir,
                                      trail: seq<Build>, steps: seq<TaskStep>, dirs: seq<Dir>, outs: seq<TaskStep>)
    requires Interleaving(st, tree, work, jobs, dir, trail, steps)
    requires Drained(trail[|steps|]) && trail[|steps|].error.None?
    requires Sequential(st, tree, work, dirs, outs) && dirs[0] == dir
    requires WorkOk(st, work)
    ensures var final := trail[|steps|].dir;
            && final.Keys == dirs[|work|].Keys
            && forall n :: n in final ==> final[n].content == dirs[|work|][n].content
  {
    var dirs', outs' := SomeSequentialBuild(st, tree, work, jobs, dir, trail, steps);
    SequentialBuildsAgree(st, tree, work, dirs', outs', dirs, outs, |work|);
  }

  // ----- convergence and soundness under abort --------------------------------

  /** Dependency files can name what the compiles of the work list read. */
  ghost predicate ListableReads(st: Setup, tree: Tree, work: seq<Path>) {
    forall i, log :: 0 <= i < |work| && Compiles(st.project.tools, st.stamp(work[i]), work[i], tree, log) ==>
      forall p :: p in FilesRead(log) ==> Listable(p, st.project.cwd)
  }

  /** The step of a workspace run that a finished task is: a compile or the removal of its object. */
  function StepOf(st: Setup, work: seq<Path>, s: TaskStep): Step
    requires s.Finish? && s.task < |work|
  {
    if s.outcome.Compiled? then
      Compile(work[s.task], st.stamp(work[s.task]), s.log, s.at, s.depfileAt, s.stampAt)
    else Clean(if s.outcome.Failed? && s.outcome.removes then {ObjectName(st.project, work[s.task])} else {})
  }

  /** A task step leaves the files alone or is one step of a run: a parallel build is a stretch
      of compiles and removals, whatever the scheduler does. */
  lemma TaskStepIsCompile(st: Setup, tree: Tree, work: seq<Path>, b: Build, s: TaskStep)
    requires CanStep(st, tree, work, b, s) && ListableReads(st, tree, work)
    requires forall i :: 0 <= i < |work| ==> work[i] in st.project.sources
    ensures var w := World(tree, b.dir);
            var after := Next(st, work, b, s).dir;
            if s.Finish? then
              var c := StepOf(st, work, s);
              && (c.Compile? <==> s.outcome.Compiled?)
              && Enabled(st.project, w, c) && World(tree, after) == Apply(st.project, w, c)
            else after == b.dir
  {
  }

  /** At every moment, aborted or not, the workspace keeps the invariant that makes reuse sound. */
  lemma {:induction false} WorkspaceInvAlways(st: Setup, tree: Tree, work: seq<Path>, jobs: nat, dir: Dir,
                                              trail: seq<Build>, steps: seq<TaskStep>, k: nat)
    requires Interleaving(st, tree, work, jobs, dir, trail, steps) && k < |trail|
    requires WellNamed(st.project) && Inv(st.project, World(tree, dir)) && ListableReads(st, tree, work)
    requires forall i :: 0 <= i < |work| ==> work[i] in st.project.sources
    ensures Inv(st.project, World(tree, trail[k].dir))
  {
    if k > 0 {
      WorkspaceInvAlways(st, tree, work, jobs, dir, trail, steps, k - 1);
      var b, s := trail[k - 1], steps[k - 1];
      TaskStepIsCompile(st, tree, work, b, s);
      if s.Finish? {
        StepKeepsInv(st.project, World(tree, b.dir), StepOf(st, work, s));
      }
    }
  }

  /** A source's object is no older than anything its compile read. */
  ghost predicate NotOlder(st: Setup, tree: Tree, dir: Dir, source: Path) {
    var o := ObjectName(st.project, source);
    o in dir && dir[o].content.Object? &&
    forall p :: p in FilesRead(dir[o].content.log) && p in tree ==> tree[p].mtime <= dir[o].mtime
  }

  /** And it is stamped as the planner asks. */
  ghost predicate Settled(st: Setup, tree: Tree, dir: Dir, source: Path) {
    st.stamp(source) == st.plan(source) && NotOlder(st, tree, dir, source)
  }

  lemma UntouchedVerdict(st: Setup, tree: Tree, a: Dir, b: Dir, source: Path)
    requires forall n :: Owns(st.project, source, n) ==> SameEntry(n, a, b)
    ensures Stale(st, World(tree, a), source) <==> Stale(st, World(tree, b), source)
  {
    var o := ObjectName(st.project, source);
    assert Owns(st.project, source, o);
    assert Owns(st.project, source, DepfileName(o)) && Owns(st.project, source, StampName(o));
  }

  lemma CompiledVerdict(st: Setup, tree: Tree, dir: Dir, source: Path)
    requires WellNamed(st.project) && Inv(st.project, World(tree, dir)) && source in st.project.sources
    requires Output(st, tree, source, dir)
    ensures Stale(st, World(tree, dir), source) <==> !Settled(st, tree, dir, source)
  {
    var o := ObjectName(st.project, source);
    assert Faithful(st.project, World(tree, dir), o);
    PlannerReads(st.project, World(tree, dir), source, st.plan(source));
    FilesReadAre(dir[o].content.log);
  }

  /** After `Ok`, a source is stale again only if it was compiled and is not settled. */
  lemma VerdictAfterBuild(st: Setup, tree: Tree, work: seq<Path>, dir: Dir, b: Build, source: Path)
    requires WorkOk(st, work) && Inv(st.project, World(tree, b.dir)) && source in st.project.sources
    requires FilesInv(st, tree, work, dir, b) && forall i :: 0 <= i < |work| ==> Succeeded(b.phases[i])
    requires Stale(st, World(tree, dir), source) <==> source in work
    ensures Stale(st, World(tree, b.dir), source) <==> source in work && !Settled(st, tree, b.dir, source)
  {
    if i :| 0 <= i < |work| && work[i] == source {
      CompiledVerdict(st, tree, b.dir, source);
    } else {
      forall n | Owns(st.project, source, n)
        ensures SameEntry(n, dir, b.dir)
      {
        assert forall i :: 0 <= i < |work| ==> st.project.stem(work[i]) != st.project.stem(source);
      }
      UntouchedVerdict(st, tree, dir, b.dir, source);
    }
  }

  /** Convergence: after `Ok`, with nothing changed, the next plan is empty exactly when every
      compiled source is stamped as planned and read no file dated after its own object. */
  lemma Convergence(st: Setup, tree: Tree, sources: seq<Path>, work: seq<Path>, jobs: nat, dir: Dir,
                    trail: seq<Build>, steps: seq<TaskStep>)
    requires WorkOk(st, work) && Inv(st.project, World(tree, dir)) && ListableReads(st, tree, work)
    requires forall s :: s in sources ==> s in st.project.sources
    requires work == WorkList(st, World(tree, dir), sources)
    requires Interleaving(st, tree, work, jobs, dir, trail, steps)
    requires Drained(trail[|steps|]) && trail[|steps|].error.None?
    ensures var final := trail[|steps|].dir;
            WorkList(st, World(tree, final), sources) == []
            <==> forall i :: 0 <= i < |work| ==> Settled(st, tree, final, work[i])
  {
    hide Inv, Stale, Settled, FilesInv;
    var b := trail[|steps|];
    FilesAlways(st, tree, work, jobs, dir, trail, steps, |steps|);
    OkExactlyWhenAllCompiled(st, tree, work, jobs, dir, trail, steps);
    WorkspaceInvAlways(st, tree, work, jobs, dir, trail, steps, |steps|);
    WorkListMembers(st, World(tree, dir), sources);
    WorkListMembers(st, World(tree, b.dir), sources);
    forall s | s in sources
      ensures Stale(st, World(tree, b.dir), s) <==> s in work && !Settled(st, tree, b.dir, s)
    {
      VerdictAfterBuild(st, tree, work, dir, b, s);
    }
    EmptyExactly(WorkList(st, World(tree, b.dir), sources));
    if s :| s in work && !Settled(st, tree, b.dir, s) {
      assert s in WorkList(st, World(tree, b.dir), sources);
    } else {
      assert forall i :: 0 <= i < |work| ==> work[i] in work;
    }
  }

  lemma EmptyExactly(list: seq<Path>)
    ensures list == [] <==> forall s :: s !in list
  {
    assert list != [] ==> list[0] in list;
  }
}
