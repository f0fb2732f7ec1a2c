// Runs of a project that mix edits, compiles and cleans with storing to the core cache and
// hydrating from it (compiler.rs, parallel.rs, framework_core_cache.rs).
module CachedRuns {
  import opened Paths
  import W = Workspace
  import opened CoreCache

  /** The workspace, and the entries of the cache by key. */
  datatype State = State(world: W.World, cache: map<string, W.Dir>)

  datatype Step =
    | Local(step: W.Step)
    | StoreTo(key: string)
    | HydrateFrom(key: string, sources: seq<Path>, signature: Path -> string, now: W.Time)

  function Entry(st: State, key: string): W.Dir { if key in st.cache then st.cache[key] else map[] }

  function Apply(pr: W.Project, st: State, s: Step): State {
    match s
    case Local(step) => st.(world := W.Apply(pr, st.world, step))
    case StoreTo(key) => st.(cache := st.cache[key := Merge(st.world.dir, Entry(st, key), true, true)])
    case HydrateFrom(key, sources, signature, now) =>
      st.(world := st.world.(dir := Hydrated(pr, Entry(st, key), st.world.dir, sources, signature, now)))
  }

  /** An edit is later than every object, in the build directory or in an entry. A store or a
      hydrate sets no object beside another's dependency file; a hydrate is of sources
      whose signatures vouch for the objects it copies. */
  ghost predicate Enabled(pr: W.Project, st: State, s: Step) {
    match s
    case Local(step) =>
      && W.Enabled(pr, st.world, step)
      && (step.Edit? ==> forall key :: key in st.cache ==> W.Timely(st.cache[key], step.mtime))
    case StoreTo(key) => Pairs(pr, st.world.dir, Entry(st, key))
    case HydrateFrom(key, sources, signature, _) =>
      && (forall i :: 0 <= i < |sources| ==> sources[i] in pr.sources)
      && Pairs(pr, st.world.dir, Entry(st, key))
      && Vouched(pr, Entry(st, key), st.world.dir, sources, signature)
  }

  ghost predicate Inv(pr: W.Project, st: State) {
    W.Inv(pr, st.world) && forall key :: key in st.cache ==> AllRecorded(pr, st.world.tree, st.cache[key])
  }

  /** Edits that are late enough, and deletions, leave stored objects as recorded. */
  lemma TreeStepKeepsEntry(pr: W.Project, w: W.World, s: W.Step, entry: W.Dir)
    requires AllRecorded(pr, w.tree, entry) && (s.Edit? ==> W.Timely(entry, s.mtime))
    ensures AllRecorded(pr, W.Apply(pr, w, s).tree, entry)
  {
    forall n | n in entry && n.ext == "o"
      ensures W.Recorded(pr, W.Apply(pr, w, s).tree, entry, n)
    {
      assert W.Recorded(pr, w.tree, entry, n);
    }
  }

  /** What an edit between storing and hydrating may do: a stored object stays as recorded
      exactly when the edit leaves the text a compile read, or comes later than that object. */
  lemma EditSparesEntryExactly(pr: W.Project, w: W.World, entry: W.Dir, p: Path, text: string, m: W.Time)
    requires AllRecorded(pr, w.tree, entry)
    ensures AllRecorded(pr, W.Apply(pr, w, W.Edit(p, text, m)).tree, entry) <==>
            forall n, i :: n in entry && n.ext == "o" && 0 <= i < |entry[n].content.log|
                           && entry[n].content.log[i].path == p && entry[n].content.log[i].found.Some?
                           && m <= entry[n].mtime
                           ==> entry[n].content.log[i].found.value == text
  {
    hide W.DepfileText, W.Trace, W.Listable, W.FilesRead;
    var tree' := W.Apply(pr, w, W.Edit(p, text, m)).tree;
    forall n | n in entry && n.ext == "o"
      ensures W.Recorded(pr, tree', entry, n) <==>
              forall i :: 0 <= i < |entry[n].content.log| && entry[n].content.log[i].path == p
                          && entry[n].content.log[i].found.Some? && m <= entry[n].mtime
                          ==> entry[n].content.log[i].found.value == text
    {
      assert W.Recorded(pr, w.tree, entry, n);
    }
  }

  lemma EntryIsRecorded(pr: W.Project, st: State, key: string)
    requires Inv(pr, st)
    ensures AllRecorded(pr, st.world.tree, Entry(st, key))
  {
  }

  lemma StepKeepsInv(pr: W.Project, st: State, s: Step)
    requires W.WellNamed(pr) && Inv(pr, st) && Enabled(pr, st, s)
    ensures Inv(pr, Apply(pr, st, s))
  {
    match s
    case Local(step) =>
      W.StepKeepsInv(pr, st.world, step);
      forall key | key in st.cache
        ensures AllRecorded(pr, W.Apply(pr, st.world, step).tree, st.cache[key])
      {
        TreeStepKeepsEntry(pr, st.world, step, st.cache[key]);
      }
    case StoreTo(key) =>
      var dir := st.world.dir;
      EntryIsRecorded(pr, st, key);
      forall n | n in dir && n.ext == "o" ensures W.Recorded(pr, st.world.tree, dir, n) {
        assert W.Faithful(pr, st.world, n);
      }
      StoreExact(pr, st.world.tree, dir, Entry(st, key));
    case HydrateFrom(key, sources, signature, now) =>
      EntryIsRecorded(pr, st, key);
      SeparateSources(pr, sources);
      HydrateExact(pr, st.world, Entry(st, key), sources, signature, now);
  }

  /** `trail` is a run from an empty build directory and an empty cache. */
  ghost predicate Run(pr: W.Project, trail: seq<State>, steps: seq<Step>) {
    && |trail| == |steps| + 1
    && trail[0].world.dir == map[] && trail[0].cache == map[]
    && forall i :: 0 <= i < |steps| ==> Enabled(pr, trail[i], steps[i]) && trail[i + 1] == Apply(pr, trail[i], steps[i])
  }

  lemma {:induction false} RunKeepsInv(pr: W.Project, trail: seq<State>, steps: seq<Step>, k: nat)
    requires W.WellNamed(pr) && Run(pr, trail, steps) && k < |trail|
    ensures Inv(pr, trail[k])
  {
    if k > 0 {
      RunKeepsInv(pr, trail, steps, k - 1);
      StepKeepsInv(pr, trail[k - 1], steps[k - 1]);
    }
  }

  // ----- reuse ----------------------------------------------------------------

  /** The step creates a path that some compile missed whose object is still about, or takes
      a dependency file and leaves its object. */
  predicate Endangers(st: State, s: Step) {
    s.Local? &&
    (|| W.Shadows(st.world, s.step) || W.Orphans(st.world, s.step)
     || exists key :: key in st.cache && W.Shadows(st.world.(dir := st.cache[key]), s.step))
  }

  /** No path that was missed is there, and every object has its dependency file. */
  ghost predicate Whole(tree: W.Tree, dir: W.Dir) {
    W.NothingAppeared(W.World(tree, dir)) && W.Complete(dir)
  }

  ghost predicate AllWhole(st: State) {
    Whole(st.world.tree, st.world.dir) && forall key :: key in st.cache ==> Whole(st.world.tree, st.cache[key])
  }

  lemma MergeIsWhole(tree: W.Tree, top: W.Dir, bottom: W.Dir, merged: W.Dir)
    requires Whole(tree, top) && Whole(tree, bottom)
    requires forall n :: SameArtifact(n, merged, bottom + top)
    ensures Whole(tree, merged)
  {
    forall n | n in merged && n.ext == "o"
      ensures W.DepfileName(n) in merged
      ensures merged[n].content.Object? ==> W.StillMissing(tree, merged[n].content.log)
    {
      assert SameArtifact(n, merged, bottom + top) && SameArtifact(W.DepfileName(n), merged, bottom + top);
    }
  }

  /** A tree step that creates no path an object of `dir` missed. */
  lemma TreeStepKeepsWhole(pr: W.Project, w: W.World, s: W.Step, dir: W.Dir)
    requires Whole(w.tree, dir) && !W.Shadows(W.World(w.tree, dir), s)
    ensures Whole(W.Apply(pr, w, s).tree, dir)
  {
    var tree' := W.Apply(pr, w, s).tree;
    forall n | n in dir && n.ext == "o" && dir[n].content.Object?
      ensures W.StillMissing(tree', dir[n].content.log)
    {
      var log := dir[n].content.log;
      forall i | 0 <= i < |log| && log[i].found.None? ensures log[i].path !in tree' {
        assert log[i] == W.Event(log[i].path, None);
        assert W.MissedBy(dir[n].content, log[i].path);
      }
    }
  }

  lemma StepKeepsWhole(pr: W.Project, st: State, s: Step)
    requires W.WellNamed(pr) && Enabled(pr, st, s) && AllWhole(st) && !Endangers(st, s)
    ensures AllWhole(Apply(pr, st, s))
  {
    match s
    case Local(step) =>
      W.StepKeepsMissing(pr, st.world, step);
      W.StepKeepsComplete(pr, st.world, step);
      forall key | key in st.cache
        ensures Whole(W.Apply(pr, st.world, step).tree, st.cache[key])
      {
        TreeStepKeepsWhole(pr, st.world, step, st.cache[key]);
      }
    case StoreTo(key) =>
      var merged := Merge(st.world.dir, Entry(st, key), true, true);
      forall n ensures SameArtifact(n, merged, Entry(st, key) + st.world.dir) {
        StoreMerges(st.world.dir, Entry(st, key), n);
      }
      MergeIsWhole(st.world.tree, st.world.dir, Entry(st, key), merged);
    case HydrateFrom(key, sources, signature, now) =>
      var h := Hydrated(pr, Entry(st, key), st.world.dir, sources, signature, now);
      SeparateSources(pr, sources);
      forall n ensures SameArtifact(n, h, Entry(st, key) + st.world.dir) {
        HydrateMerges(pr, Entry(st, key), st.world.dir, sources, signature, now, n);
      }
      MergeIsWhole(st.world.tree, st.world.dir, Entry(st, key), h);
  }

  lemma {:induction false} RunKeepsWhole(pr: W.Project, trail: seq<State>, steps: seq<Step>, k: nat)
    requires W.WellNamed(pr) && Run(pr, trail, steps) && k < |trail|
    requires forall i :: 0 <= i < k ==> !Endangers(trail[i], steps[i])
    ensures AllWhole(trail[k])
  {
    if k > 0 {
      RunKeepsWhole(pr, trail, steps, k - 1);
      StepKeepsWhole(pr, trail[k - 1], steps[k - 1]);
    }
  }

  /** Incremental soundness with the cache: over every run of edits, compiles, cleans, stores
      and hydrates, whenever the planner reuses an object, copied or compiled, a compile with
      the current flags and files produces that object and no other. */
  lemma CachedSoundness(pr: W.Project, trail: seq<State>, steps: seq<Step>, k: nat, source: Path, signature: string)
    requires W.WellNamed(pr) && Run(pr, trail, steps) && k < |trail| && source in pr.sources
    requires forall i :: 0 <= i < k ==> !Endangers(trail[i], steps[i])
    requires !W.NeedsRebuild(pr, trail[k].world, source, W.ObjectName(pr, source), Some(signature))
    ensures var w := trail[k].world;
            forall log :: W.Compiles(pr.tools, signature, source, w.tree, log) <==>
              w.dir[W.ObjectName(pr, source)].content == W.Object(signature, source, log)
  {
    RunKeepsInv(pr, trail, steps, k);
    RunKeepsWhole(pr, trail, steps, k);
    W.ReuseIsRight(pr, trail[k].world, source, signature);
  }
}
