// Parallel builds under the signatures of compiler.rs: the one the planner computes and the
// one a compile stamps.
module SignedBuilds {
  import opened Paths
  import opened Workspace
  import opened Parallel
  import Flags
  import Signature
  import Utf8

  /** A build as compiler.rs signs it: `digest` is the hash, `pre` the platform's pre-flags. */
  function SetupOf(project: Project, compiler: Signature.Compiler, extra: Flags.LanguageExtraFlags, pre: seq<string>,
                   normalize: string -> string, digest: seq<Utf8.Byte> -> string): Setup
  {
    Setup(project,
          source => digest(Signature.PlannedBytes(compiler, source, pre, Flags.ForSource(extra, source), normalize)),
          source => digest(Signature.StampedBytes(compiler, source, pre, Flags.ForSource(extra, source), normalize)))
  }

  /** The stamp a compile writes is the signature the planner computes. */
  lemma StampIsPlan(project: Project, compiler: Signature.Compiler, extra: Flags.LanguageExtraFlags, pre: seq<string>,
                    normalize: string -> string, digest: seq<Utf8.Byte> -> string, source: Path)
    ensures var st := SetupOf(project, compiler, extra, pre, normalize, digest);
            st.stamp(source) == st.plan(source)
  {
    Signature.StampedIsPlanned(compiler, source, pre, Flags.ForSource(extra, source), normalize);
  }

  /** Convergence with real signatures: after `Ok`, with nothing changed, the next plan is
      empty exactly when no compiled source read a file dated after its own object. */
  lemma BuildConverges(project: Project, compiler: Signature.Compiler, extra: Flags.LanguageExtraFlags,
                       pre: seq<string>, normalize: string -> string, digest: seq<Utf8.Byte> -> string,
                       tree: Tree, sources: seq<Path>, work: seq<Path>, jobs: nat, dir: Dir,
                       trail: seq<Build>, steps: seq<TaskStep>)
    requires var st := SetupOf(project, compiler, extra, pre, normalize, digest);
             && WorkOk(st, work) && Inv(project, World(tree, dir)) && ListableReads(st, tree, work)
             && (forall s :: s in sources ==> s in project.sources)
             && work == WorkList(st, World(tree, dir), sources)
             && Interleaving(st, tree, work, jobs, dir, trail, steps)
             && Drained(trail[|steps|]) && trail[|steps|].error.None?
    ensures var st := SetupOf(project, compiler, extra, pre, normalize, digest);
            var final := trail[|steps|].dir;
            WorkList(st, World(tree, final), sources) == []
            <==> forall i :: 0 <= i < |work| ==> NotOlder(st, tree, final, work[i])
  {
    var st := SetupOf(project, compiler, extra, pre, normalize, digest);
    Convergence(st, tree, sources, work, jobs, dir, trail, steps);
    forall i | 0 <= i < |work|
      ensures Settled(st, tree, trail[|steps|].dir, work[i]) <==> NotOlder(st, tree, trail[|steps|].dir, work[i])
    {
      StampIsPlan(project, compiler, extra, pre, normalize, digest, work[i]);
    }
  }
}
