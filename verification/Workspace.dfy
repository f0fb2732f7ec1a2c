// The incremental rebuild check of compiler.rs over a workspace of timed files, and
// its soundness over every run of edits, deletions, compiles and cleans.
//
// A compiler is any function that, from the signature, the source and what it has read
// so far, opens one more path or stops; an object file is the record of that run. Two
// objects are equal exactly when every compiler would have produced the same bytes.
module Workspace {
  import opened Paths
  import opened Text
  import Depfile

  type Time = nat

  /** One lookup of a compile: the path and the text found there, if any. */
  datatype Event = Event(path: Path, found: Option<string>)

  datatype Move = Open(path: Path) | Stop

  datatype Artifact = Blob(text: string) | Object(signature: string, source: Path, log: seq<Event>)

  datatype File<C> = File(content: C, mtime: Time)

  /** A file of the build directory: everything but the extension, and the extension. */
  datatype Name = Name(stem: string, ext: string)

  type Tree = map<Path, File<string>>
  type Dir = map<Name, File<Artifact>>

  type Gap = g: seq<Depfile.Piece> | Depfile.IsGap(g) witness [Depfile.Blank]

  datatype Toolchain = Toolchain(
    next: (string, Path, seq<Event>) -> Move,  // what to open next
    gap: nat -> Gap,                           // how the n-th prerequisite is set off
    target: Path -> string)                    // how the object is named in the rule

  datatype Project = Project(
    tools: Toolchain,
    cwd: Option<Path>,       // the compile directory, if the build has one
    sources: set<Path>,
    stem: Path -> string)    // object file name of a source, without `.o`

  datatype World = World(tree: Tree, dir: Dir)

  function ObjectName(pr: Project, source: Path): Name { Name(pr.stem(source), "o") }
  function DepfileName(obj: Name): Name { Name(obj.stem, "d") }
  function StampName(obj: Name): Name { Name(obj.stem, "cmdhash") }

  // ----- the planner ----------------------------------------------------------

  /** Result of `dependency_is_newer_than_object`; None is an I/O error. */
  function NewerPrerequisite(deps: seq<Path>, tree: Tree, objectTime: Time, base: Option<Path>): Option<bool> {
    if deps == [] then Some(false)
    else
      var p := Resolve(deps[0], base);
      if p !in tree then None
      else if tree[p].mtime > objectTime then Some(true)
      else NewerPrerequisite(deps[1..], tree, objectTime, base)
  }

  /** The loop of `dependency_is_newer_than_object`. */
  method DependencyIsNewerThanObject(depfile: string, tree: Tree, objectTime: Time, base: Option<Path>)
    returns (r: Option<bool>)
    ensures r == NewerPrerequisite(Depfile.Parse(depfile), tree, objectTime, base)
  {
    var deps := Depfile.ParseDepfilePaths(depfile);
    var i := 0;
    while i < |deps|
      invariant 0 <= i <= |deps|
      invariant NewerPrerequisite(deps, tree, objectTime, base)
             == NewerPrerequisite(deps[i..], tree, objectTime, base)
    {
      var resolved := Resolve(deps[i], base);
      if resolved !in tree { return None; }
      if tree[resolved].mtime > objectTime { return Some(true); }
      i := i + 1;
    }
    return Some(false);
  }

  /** `read_to_string`: None if the file is missing or not text. */
  function ReadText(dir: Dir, name: Name): Option<string> {
    if name in dir && dir[name].content.Blob? then Some(dir[name].content.text) else None
  }

  /** `needs_rebuild_with_signature`. */
  predicate NeedsRebuild(pr: Project, w: World, source: Path, obj: Name, signature: Option<string>) {
    if obj !in w.dir then true
    else
      var objectTime := w.dir[obj].mtime;
      if signature.Some? && ReadText(w.dir, StampName(obj)) != signature then true
      else if DepfileName(obj) in w.dir then
        var text := ReadText(w.dir, DepfileName(obj));
        text.None? ||
        (var newer := NewerPrerequisite(Depfile.Parse(text.value), w.tree, objectTime, pr.cwd);
         newer.None? || newer.value)
      else
        (if source in w.tree then w.tree[source].mtime else 0) > objectTime
  }

  /** What makes any object stale, and what asking without a signature means: the stamp is not
      looked at, as if it were the one asked for. */
  lemma StaleWithout(pr: Project, w: World, source: Path, stem: string, signature: string, at: Time)
    ensures var o := Name(stem, "o");
            var stamped := w.dir[StampName(o) := File(Blob(signature), at)];
            && (o !in w.dir ==> NeedsRebuild(pr, w, source, o, None) && NeedsRebuild(pr, w, source, o, Some(signature)))
            && (ReadText(w.dir, StampName(o)) != Some(signature) ==> NeedsRebuild(pr, w, source, o, Some(signature)))
            && (DepfileName(o) in w.dir && !w.dir[DepfileName(o)].content.Blob? ==>
                  NeedsRebuild(pr, w, source, o, None))
            && (NeedsRebuild(pr, w, source, o, None)
                <==> NeedsRebuild(pr, w.(dir := stamped), source, o, Some(signature)))
  {
    hide NewerPrerequisite, Depfile.Parse;
    var o := Name(stem, "o");
    assert o != StampName(o) && DepfileName(o) != StampName(o);
  }

  /** Nothing is newer exactly when every prerequisite exists and is no newer. */
  lemma {:induction false} NoNewerPrerequisite(deps: seq<Path>, tree: Tree, t: Time, base: Option<Path>)
    ensures NewerPrerequisite(deps, tree, t, base) == Some(false)
            <==> forall i :: 0 <= i < |deps| ==>
                   Resolve(deps[i], base) in tree && tree[Resolve(deps[i], base)].mtime <= t
  {
    if deps != [] {
      NoNewerPrerequisite(deps[1..], tree, t, base);
      assert forall i :: 1 <= i < |deps| ==> deps[i] == deps[1..][i - 1];
    }
  }

  // ----- compiling ------------------------------------------------------------

  function Lookup(tree: Tree, p: Path): Option<string> {
    if p in tree then Some(tree[p].content) else None
  }

  /** `log` is a whole run of the compiler, whatever the files answered. */
  ghost predicate Trace(tools: Toolchain, signature: string, source: Path, log: seq<Event>) {
    && (forall i :: 0 <= i < |log| ==> tools.next(signature, source, log[..i]) == Open(log[i].path))
    && tools.next(signature, source, log) == Stop
  }

  /** The files answer every lookup of `log` as recorded. */
  predicate Replays(tree: Tree, log: seq<Event>) {
    forall i :: 0 <= i < |log| ==> log[i].found == Lookup(tree, log[i].path)
  }

  /** Compiling `source` now, with `signature`, produces the object that records `log`. */
  ghost predicate Compiles(tools: Toolchain, signature: string, source: Path, tree: Tree, log: seq<Event>) {
    Trace(tools, signature, source, log) && Replays(tree, log)
  }

  /** A compile has one outcome: two runs over the same files record the same log. */
  lemma CompileIsDeterministic(tools: Toolchain, signature: string, source: Path, tree: Tree,
                               a: seq<Event>, b: seq<Event>)
    requires Compiles(tools, signature, source, tree, a) && Compiles(tools, signature, source, tree, b)
    ensures a == b
  {
    assert |a| < |b| ==> tools.next(signature, source, b[..|a|]) == Open(b[|a|].path);
    assert |b| < |a| ==> tools.next(signature, source, a[..|b|]) == Open(a[|b|].path);
    assert a[..|a|] == a && b[..|b|] == b;
    CommonPrefix(tools, signature, source, tree, a, b, if |a| <= |b| then |a| else |b|);
  }

  lemma {:induction false} CommonPrefix(tools: Toolchain, signature: string, source: Path, tree: Tree,
                                        a: seq<Event>, b: seq<Event>, n: nat)
    requires Compiles(tools, signature, source, tree, a) && Compiles(tools, signature, source, tree, b)
    requires n <= |a| && n <= |b|
    ensures a[..n] == b[..n]
  {
    if n > 0 {
      CommonPrefix(tools, signature, source, tree, a, b, n - 1);
      assert a[n - 1] == b[n - 1];
      assert a[..n] == a[..n - 1] + [a[n - 1]] && b[..n] == b[..n - 1] + [b[n - 1]];
    }
  }

  /** The paths a compile read, in order: what `-MMD` lists. */
  function FilesRead(log: seq<Event>): seq<Path> {
    if log == [] then []
    else (if log[0].found.Some? then [log[0].path] else []) + FilesRead(log[1..])
  }

  lemma {:induction false} FilesReadAre(log: seq<Event>)
    ensures forall p :: p in FilesRead(log) <==> exists i :: 0 <= i < |log| && log[i].found.Some? && log[i].path == p
  {
    if log != [] {
      FilesReadAre(log[1..]);
      var rest := log[1..];
      forall p
        ensures p in FilesRead(log) <==> exists i :: 0 <= i < |log| && log[i].found.Some? && log[i].path == p
      {
        if j :| 0 <= j < |rest| && rest[j].found.Some? && rest[j].path == p {
          assert log[j + 1] == rest[j];
        }
        if i :| 0 <= i < |log| && log[i].found.Some? && log[i].path == p {
          assert i == 0 || rest[i - 1] == log[i];
        }
      }
    }
  }

  function Entries(pr: Project, files: seq<Path>): (r: seq<Depfile.Entry>)
    ensures |r| == |files|
    ensures forall i :: 0 <= i < |r| ==> r[i] == Depfile.Entry(pr.tools.gap(i), Argument(files[i], pr.cwd))
  {
    seq(|files|, i requires 0 <= i < |files| => Depfile.Entry(pr.tools.gap(i), Argument(files[i], pr.cwd)))
  }

  function DepfileText(pr: Project, source: Path, log: seq<Event>): string {
    Depfile.Print(pr.tools.target(source), Entries(pr, FilesRead(log)), Depfile.Lf)
  }

  /** A path that the dependency file can name and the planner can find again. */
  predicate Listable(p: Path, cwd: Option<Path>) {
    CanonicalFile(p, cwd) && Depfile.Plain(p) && p[|p| - 1] != '\\'
  }

  lemma ArgumentIsPlain(p: Path, cwd: Option<Path>)
    requires Listable(p, cwd)
    ensures var a := Argument(p, cwd);
            a != [] && Depfile.Plain(a) && a[|a| - 1] != '\\' && Resolve(a, cwd) == p
  {
    ResolveArgument(p, cwd);
    if cwd.Some? && Under(p, cwd.value) {
      var t := Tail(p, cwd.value);
      assert forall i :: 0 <= i < |t| ==> t[i] == p[i + |cwd.value| + 1];
    }
  }

  /** What the planner reads back from a compile's dependency file: the files read. */
  lemma DepfileListsFilesRead(pr: Project, source: Path, log: seq<Event>)
    requires NoWhitespace(pr.tools.target(source))
    requires forall p :: p in FilesRead(log) ==> Listable(p, pr.cwd)
    ensures var deps := Depfile.Parse(DepfileText(pr, source, log));
            && |deps| == |FilesRead(log)|
            && forall i :: 0 <= i < |deps| ==> Resolve(deps[i], pr.cwd) == FilesRead(log)[i]
  {
    hide Depfile.Parse, Depfile.Print, Depfile.Plain, FilesRead;
    var files := FilesRead(log);
    var entries := Entries(pr, files);
    forall i | 0 <= i < |files|
      ensures entries[i].path != [] && Depfile.Plain(entries[i].path)
      ensures entries[i].path[|entries[i].path| - 1] != '\\' && Resolve(entries[i].path, pr.cwd) == files[i]
    {
      ArgumentIsPlain(files[i], pr.cwd);
    }
    Depfile.RoundTrip(pr.tools.target(source), entries, Depfile.Lf);
  }

  // ----- runs -----------------------------------------------------------------

  datatype Step =
    | Edit(path: Path, text: string, mtime: Time)
    | Delete(path: Path)
    | Compile(source: Path, signature: string, log: seq<Event>, at: Time, depfileAt: Time, stampAt: Time)
    | Clean(names: set<Name>)

  function WithCompiled(pr: Project, dir: Dir, source: Path, signature: string, log: seq<Event>,
                        at: Time, depfileAt: Time, stampAt: Time): Dir
  {
    var o := ObjectName(pr, source);
    dir[o := File(Object(signature, source, log), at)]
       [DepfileName(o) := File(Blob(DepfileText(pr, source, log)), depfileAt)]
       [StampName(o) := File(Blob(signature), stampAt)]
  }

  function Apply(pr: Project, w: World, s: Step): World {
    match s
    case Edit(p, text, m) => w.(tree := w.tree[p := File(text, m)])
    case Delete(p) => w.(tree := w.tree - {p})
    case Compile(source, sig, log, at, dAt, sAt) =>
      w.(dir := WithCompiled(pr, w.dir, source, sig, log, at, dAt, sAt))
    case Clean(names) => w.(dir := w.dir - names)
  }

  /** An edit is timely when its time is strictly above that of every object. */
  predicate Timely(dir: Dir, mtime: Time) {
    forall n :: n in dir && n.ext == "o" ==> dir[n].mtime < mtime
  }

  /** A compile is a real run over the current files, at any clock time, and reads files a
      dependency file can name. A clean takes any files. */
  ghost predicate Enabled(pr: Project, w: World, s: Step) {
    match s
    case Edit(_, _, m) => Timely(w.dir, m)
    case Delete(_) => true
    case Compile(source, sig, log, at, _, _) =>
      && source in pr.sources && Compiles(pr.tools, sig, source, w.tree, log)
      && forall p :: p in FilesRead(log) ==> Listable(p, pr.cwd)
    case Clean(_) => true
  }

  /** What holds of an object wherever it lies: it records a real compile, its dependency
      file, if it is there, lists what that read, and no file has changed behind its time. */
  ghost predicate Recorded(pr: Project, tree: Tree, dir: Dir, n: Name)
    requires n in dir
  {
    var o := dir[n];
    && o.content.Object?
    && o.content.source in pr.sources && n == ObjectName(pr, o.content.source)
    && Trace(pr.tools, o.content.signature, o.content.source, o.content.log)
    && (DepfileName(n) in dir ==>
          dir[DepfileName(n)].content == Blob(DepfileText(pr, o.content.source, o.content.log)))
    && (forall p :: p in FilesRead(o.content.log) ==> Listable(p, pr.cwd))
    && NotOverwritten(tree, o.content.log, o.mtime)
  }

  /** What holds of an object in the build directory: its stamp, if it is there, is its own. */
  ghost predicate Faithful(pr: Project, w: World, n: Name)
    requires n in w.dir
  {
    && Recorded(pr, w.tree, w.dir, n)
    && (StampName(n) in w.dir ==> w.dir[StampName(n)].content == Blob(w.dir[n].content.signature))
  }

  /** A file read by the compile and no newer than the object still holds what was read. */
  predicate NotOverwritten(tree: Tree, log: seq<Event>, t: Time) {
    forall i :: 0 <= i < |log| && log[i].found.Some? && log[i].path in tree && tree[log[i].path].mtime <= t ==>
      tree[log[i].path].content == log[i].found.value
  }

  ghost predicate Inv(pr: Project, w: World) {
    forall n :: n in w.dir && n.ext == "o" ==> Faithful(pr, w, n)
  }

  /** Object names are apart and printable in a rule. */
  ghost predicate WellNamed(pr: Project) {
    && (forall a, b :: a in pr.sources && b in pr.sources && pr.stem(a) == pr.stem(b) ==> a == b)
    && (forall s :: s in pr.sources ==> NoWhitespace(pr.tools.target(s)))
  }

  lemma CompileKeepsInv(pr: Project, w: World, s: Step)
    requires WellNamed(pr) && Inv(pr, w) && Enabled(pr, w, s) && s.Compile?
    ensures Inv(pr, Apply(pr, w, s))
  {
    var w' := Apply(pr, w, s);
    var o := ObjectName(pr, s.source);
    forall n | n in w'.dir && n.ext == "o"
      ensures Faithful(pr, w', n)
    {
      if n == o {
        FilesReadAre(s.log);
      } else {
        assert n.stem != o.stem;
        assert Faithful(pr, w, n);
      }
    }
  }

  lemma StepKeepsInv(pr: Project, w: World, s: Step)
    requires WellNamed(pr) && Inv(pr, w) && Enabled(pr, w, s)
    ensures Inv(pr, Apply(pr, w, s))
  {
    if s.Compile? {
      CompileKeepsInv(pr, w, s);
    } else {
      var w' := Apply(pr, w, s);
      forall n | n in w'.dir && n.ext == "o"
        ensures Faithful(pr, w', n)
      {
        assert Faithful(pr, w, n);
      }
    }
  }

  /** `trail` is a run: its first world has no artifacts and each step was enabled. */
  ghost predicate Run(pr: Project, trail: seq<World>, steps: seq<Step>) {
    && |trail| == |steps| + 1
    && trail[0].dir == map[]
    && forall i :: 0 <= i < |steps| ==> Enabled(pr, trail[i], steps[i]) && trail[i + 1] == Apply(pr, trail[i], steps[i])
  }

  lemma {:induction false} RunKeepsInv(pr: Project, trail: seq<World>, steps: seq<Step>, k: nat)
    requires WellNamed(pr) && Run(pr, trail, steps) && k < |trail|
    ensures Inv(pr, trail[k])
  {
    if k > 0 {
      RunKeepsInv(pr, trail, steps, k - 1);
      StepKeepsInv(pr, trail[k - 1], steps[k - 1]);
    }
  }

  // ----- soundness ------------------------------------------------------------

  /** Paths a compile looked for and did not find are still missing. */
  predicate StillMissing(tree: Tree, log: seq<Event>) {
    forall i :: 0 <= i < |log| && log[i].found.None? ==> log[i].path !in tree
  }

  /** What a faithful object says to the planner. */
  lemma PlannerReads(pr: Project, w: World, source: Path, signature: string)
    requires WellNamed(pr) && source in pr.sources && ObjectName(pr, source) in w.dir
    requires Faithful(pr, w, ObjectName(pr, source))
    ensures var o := w.dir[ObjectName(pr, source)];
            && o.content.source == source
            && (!NeedsRebuild(pr, w, source, ObjectName(pr, source), Some(signature)) <==>
                  && ReadText(w.dir, StampName(ObjectName(pr, source))) == Some(signature)
                  && if DepfileName(ObjectName(pr, source)) in w.dir
                     then forall p :: p in FilesRead(o.content.log) ==> p in w.tree && w.tree[p].mtime <= o.mtime
                     else source in w.tree ==> w.tree[source].mtime <= o.mtime)
  {
    var n := ObjectName(pr, source);
    var o := w.dir[n];
    assert pr.stem(o.content.source) == pr.stem(source);
    DepfileListsFilesRead(pr, source, o.content.log);
    NoneNewer(Depfile.Parse(DepfileText(pr, source, o.content.log)), FilesRead(o.content.log), w.tree, o.mtime, pr.cwd);
  }

  /** Prerequisites that resolve to `files` are no newer exactly when the files are not. */
  lemma NoneNewer(deps: seq<Path>, files: seq<Path>, tree: Tree, t: Time, base: Option<Path>)
    requires |deps| == |files| && forall i :: 0 <= i < |deps| ==> Resolve(deps[i], base) == files[i]
    ensures NewerPrerequisite(deps, tree, t, base) == Some(false)
            <==> forall p :: p in files ==> p in tree && tree[p].mtime <= t
  {
    NoNewerPrerequisite(deps, tree, t, base);
    if p :| p in files && !(p in tree && tree[p].mtime <= t) {
      var i :| 0 <= i < |files| && files[i] == p;
      assert Resolve(deps[i], base) == p;
    }
  }

  /** Every file read is there, and one newer than the object has the text that was read. */
  predicate Undisturbed(tree: Tree, log: seq<Event>, t: Time) {
    forall i :: 0 <= i < |log| && log[i].found.Some? ==>
      log[i].path in tree && (tree[log[i].path].mtime > t ==> tree[log[i].path].content == log[i].found.value)
  }

  /** Reuse in one world: the object carries the signature asked for, and it is what a
      compile would produce now exactly when no path that was missing has appeared and,
      if its dependency file is gone, no file it read has gone or changed: without that file
      the planner looks at the source alone. */
  lemma ReuseExact(pr: Project, w: World, source: Path, signature: string)
    requires WellNamed(pr) && Inv(pr, w) && source in pr.sources
    requires !NeedsRebuild(pr, w, source, ObjectName(pr, source), Some(signature))
    ensures var o := w.dir[ObjectName(pr, source)].content;
            && o.Object? && o.signature == signature && o.source == source
            && (Compiles(pr.tools, signature, source, w.tree, o.log) <==>
                  && StillMissing(w.tree, o.log)
                  && (DepfileName(ObjectName(pr, source)) in w.dir
                      || Undisturbed(w.tree, o.log, w.dir[ObjectName(pr, source)].mtime)))
  {
    var n := ObjectName(pr, source);
    assert Faithful(pr, w, n);
    PlannerReads(pr, w, source, signature);
    var o := w.dir[n].content;
    FilesReadAre(o.log);
    if DepfileName(n) in w.dir {
      assert Undisturbed(w.tree, o.log, w.dir[n].mtime) by {
        forall i | 0 <= i < |o.log| && o.log[i].found.Some?
          ensures o.log[i].path in w.tree && w.tree[o.log[i].path].mtime <= w.dir[n].mtime
        {
          assert o.log[i].path in FilesRead(o.log);
        }
      }
    }
    ReplaysExactly(w.tree, o.log, w.dir[n].mtime);
  }

  lemma ReplaysExactly(tree: Tree, log: seq<Event>, t: Time)
    requires NotOverwritten(tree, log, t)
    ensures Replays(tree, log) <==> StillMissing(tree, log) && Undisturbed(tree, log, t)
  {
    if StillMissing(tree, log) && Undisturbed(tree, log, t) {
      forall i | 0 <= i < |log| ensures log[i].found == Lookup(tree, log[i].path) {
      }
    }
  }

  /** A step shadows when it creates a path that some recorded compile missed. */
  predicate Shadows(w: World, s: Step) {
    && s.Edit? && s.path !in w.tree
    && exists n :: n in w.dir && n.ext == "o" && MissedBy(w.dir[n].content, s.path)
  }

  predicate MissedBy(a: Artifact, p: Path) {
    a.Object? && exists i :: 0 <= i < |a.log| && a.log[i] == Event(p, None)
  }

  ghost predicate NothingAppeared(w: World) {
    forall n :: n in w.dir && n.ext == "o" && w.dir[n].content.Object? ==> StillMissing(w.tree, w.dir[n].content.log)
  }

  lemma StepKeepsMissing(pr: Project, w: World, s: Step)
    requires Enabled(pr, w, s) && NothingAppeared(w) && !Shadows(w, s)
    ensures NothingAppeared(Apply(pr, w, s))
  {
    var w' := Apply(pr, w, s);
    forall n | n in w'.dir && n.ext == "o" && w'.dir[n].content.Object?
      ensures StillMissing(w'.tree, w'.dir[n].content.log)
    {
      var log := w'.dir[n].content.log;
      if s.Compile? && n == ObjectName(pr, s.source) {
      } else {
        forall i | 0 <= i < |log| && log[i].found.None?
          ensures log[i].path !in w'.tree
        {
          assert log[i] == Event(log[i].path, None);
          assert MissedBy(w.dir[n].content, log[i].path);
        }
      }
    }
  }

  lemma {:induction false} RunKeepsMissing(pr: Project, trail: seq<World>, steps: seq<Step>, k: nat)
    requires Run(pr, trail, steps) && k < |trail|
    requires forall i :: 0 <= i < k ==> !Shadows(trail[i], steps[i])
    ensures NothingAppeared(trail[k])
  {
    if k > 0 {
      RunKeepsMissing(pr, trail, steps, k - 1);
      StepKeepsMissing(pr, trail[k - 1], steps[k - 1]);
    }
  }

  /** A clean orphans when it takes a dependency file and leaves its object. */
  predicate Orphans(w: World, s: Step) {
    s.Clean? && exists n :: n in w.dir && n.ext == "o" && n !in s.names && DepfileName(n) in s.names
  }

  ghost predicate Complete(dir: Dir) {
    forall n :: n in dir && n.ext == "o" ==> DepfileName(n) in dir
  }

  lemma StepKeepsComplete(pr: Project, w: World, s: Step)
    requires Complete(w.dir) && !Orphans(w, s)
    ensures Complete(Apply(pr, w, s).dir)
  {
  }

  lemma {:induction false} RunKeepsComplete(pr: Project, trail: seq<World>, steps: seq<Step>, k: nat)
    requires Run(pr, trail, steps) && k < |trail|
    requires forall i :: 0 <= i < k ==> !Orphans(trail[i], steps[i])
    ensures Complete(trail[k].dir)
  {
    if k > 0 {
      RunKeepsComplete(pr, trail, steps, k - 1);
      StepKeepsComplete(pr, trail[k - 1], steps[k - 1]);
    }
  }

  /** In a world where nothing has appeared and no dependency file is gone, the planner
      reuses an object only if a compile produces that object and no other. */
  lemma ReuseIsRight(pr: Project, w: World, source: Path, signature: string)
    requires WellNamed(pr) && Inv(pr, w) && NothingAppeared(w) && Complete(w.dir) && source in pr.sources
    requires !NeedsRebuild(pr, w, source, ObjectName(pr, source), Some(signature))
    ensures forall log :: Compiles(pr.tools, signature, source, w.tree, log) <==>
              w.dir[ObjectName(pr, source)].content == Object(signature, source, log)
  {
    ReuseExact(pr, w, source, signature);
    var o := w.dir[ObjectName(pr, source)].content;
    forall log | Compiles(pr.tools, signature, source, w.tree, log)
      ensures log == o.log
    {
      CompileIsDeterministic(pr.tools, signature, source, w.tree, log, o.log);
    }
  }

  /** Incremental soundness over all runs: whenever the planner reuses an object, a compile
      with the current flags and files produces that object and no other. The run creates no
      path some compile had missed, and takes no dependency file away from its object. */
  lemma IncrementalSoundness(pr: Project, trail: seq<World>, steps: seq<Step>, k: nat, source: Path, signature: string)
    requires WellNamed(pr) && Run(pr, trail, steps) && k < |trail| && source in pr.sources
    requires forall i :: 0 <= i < k ==> !Shadows(trail[i], steps[i]) && !Orphans(trail[i], steps[i])
    requires !NeedsRebuild(pr, trail[k], source, ObjectName(pr, source), Some(signature))
    ensures forall log :: Compiles(pr.tools, signature, source, trail[k].tree, log) <==>
              trail[k].dir[ObjectName(pr, source)].content == Object(signature, source, log)
  {
    RunKeepsInv(pr, trail, steps, k);
    RunKeepsMissing(pr, trail, steps, k);
    RunKeepsComplete(pr, trail, steps, k);
    ReuseIsRight(pr, trail[k], source, signature);
  }

  /** One edit, of any time, after an object was current: the reuse decision stays right
      exactly when the edit leaves the compile's reading alone, or touches a file it read
      with a time above the object's; without a dependency file, only the source counts.
      Equal times and newly appearing files go unnoticed. */
  lemma EditNoticedExactly(pr: Project, w: World, source: Path, signature: string, p: Path, text: string, m: Time)
    requires WellNamed(pr) && Inv(pr, w) && source in pr.sources
    requires !NeedsRebuild(pr, w, source, ObjectName(pr, source), Some(signature))
    requires Compiles(pr.tools, signature, source, w.tree, w.dir[ObjectName(pr, source)].content.log)
    ensures var o := w.dir[ObjectName(pr, source)];
            var w' := Apply(pr, w, Edit(p, text, m));
            (!NeedsRebuild(pr, w', source, ObjectName(pr, source), Some(signature)) ==>
               Compiles(pr.tools, signature, source, w'.tree, o.content.log))
            <==>
            ((exists e :: e in o.content.log && e.path == p) ==>
               || Lookup(w.tree, p) == Some(text)
               || (o.mtime < m && if DepfileName(ObjectName(pr, source)) in w.dir then p in w.tree else p == source))
  {
    var n := ObjectName(pr, source);
    var o := w.dir[n];
    hide NeedsRebuild, DepfileText;
    var w' := Apply(pr, w, Edit(p, text, m));
    var log := o.content.log;
    assert Faithful(pr, w, n);
    ReuseExact(pr, w, source, signature);
    FilesReadAre(log);
    PlannerReads(pr, w, source, signature);
    PlannerAfterEdit(pr, w, source, signature, p, text, m);
    if e :| e in log && e.path == p {
      var i :| 0 <= i < |log| && log[i] == e;
      assert log[i].found == Lookup(w.tree, p);
      assert p in FilesRead(log) <==> p in w.tree;
      if Lookup(w.tree, p) == Some(text) {
        assert Replays(w'.tree, log);
      }
    } else {
      forall i | 0 <= i < |log|
        ensures log[i].found == Lookup(w'.tree, log[i].path)
      {
        assert log[i] in log;
      }
    }
  }

  /** Editing a file changes the verdict exactly when it is now newer than the object and the
      compile read it or, without a dependency file, it is the source. */
  lemma PlannerAfterEdit(pr: Project, w: World, source: Path, signature: string, p: Path, text: string, m: Time)
    requires WellNamed(pr) && Inv(pr, w) && source in pr.sources
    requires !NeedsRebuild(pr, w, source, ObjectName(pr, source), Some(signature))
    ensures var o := w.dir[ObjectName(pr, source)];
            o.content.Object? &&
            (NeedsRebuild(pr, Apply(pr, w, Edit(p, text, m)), source, ObjectName(pr, source), Some(signature))
             <==> o.mtime < m && if DepfileName(ObjectName(pr, source)) in w.dir
                                 then p in FilesRead(o.content.log) else p == source)
  {
    var n := ObjectName(pr, source);
    var o := w.dir[n];
    assert Faithful(pr, w, n);
    PlannerReads(pr, w, source, signature);
    var w' := Apply(pr, w, Edit(p, text, m));
    DepfileListsFilesRead(pr, source, o.content.log);
    var deps := Depfile.Parse(DepfileText(pr, source, o.content.log));
    var files := FilesRead(o.content.log);
    NoneNewer(deps, files, w'.tree, o.mtime, pr.cwd);
  }

  /** Right after a compile the planner asks for it again exactly when the stamp differs from
      the signature it computes or a file that was read carries a time ahead of the clock. */
  lemma SettledAfterCompile(pr: Project, w: World, s: Step, signature: string)
    requires WellNamed(pr) && Inv(pr, w) && Enabled(pr, w, s) && s.Compile?
    ensures NeedsRebuild(pr, Apply(pr, w, s), s.source, ObjectName(pr, s.source), Some(signature))
            <==> s.signature != signature || exists p :: p in FilesRead(s.log) && p in w.tree && w.tree[p].mtime > s.at
  {
    var w' := Apply(pr, w, s);
    var n := ObjectName(pr, s.source);
    CompileKeepsInv(pr, w, s);
    assert Faithful(pr, w', n);
    PlannerReads(pr, w', s.source, signature);
    FilesReadAre(s.log);
  }

  // A compiler that reads its source, then looks for the header `/h`.
  const PROBE_GAP: Gap := [Depfile.Blank]
  const PROBE_LOG: seq<Event> := [Event("/c", Some("x")), Event("/h", None)]
  const PROBE_TREE: Tree := map["/c" := File("x", 1)]

  function ProbeNext(signature: string, source: Path, seen: seq<Event>): Move {
    if seen == [] then Open(source) else if |seen| == 1 then Open("/h") else Stop
  }

  function ProbeProject(): Project {
    Project(Toolchain(ProbeNext, n => PROBE_GAP, s => "o"), None, {"/c"}, s => "c")
  }

  lemma ProbeRuns(sig: string)
    ensures Compiles(ProbeProject().tools, sig, "/c", PROBE_TREE, PROBE_LOG)
    ensures WellNamed(ProbeProject()) && Inv(ProbeProject(), World(PROBE_TREE, map[]))
    ensures Listable("/h", None)
  {
    assert PROBE_LOG[..0] == [] && |PROBE_LOG[..1]| == 1;
    assert |"/c"| == 2 && "/c"[0] == '/' && "/c"[1] == 'c';
    assert |"/h"| == 2 && "/h"[0] == '/' && "/h"[1] == 'h';
  }

  /** A header that appears on the search path after the compile: an edit above every
      object's time, and still the planner keeps an object no compile would produce. */
  lemma NewHeaderGoesUnnoticed(sig: string)
    ensures var pr := ProbeProject();
            var compile := Compile("/c", sig, PROBE_LOG, 5, 5, 5);
            var edit := Edit("/h", "y", 9);
            var w := Apply(pr, World(PROBE_TREE, map[]), compile);
            var w' := Apply(pr, w, edit);
            && WellNamed(pr) && Inv(pr, World(PROBE_TREE, map[]))
            && Enabled(pr, World(PROBE_TREE, map[]), compile) && Enabled(pr, w, edit)
            && !NeedsRebuild(pr, w', "/c", ObjectName(pr, "/c"), Some(sig))
            && w'.dir[ObjectName(pr, "/c")].content == Object(sig, "/c", PROBE_LOG)
            && !Compiles(pr.tools, sig, "/c", w'.tree, PROBE_LOG)
  {
    hide NeedsRebuild, DepfileText, Inv, WellNamed;
    ProbeRuns(sig);
    var pr := ProbeProject();
    var w0 := World(PROBE_TREE, map[]);
    var compile := Compile("/c", sig, PROBE_LOG, 5, 5, 5);
    var w := Apply(pr, w0, compile);
    CompileKeepsInv(pr, w0, compile);
    SettledAfterCompile(pr, w0, compile, sig);
    FilesReadAre(PROBE_LOG);
    PlannerAfterEdit(pr, w, "/c", sig, "/h", "y", 9);
    var w' := Apply(pr, w, Edit("/h", "y", 9));
    assert PROBE_LOG[1].found != Lookup(w'.tree, PROBE_LOG[1].path);
  }

  const FULL_LOG: seq<Event> := [Event("/c", Some("x")), Event("/h", Some("y"))]
  const FULL_TREE: Tree := map["/c" := File("x", 1), "/h" := File("y", 1)]

  lemma FullProbeRuns(sig: string)
    ensures Compiles(ProbeProject().tools, sig, "/c", FULL_TREE, FULL_LOG)
    ensures Listable("/c", None) && Listable("/h", None)
    ensures forall p :: p in FilesRead(FULL_LOG) <==> p == "/c" || p == "/h"
  {
    assert FULL_LOG[..0] == [] && |FULL_LOG[..1]| == 1;
    assert |"/c"| == 2 && "/c"[0] == '/' && "/c"[1] == 'c';
    assert |"/h"| == 2 && "/h"[0] == '/' && "/h"[1] == 'h';
    FilesReadAre(FULL_LOG);
    assert FULL_LOG[0].path == "/c" && FULL_LOG[1].path == "/h";
  }

  /** A dependency file removed alone: a header edited afterwards, above every object's time,
      goes unnoticed, though no path has appeared. */
  lemma LostDepfileGoesUnnoticed(sig: string)
    ensures var pr, n := ProbeProject(), ObjectName(ProbeProject(), "/c");
            var w0 := World(FULL_TREE, map[]);
            var compile := Compile("/c", sig, FULL_LOG, 5, 5, 5);
            var w1 := Apply(pr, w0, compile);
            var clean := Clean({DepfileName(n)});
            var w2 := Apply(pr, w1, clean);
            var edit := Edit("/h", "z", 9);
            var w3 := Apply(pr, w2, edit);
            && WellNamed(pr) && Inv(pr, w0)
            && Enabled(pr, w0, compile) && Enabled(pr, w1, clean) && Enabled(pr, w2, edit)
            && !NeedsRebuild(pr, w3, "/c", n, Some(sig))
            && w3.dir[n].content == Object(sig, "/c", FULL_LOG) && StillMissing(w3.tree, FULL_LOG)
            && !Compiles(pr.tools, sig, "/c", w3.tree, FULL_LOG)
  {
    LonelySteps(sig);
    hide NeedsRebuild, DepfileText, Inv, Compiles, StillMissing, Enabled;
    LonelyObject(sig);
  }

  /** Compile, then take the dependency file away. */
  lemma LonelySteps(sig: string)
    ensures var pr, n := ProbeProject(), ObjectName(ProbeProject(), "/c");
            var w0 := World(FULL_TREE, map[]);
            var compile := Compile("/c", sig, FULL_LOG, 5, 5, 5);
            var w1 := Apply(pr, w0, compile);
            var clean := Clean({DepfileName(n)});
            && WellNamed(pr) && Inv(pr, w0)
            && Enabled(pr, w0, compile) && Enabled(pr, w1, clean)
            && Apply(pr, w1, clean) == World(FULL_TREE, LonelyDir(sig))
            && Enabled(pr, World(FULL_TREE, LonelyDir(sig)), Edit("/h", "z", 9))
  {
    FullProbeRuns(sig);
    ProbeRuns(sig);
    var pr, n := ProbeProject(), ObjectName(ProbeProject(), "/c");
    hide DepfileText, Compiles, Listable, FilesRead;
    var w1 := Apply(pr, World(FULL_TREE, map[]), Compile("/c", sig, FULL_LOG, 5, 5, 5));
    assert Apply(pr, w1, Clean({DepfileName(n)})).dir == LonelyDir(sig);
  }

  function LonelyDir(sig: string): Dir {
    var n := ObjectName(ProbeProject(), "/c");
    map[n := File(Object(sig, "/c", FULL_LOG), 5), StampName(n) := File(Blob(sig), 5)]
  }

  /** The same from the directory the clean leaves: object and stamp. */
  lemma LonelyObject(sig: string)
    ensures var pr, n := ProbeProject(), ObjectName(ProbeProject(), "/c");
            var w := Apply(pr, World(FULL_TREE, LonelyDir(sig)), Edit("/h", "z", 9));
            && !NeedsRebuild(pr, w, "/c", n, Some(sig)) && StillMissing(w.tree, FULL_LOG)
            && !Compiles(pr.tools, sig, "/c", w.tree, FULL_LOG)
  {
    var pr, n := ProbeProject(), ObjectName(ProbeProject(), "/c");
    var w := World(FULL_TREE, LonelyDir(sig));
    ProbeRuns(sig);
    FullProbeRuns(sig);
    assert Faithful(pr, w, n) && Inv(pr, w);
    hide NeedsRebuild, DepfileText, Inv, Faithful;
    PlannerReads(pr, w, "/c", sig);
    PlannerAfterEdit(pr, w, "/c", sig, "/h", "z", 9);
    var tree' := Apply(pr, w, Edit("/h", "z", 9)).tree;
    assert FULL_LOG[1].found != Lookup(tree', FULL_LOG[1].path);
  }
}
