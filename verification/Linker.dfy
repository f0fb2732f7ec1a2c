// linker.rs: when `link_all` may keep the existing ELF, over runs of rebuilds, links and edits
// of the other files a link reads: libraries, linker scripts and objects named by its flags.
//
// A linker is any function that, from the objects, what they hold, the flags and what it has
// read so far, opens one more file or stops; an ELF is the record of that run, or what a
// linker killed in the middle has left. Two ELFs are equal exactly when every linker would
// have produced equal files.
module Linker {
  import opened Paths
  import opened Workspace

  /** What a link is given: the objects in order, what they hold, and the link flags. */
  datatype Request = Request(objects: seq<Name>, contents: seq<Artifact>, flags: seq<string>)

  type Driver = (Request, seq<Event>) -> Move

  datatype Elf = Elf(request: Request, log: seq<Event>) | Partial

  datatype State = State(tree: Tree, dir: Dir, elf: Option<File<Elf>>, clock: Time)

  predicate AllPresent(dir: Dir, inputs: seq<Name>) {
    forall i :: 0 <= i < |inputs| ==> inputs[i] in dir
  }

  predicate AllOlder(dir: Dir, inputs: seq<Name>, t: Time) {
    forall i :: 0 <= i < |inputs| ==> inputs[i] in dir && dir[inputs[i]].mtime < t
  }

  /** `elf_is_up_to_date`: every input exists and is strictly older than the ELF. */
  method ElfIsUpToDate(elf: Option<File<Elf>>, dir: Dir, inputs: seq<Name>) returns (r: bool)
    ensures r <==> elf.Some? && AllOlder(dir, inputs, elf.value.mtime)
  {
    if elf.None? { return false; }
    var i := 0;
    while i < |inputs|
      invariant 0 <= i <= |inputs|
      invariant AllOlder(dir, inputs[..i], elf.value.mtime)
    {
      if inputs[i] !in dir || dir[inputs[i]].mtime >= elf.value.mtime {
        return false;
      }
      assert inputs[..i + 1] == inputs[..i] + [inputs[i]];
      i := i + 1;
    }
    assert inputs[..|inputs|] == inputs;
    return true;
  }

  predicate Skips(st: State, objects: seq<Name>) {
    st.elf.Some? && AllOlder(st.dir, objects, st.elf.value.mtime)
  }

  /** What a link of the current objects is given. */
  function Ask(dir: Dir, objects: seq<Name>, flags: seq<string>): Request
    requires AllPresent(dir, objects)
  {
    Request(objects, seq(|objects|, i requires 0 <= i < |objects| => dir[objects[i]].content), flags)
  }

  /** `log` is all the linker reads besides the objects, whatever the files answered. */
  predicate Reads(link: Driver, r: Request, log: seq<Event>) {
    && (forall i :: 0 <= i < |log| ==> link(r, log[..i]) == Open(log[i].path))
    && link(r, log) == Stop
  }

  /** Linking the current objects now gives `e`. */
  predicate Gives(link: Driver, st: State, objects: seq<Name>, flags: seq<string>, e: Elf) {
    && e.Elf? && AllPresent(st.dir, objects) && e.request == Ask(st.dir, objects, flags)
    && Reads(link, e.request, e.log) && Replays(st.tree, e.log)
  }

  /** A link gives one ELF. */
  lemma LinkIsDeterministic(link: Driver, st: State, objects: seq<Name>, flags: seq<string>, a: Elf, b: Elf)
    requires Gives(link, st, objects, flags, a) && Gives(link, st, objects, flags, b)
    ensures a == b
  {
    var n := if |a.log| <= |b.log| then |a.log| else |b.log|;
    assert |a.log| < |b.log| ==> link(a.request, b.log[..n]) == Open(b.log[n].path);
    assert |b.log| < |a.log| ==> link(a.request, a.log[..n]) == Open(a.log[n].path);
    assert a.log[..|a.log|] == a.log && b.log[..|b.log|] == b.log;
    SameLogs(link, st, a.request, a.log, b.log, n);
  }

  lemma {:induction false} SameLogs(link: Driver, st: State, r: Request, a: seq<Event>, b: seq<Event>, n: nat)
    requires Reads(link, r, a) && Replays(st.tree, a) && Reads(link, r, b) && Replays(st.tree, b)
    requires n <= |a| && n <= |b|
    ensures a[..n] == b[..n]
  {
    if n > 0 {
      SameLogs(link, st, r, a, b, n - 1);
      assert a[n - 1] == b[n - 1];
      assert a[..n] == a[..n - 1] + [a[n - 1]] && b[..n] == b[..n - 1] + [b[n - 1]];
    }
  }

  /** What the linker does when it is run: it succeeds after reading `log`, or it fails with
      the old ELF kept or gone, or it is killed while it writes. */
  datatype Outcome = Linked(log: seq<Event>) | FailedKeeping | FailedRemoving | Killed

  predicate Links(link: Driver, st: State, objects: seq<Name>, flags: seq<string>, run: Outcome) {
    && run.Linked? && AllPresent(st.dir, objects)
    && Gives(link, st, objects, flags, Elf(Ask(st.dir, objects, flags), run.log))
  }

  function AfterLink(link: Driver, st: State, objects: seq<Name>, flags: seq<string>, run: Outcome): State {
    if Skips(st, objects) then st
    else if Links(link, st, objects, flags, run) then
      st.(elf := Some(File(Elf(Ask(st.dir, objects, flags), run.log), st.clock)))
    else if run.FailedRemoving? then st.(elf := None)
    else if run.Killed? then st.(elf := Some(File(Partial, st.clock)))
    else st
  }

  /** The skip decision of `link_all`; None when the linker fails, as it does on a missing
      object and may for any reason of its own. */
  method LinkAll(link: Driver, st: State, sketch: seq<Name>, core: seq<Name>, flags: seq<string>, run: Outcome)
    returns (st': State, elf: Option<Elf>)
    ensures st' == AfterLink(link, st, sketch + core, flags, run)
    ensures elf.Some? <==> Skips(st, sketch + core) || Links(link, st, sketch + core, flags, run)
    ensures elf.Some? ==> st'.elf.Some? && st'.elf.value.content == elf.value
    ensures elf.Some? && !Skips(st, sketch + core) ==> Gives(link, st, sketch + core, flags, elf.value)
  {
    var objects := sketch + core;
    if st.elf.Some? {
      var canSkip := ElfIsUpToDate(st.elf, st.dir, objects);
      if canSkip {
        return st, Some(st.elf.value.content);
      }
    }
    if !Links(link, st, objects, flags, run) {
      return if run.FailedRemoving? then st.(elf := None)
             else if run.Killed? then st.(elf := Some(File(Partial, st.clock))) else st, None;
    }
    var linked := Elf(Ask(st.dir, objects, flags), run.log);
    st' := st.(elf := Some(File(linked, st.clock)));
    elf := Some(linked);
  }

  // ----- runs -----------------------------------------------------------------

  datatype Step =
    | Rebuild(obj: Name, content: Artifact)       // the object takes the current time
    | Remove(obj: Name)
    | Edit(path: Path, text: string, mtime: Time) // any other file, at any time
    | Delete(path: Path)
    | Link(objects: seq<Name>, flags: seq<string>, run: Outcome)
    | Tick(later: nat)                            // zero: the clock need not advance

  function Apply(link: Driver, st: State, s: Step): State {
    match s
    case Rebuild(o, c) => st.(dir := st.dir[o := File(c, st.clock)])
    case Remove(o) => st.(dir := st.dir - {o})
    case Edit(p, text, m) => st.(tree := st.tree[p := File(text, m)])
    case Delete(p) => st.(tree := st.tree - {p})
    case Link(objects, flags, run) => AfterLink(link, st, objects, flags, run)
    case Tick(d) => st.(clock := st.clock + d)
  }

  predicate Unchanged(dir: Dir, r: Request, t: Time, i: nat)
    requires i < |r.objects| == |r.contents|
  {
    var n := r.objects[i];
    n in dir && dir[n].mtime < t ==> dir[n].content == r.contents[i]
  }

  /** A linked object older than the ELF still holds what was linked, the ELF records a real
      link, and nothing is dated after the clock. */
  predicate Inv(link: Driver, st: State) {
    && (forall n :: n in st.dir ==> st.dir[n].mtime <= st.clock)
    && (st.elf.Some? ==> st.elf.value.mtime <= st.clock)
    && (st.elf.Some? && st.elf.value.content.Elf? ==>
          var r := st.elf.value.content.request;
          && |r.contents| == |r.objects| && Reads(link, r, st.elf.value.content.log)
          && forall i :: 0 <= i < |r.objects| ==> Unchanged(st.dir, r, st.elf.value.mtime, i))
  }

  lemma StepKeepsInv(link: Driver, st: State, s: Step)
    requires Inv(link, st)
    ensures Inv(link, Apply(link, st, s))
  {
    var st' := Apply(link, st, s);
    if st'.elf.Some? && st'.elf.value.content.Elf? {
      var e := st'.elf.value;
      var r := e.content.request;
      assert |r.contents| == |r.objects|;
      forall i | 0 <= i < |r.objects|
        ensures Unchanged(st'.dir, r, e.mtime, i)
      {
        assert st'.elf == st.elf ==> Unchanged(st.dir, r, e.mtime, i);
      }
    }
  }

  ghost predicate Run(link: Driver, trail: seq<State>, steps: seq<Step>) {
    && |trail| == |steps| + 1 && trail[0].dir == map[] && trail[0].elf == None
    && forall i :: 0 <= i < |steps| ==> trail[i + 1] == Apply(link, trail[i], steps[i])
  }

  lemma {:induction false} RunKeepsInv(link: Driver, trail: seq<State>, steps: seq<Step>, k: nat)
    requires Run(link, trail, steps) && k < |trail|
    ensures Inv(link, trail[k])
  {
    if k > 0 {
      RunKeepsInv(link, trail, steps, k - 1);
      StepKeepsInv(link, trail[k - 1], steps[k - 1]);
    }
  }

  /** Link reuse over all runs: a skipped relink keeps the ELF that linking now would give, and
      no other, exactly when the ELF is whole, the object list and the flags are those of the
      link that made it, and every other file that link read still answers as it did. */
  lemma LinkReuse(link: Driver, trail: seq<State>, steps: seq<Step>, k: nat,
                  objects: seq<Name>, flags: seq<string>)
    requires Run(link, trail, steps) && k < |trail| && Skips(trail[k], objects)
    ensures AllPresent(trail[k].dir, objects)
    ensures var e := trail[k].elf.value.content;
            Gives(link, trail[k], objects, flags, e)
            <==> e.Elf? && e.request.objects == objects && e.request.flags == flags && Replays(trail[k].tree, e.log)
  {
    RunKeepsInv(link, trail, steps, k);
    var e := trail[k].elf.value.content;
    if e.Elf? && e.request.objects == objects && e.request.flags == flags {
      SameContents(trail[k].dir, e.request, trail[k].elf.value.mtime, flags);
    }
  }

  lemma SameContents(dir: Dir, r: Request, t: Time, flags: seq<string>)
    requires |r.contents| == |r.objects| && AllOlder(dir, r.objects, t) && r.flags == flags
    requires forall i :: 0 <= i < |r.objects| ==> Unchanged(dir, r, t, i)
    ensures AllPresent(dir, r.objects) && r == Ask(dir, r.objects, flags)
  {
    forall i | 0 <= i < |r.objects|
      ensures r.contents[i] == dir[r.objects[i]].content
    {
      assert Unchanged(dir, r, t, i);
    }
    assert r.contents == Ask(dir, r.objects, flags).contents;
  }

  /** Every link of a run names one list and one set of flags and none is killed. */
  ghost predicate Fixed(steps: seq<Step>, objects: seq<Name>, flags: seq<string>) {
    forall i :: 0 <= i < |steps| && steps[i].Link? ==>
      steps[i].objects == objects && steps[i].flags == flags && !steps[i].run.Killed?
  }

  /** The ELF of such a run is the one asked for. */
  lemma {:induction false} FixedIsAsked(link: Driver, trail: seq<State>, steps: seq<Step>, k: nat,
                                        objects: seq<Name>, flags: seq<string>)
    requires Run(link, trail, steps) && k < |trail| && Fixed(steps, objects, flags)
    ensures trail[k].elf.Some? ==>
              var e := trail[k].elf.value.content;
              e.Elf? && e.request.objects == objects && e.request.flags == flags
  {
    if k > 0 {
      FixedIsAsked(link, trail, steps, k - 1, objects, flags);
      assert steps[k - 1].Link? ==> steps[k - 1].objects == objects;
    }
  }

  /** In such a run a `link_all` that does not fail ends with the ELF that linking now gives
      exactly when no other file that ELF's link read has changed. */
  lemma FixedProjectLinksAlike(link: Driver, trail: seq<State>, steps: seq<Step>, k: nat,
                               objects: seq<Name>, flags: seq<string>, run: Outcome)
    requires Run(link, trail, steps) && k < |trail| && Fixed(steps, objects, flags)
    requires Skips(trail[k], objects) || Links(link, trail[k], objects, flags, run)
    ensures var after := AfterLink(link, trail[k], objects, flags, run);
            && after.elf.Some? && after.elf.value.content.Elf?
            && (Gives(link, trail[k], objects, flags, after.elf.value.content)
                <==> Replays(trail[k].tree, after.elf.value.content.log))
  {
    FixedIsAsked(link, trail, steps, k, objects, flags);
    if Skips(trail[k], objects) {
      LinkReuse(link, trail, steps, k, objects, flags);
    }
  }

  /** If no step touches another file either, it is that ELF. */
  lemma UntouchedProjectLinksAlike(link: Driver, trail: seq<State>, steps: seq<Step>, k: nat,
                                   objects: seq<Name>, flags: seq<string>, run: Outcome)
    requires Run(link, trail, steps) && k < |trail| && Fixed(steps, objects, flags)
    requires forall i :: 0 <= i < |steps| ==> !steps[i].Edit? && !steps[i].Delete?
    requires Skips(trail[k], objects) || Links(link, trail[k], objects, flags, run)
    ensures var after := AfterLink(link, trail[k], objects, flags, run);
            after.elf.Some? && Gives(link, trail[k], objects, flags, after.elf.value.content)
  {
    UntouchedReplays(link, trail, steps, k);
    FixedProjectLinksAlike(link, trail, steps, k, objects, flags, run);
  }

  lemma {:induction false} UntouchedReplays(link: Driver, trail: seq<State>, steps: seq<Step>, k: nat)
    requires Run(link, trail, steps) && k < |trail|
    requires forall i :: 0 <= i < |steps| ==> !steps[i].Edit? && !steps[i].Delete?
    ensures trail[k].elf.Some? && trail[k].elf.value.content.Elf? ==>
              Replays(trail[k].tree, trail[k].elf.value.content.log)
  {
    if k > 0 {
      UntouchedReplays(link, trail, steps, k - 1);
      assert !steps[k - 1].Edit? && !steps[k - 1].Delete?;
    }
  }

  /** One object overwritten at any time `m`, as a restored cache entry is: the decision to
      skip stays right exactly when the link never read it, it holds the same, or `m` is not
      before the ELF's time. */
  lemma OverwriteNoticedExactly(link: Driver, st: State, flags: seq<string>, n: Name, content: Artifact, m: Time)
    requires st.elf.Some? && st.elf.value.content.Elf? && Skips(st, st.elf.value.content.request.objects)
    requires Gives(link, st, st.elf.value.content.request.objects, flags, st.elf.value.content)
    ensures var e := st.elf.value;
            var objects := e.content.request.objects;
            var st' := st.(dir := st.dir[n := File(content, m)]);
            (Skips(st', objects) ==> Gives(link, st', objects, flags, e.content))
            <==> (n in objects ==> st.dir[n].content == content || m >= e.mtime)
  {
    var e := st.elf.value;
    var objects := e.content.request.objects;
    var st' := st.(dir := st.dir[n := File(content, m)]);
    assert AllPresent(st'.dir, objects);
    var now := Ask(st'.dir, objects, flags);
    if n in objects && st.dir[n].content != content {
      var i :| 0 <= i < |objects| && objects[i] == n;
      assert now.contents[i] == content != e.content.request.contents[i];
    } else {
      assert now.contents == e.content.request.contents;
    }
  }

  /** Another file edited at any time is never noticed: the decision to skip stays, and stays
      right exactly when the link never looked there or finds the same text. */
  lemma OtherFileGoesUnnoticed(link: Driver, st: State, flags: seq<string>, p: Path, text: string, m: Time)
    requires st.elf.Some? && st.elf.value.content.Elf?
    requires Gives(link, st, st.elf.value.content.request.objects, flags, st.elf.value.content)
    ensures var e := st.elf.value.content;
            var st' := st.(tree := st.tree[p := File(text, m)]);
            && Skips(st', e.request.objects) == Skips(st, e.request.objects)
            && (Gives(link, st', e.request.objects, flags, e)
                <==> forall i :: 0 <= i < |e.log| && e.log[i].path == p ==> e.log[i].found == Some(text))
  {
    var e := st.elf.value.content;
    var st' := st.(tree := st.tree[p := File(text, m)]);
    if i :| 0 <= i < |e.log| && e.log[i].path == p && e.log[i].found != Some(text) {
      assert e.log[i].found != Lookup(st'.tree, p);
    } else {
      forall i | 0 <= i < |e.log| ensures e.log[i].found == Lookup(st'.tree, e.log[i].path) {
        assert e.log[i].found == Lookup(st.tree, e.log[i].path);
      }
    }
  }

  // ----- at concrete runs -----------------------------------------------------

  const MAIN := Name("main.cpp", "o")
  const LIBRARY := "/lib/libm.a"
  const EMPTY := State(map[], map[], None, 0)

  /** A linker that reads one library. */
  function OneLibrary(r: Request, log: seq<Event>): Move { if log == [] then Open(LIBRARY) else Stop }

  lemma LinkOfMain(st: State, c: Artifact, flags: seq<string>)
    requires MAIN in st.dir && st.dir[MAIN].content == c && LIBRARY in st.tree
    ensures Ask(st.dir, [MAIN], flags) == Request([MAIN], [c], flags)
    ensures Gives(OneLibrary, st, [MAIN], flags,
                  Elf(Request([MAIN], [c], flags), [Event(LIBRARY, Some(st.tree[LIBRARY].content))]))
  {
    var log := [Event(LIBRARY, Some(st.tree[LIBRARY].content))];
    assert log[..0] == [];
    assert Ask(st.dir, [MAIN], flags).contents == [c];
  }

  /** A run up to a link of one object and one library, and the ELF of it. */
  lemma FirstLink(flags: seq<string>) returns (trail: seq<State>, steps: seq<Step>)
    ensures Run(OneLibrary, trail, steps) && trail != []
    ensures var st := trail[|trail| - 1];
            && LIBRARY in st.tree && st.clock == 1
            && Skips(st, [MAIN]) && st.elf.value.content.Elf?
            && Gives(OneLibrary, st, [MAIN], flags, st.elf.value.content)
            && st.elf.value.content.log == [Event(LIBRARY, Some("old"))]
  {
    var c := Blob("object");
    var s1 := EMPTY.(tree := map[LIBRARY := File("old", 0)]);
    var s2 := s1.(dir := map[MAIN := File(c, 0)]);
    var s3 := s2.(clock := 1);
    var run := Linked([Event(LIBRARY, Some("old"))]);
    LinkOfMain(s3, c, flags);
    var s4 := AfterLink(OneLibrary, s3, [MAIN], flags, run);
    trail := [EMPTY, s1, s2, s3, s4];
    steps := [Step.Edit(LIBRARY, "old", 0), Rebuild(MAIN, c), Tick(1), Link([MAIN], flags, run)];
    LinkOfMain(s4, c, flags);
  }

  lemma RunOnce(link: Driver, trail: seq<State>, steps: seq<Step>, s: Step)
    requires Run(link, trail, steps)
    ensures Run(link, trail + [Apply(link, trail[|steps|], s)], steps + [s])
  {
  }

  /** A changed library, changed flags and a killed linker: each a run after which the planner
      skips a link that would give another ELF. */
  lemma LibraryGoesUnnoticed(flags: seq<string>) returns (trail: seq<State>, steps: seq<Step>)
    ensures Run(OneLibrary, trail, steps) && trail != []
    ensures var st := trail[|trail| - 1];
            Skips(st, [MAIN]) && !Gives(OneLibrary, st, [MAIN], flags, st.elf.value.content)
  {
    trail, steps := FirstLink(flags);
    var st, s := trail[|trail| - 1], Step.Edit(LIBRARY, "new", 2);
    RunOnce(OneLibrary, trail, steps, s);
    OtherFileGoesUnnoticed(OneLibrary, st, flags, LIBRARY, "new", 2);
    var log := st.elf.value.content.log;
    assert log[0].path == LIBRARY && log[0].found == Some("old") && "new"[0] != "old"[0];
    trail, steps := trail + [Apply(OneLibrary, st, s)], steps + [s];
  }

  lemma FlagsGoUnnoticed() returns (trail: seq<State>, steps: seq<Step>)
    ensures Run(OneLibrary, trail, steps) && trail != []
    ensures var st := trail[|trail| - 1];
            Skips(st, [MAIN]) && !Gives(OneLibrary, st, [MAIN], ["-Os"], st.elf.value.content)
  {
    trail, steps := FirstLink([]);
  }

  lemma KilledLinkGoesUnnoticed(flags: seq<string>) returns (trail: seq<State>, steps: seq<Step>)
    ensures Run(OneLibrary, trail, steps) && trail != []
    ensures var st := trail[|trail| - 1];
            Skips(st, [MAIN]) && !Gives(OneLibrary, st, [MAIN], flags, st.elf.value.content)
  {
    var c := Blob("object");
    var s1 := EMPTY.(dir := map[MAIN := File(c, 0)]);
    var s2 := s1.(clock := 1);
    var s3 := s2.(elf := Some(File(Partial, 1)));
    trail := [EMPTY, s1, s2, s3];
    steps := [Rebuild(MAIN, c), Tick(1), Link([MAIN], flags, Killed)];
  }
}
