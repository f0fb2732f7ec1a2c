// POSIX paths as strings, and the compile-directory relativisation of
// fbuild-core's path.rs that compiler.rs and framework_core_cache.rs rely on.
module Paths {

  type Path = string

  datatype Option<+T> = None | Some(value: T)

  predicate IsAbsolute(p: Path) {
    p != [] && p[0] == '/'
  }

  /** `p` lies strictly below the directory `dir`. */
  predicate Under(p: Path, dir: Path) {
    |p| > |dir| && dir <= p && p[|dir|] == '/'
  }

  function Tail(p: Path, dir: Path): Path
    requires Under(p, dir)
  {
    p[|dir| + 1..]
  }

  /** `path_arg_for_compile_cwd`, for paths that are already lexically canonical. */
  function PathArg(p: Path, cwd: Path): Path {
    var relative :=
      if !IsAbsolute(p) then p
      else if p == cwd then []
      else if Under(p, cwd) then Tail(p, cwd)
      else p;
    if relative == [] then "." else relative
  }

  /** The name gcc is given for `p`: relative to the compile directory if there is one. */
  function Argument(p: Path, cwd: Option<Path>): Path {
    if cwd.Some? then PathArg(p, cwd.value) else p
  }

  /** How the planner resolves a name found in a dependency file. */
  function Resolve(p: Path, base: Option<Path>): Path {
    if base.Some? && !IsAbsolute(p) then base.value + "/" + p else p
  }

  /** A file path in canonical form: absolute, no empty component, not the directory itself. */
  predicate CanonicalFile(p: Path, cwd: Option<Path>) {
    && IsAbsolute(p)
    && (forall i :: 0 <= i < |p| - 1 ==> !(p[i] == '/' && p[i + 1] == '/'))
    && p[|p| - 1] != '/'
    && (cwd.Some? ==> p != cwd.value)
  }

  /** Resolving the argument of a canonical file against the same directory gives the file back. */
  lemma ResolveArgument(p: Path, cwd: Option<Path>)
    requires CanonicalFile(p, cwd)
    ensures Resolve(Argument(p, cwd), cwd) == p && Argument(p, cwd) != []
  {
    if cwd.Some? && Under(p, cwd.value) {
      var dir := cwd.value;
      var t := Tail(p, dir);
      assert t != [] by { assert p[|p| - 1] != '/'; }
      assert t[0] == p[|dir| + 1];
      assert dir + "/" + t == p;
    }
  }
}
