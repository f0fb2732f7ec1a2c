# Verification of fbuild's build engine

Dafny models of four parts of fbuild, and proofs about them. Each operation is modelled
with the branches, constants and error cases of the code; operations that update state in
a loop are methods with loop invariants, proved against a function or a relation, and the
theorems are about those functions, over every input, every run or every interleaving.

`dafny verify dfyconfig.toml` checks the project.

**The incremental, parallel build** (`Text`, `Paths`, `Depfile`, `Workspace`, `Flags`, `Utf8`,
`Unflags`, `Signature`, `Parallel`, `SignedBuilds`, `CoreCache`, `CachedRuns`, `Relocation`,
`CacheKey`, `Vouching`, `Linker`). A workspace is a source tree and a build directory of timed files. A
compiler is any function that, given the signature, the source and what it has read so far,
opens one more path or stops; the object file is the record of that run, so two objects are
equal exactly when every compiler would have produced the same bytes, and a path that was looked
for and not found is part of the record. A dependency file is the text gcc prints for the files
read, escaped and continued over lines as gcc does, and the planner parses that text. Runs are
any sequence of edits, deletions, compiles, removals, stores and hydrates; parallel builds are
any sequence of steps of a task machine with a semaphore, whose scheduler is arbitrary, and each
such step is a compile or a removal of a run or leaves the files alone (`TaskStepIsCompile`). A
linker reads like a compiler: from the objects, what they hold and the flags it opens one more
library or script or stops, and the ELF is the record of that.

**The sketch front end** (`Regex`, `Glob`, `Defaults`, `Ino`, `Locations`, `SketchLines`). The
emitted regex text is parsed by a parser for the subset of syntax it can hold, and given the
usual meaning of regular expressions; the glob has its own direct matcher. The generated
`.ino.cpp` is read line by line under the conditional groups of section 6.10.1 of ISO C11 and
the line control of section 6.10.4, by any lexer that says what lines leave open and which
directive a line is, and under any truth of the conditions.

**The Rust blanker** (`Blanker`, `RustSource`, `Delimiters`) and **the workflow rewriter**
(`Rewrite`), two text transformers of the CI.

What holds only under a condition is stated with that condition, in both directions where
possible:

- An object is reused wrongly when a header appears at a path the compile had looked at in
  vain (`NewHeaderGoesUnnoticed`), when its dependency file has been removed and a file the
  compile read goes or one other than the source changes (`LostDepfileGoesUnnoticed`), or when
  an edit gets a time not above the object's (`EditNoticedExactly`). Where every edit is late
  enough, the first two are all there is (`ReuseExact`). The same holds with stores to and
  hydrates from the cache that keep objects and dependency files paired and are made under
  the signatures of the stored objects (`CachedSoundness`).
- The comment at compiler.rs:877-880 calls re-stripping flags a no-op. It is not
  (`RestrippingCanStripMore`). For one option with its value it is one exactly when no such
  pairs are wrapped in another (`PairRestripsExactly`); on all flags it is one when no unflag
  takes a value (`TokensRestrip`), for one such unflag among tokens under an exact condition
  on the unflags (`OnePairRestripsExactly`), and for any number of them if no option is itself
  taken and each value comes right after its option in the flags (`PairsRestrip`). The stamp
  agrees with the plan exactly when both sides hash the same normalised pre-flags, as the
  default signatures, which hash none, do; unflags never part them, because the stamping side
  is given none (`StampMatchesPlan`).
- The blanker keeps exactly the code of a Rust source if and only if no character literal has
  an escape longer than one character, such as `'\x41'`, no string is a raw C string, such as
  `cr#"a"b"#`, and no lifetime, raw identifier or literal suffix ends in a letter that stands
  right before a quote and reads as the prefix of a literal, as in `r#r"x"`
  (`ExactlyCodeSurvives`, `HexEscapeSurvives`, `RawCStringGoesAstray`, `StuckLetterGoesAstray`);
  every text reads as a source (`EveryTextIsASource`).
- `hydrate` keeps every file it finds, but for one case: it overwrites a `.cmdhash` that was
  left without its object (`HydrateKeepsFiles`, `LoneStampIsOverwritten`). `store` leaves a
  stale dependency file in the entry when the new object has none (`RoundTrip`,
  `LeftoverDepfileObjects`). Merging two sound directories is sound exactly when they pair up
  (`StoreExact`, `HydrateExact`).
- Prelude headers are named by file stem alone, so a later tab with the same stem in another
  directory overwrites an earlier tab's header (`HeaderIsTheTabs`). The comment at
  source_scanner.rs:443-446 promises the full text of the tabs before; what is written is
  their text without include directives.
- A `#line` directive is swallowed when the tab before it, or the prelude, leaves a comment, a
  literal or an unfinished line open, or a conditional group that is skipped. Diagnostics are
  where they are meant to be whatever conditions are true exactly when nothing is left open, no
  group either (`DiagnosticLocations`, `GeneratedLocations`); without comments and literals
  that span lines this can be seen tab by tab (`TabByTab`, `OpenTabs`).
- Two renderings in a row equal the second alone exactly when no marker stands before the
  section and the first block does not hold the end marker (`PutPut`). The second error of
  `_find_on_and_jobs` cannot be raised (`FindOnAndJobs`).
- Appending the first include rule of a filter can drop a path (`AppendingRules`).
- A relink is skipped wrongly when the object list or the link flags have changed, when a
  library or a script that the link read has, or when the linker was killed while it wrote, and
  in no other case (`LinkReuse`, `LibraryGoesUnnoticed`, `FlagsGoUnnoticed`,
  `KilledLinkGoesUnnoticed`).
- A path below a project root is hashed alike wherever the root is exactly when its tail does
  not look absolute, as `c:x` and `\x` do (`RelocatesExactly`). Permuting the sources keeps the
  key exactly when no two different entries share a relative path (`KeyForgetsOrder`). Equal
  keys under one root mean equal signatures, so that a hydrate is vouched for (`KeyVouches`),
  unless a word of the flags is spelled like the mark `.project` that the key puts in front of
  paths in the project (`SpelledCollides`).
- A depfile round trip holds exactly when no path needs quoting in a makefile: white space,
  `#` or `$` (`Depfile.RoundTrip`).

Assumptions: a hash is a function of the bytes fed to it, and the theorems speak of those
bytes. Object paths of different sources differ. Names in hashed fields hold no NUL. Paths are
POSIX and lexically canonical, so canonicalising them is the identity. A dependency
file lists every file the compile read: fbuild passes `-MMD`, which omits system headers, so
for those the planner is as blind as for a file that was never listed.

## Model

| member | source | states |
|---|---|---|
| Depfile.ParseDepfilePaths | crates/fbuild-build-engine/src/compiler.rs:696-709 | the loop over whitespace-separated words gives the specified parse: continuations joined, the text after the rule's colon, `\ ` unescaped |
| Depfile.UnescapeWordIsIdentity | crates/fbuild-build-engine/src/compiler.rs:704-708 | unescaping never changes a word, since splitting at white space comes first |
| Depfile.ParseShown | crates/fbuild-build-engine/src/compiler.rs:696-719 | any well-formed sequence of words, blanks, newlines and LF or CRLF continuations after a target that may itself hold colons parses to exactly its words |
| Depfile.EscapeExact | crates/fbuild-build-engine/src/compiler.rs:704-708 | a path without white space is printed unchanged exactly when it holds no `#` and no `$` |
| Depfile.RoundTrip | crates/fbuild-build-engine/src/compiler.rs:696-719 | printing a rule in make syntax, with any gaps and line ends, then parsing, gives the list of paths if and only if no path needs quoting |
| Paths.ResolveArgument | crates/fbuild-core/src/path.rs:345-358 | the name a compile is given for a file, resolved by the planner against the compile directory, is that file again |
| Workspace.DependencyIsNewerThanObject | crates/fbuild-build-engine/src/compiler.rs:669-694 | the early-return loop: an error at the first missing prerequisite unless a newer one comes before it |
| Workspace.NoNewerPrerequisite | crates/fbuild-build-engine/src/compiler.rs:669-694 | the check says no exactly when every prerequisite exists and is no newer than the object |
| Workspace.StaleWithout | crates/fbuild-build-engine/src/compiler.rs:263-308 | a missing object, another stamp or an unreadable dependency file makes an object stale; asked without a signature the check is as with the one that is stamped |
| Workspace.DepfileListsFilesRead | crates/fbuild-build-engine/src/compiler.rs:696-719 | what the planner parses from a compile's dependency file resolves to the files read, in order, if their names need no quoting |
| Workspace.CompileKeepsInv | crates/fbuild-build-engine/src/compiler.rs:975-985 | a compile leaves every object current as of its time: the stamp is that of its signature, its dependency file lists its reading |
| Workspace.RunKeepsInv | crates/fbuild-build-engine/src/compiler.rs:263-308 | the workspace invariant holds after every run of edits, deletions, compiles and removals of any files |
| Workspace.PlannerReads | crates/fbuild-build-engine/src/compiler.rs:263-308 | the planner reuses a faithful object exactly when the stamp is the signature asked for and no file read is missing or newer or, without a dependency file, the source is not newer |
| Workspace.ReuseExact | crates/fbuild-build-engine/src/compiler.rs:263-308 | a reused object is what a compile would produce now exactly when every path missed then is still missing and, if its dependency file is gone, every file read is there and none newer than the object has changed |
| Workspace.IncrementalSoundness | crates/fbuild-build-engine/src/compiler.rs:263-308 | over all runs in which no edit creates a path some compile missed and no removal takes a dependency file from its object: a compile with the current signature and files produces the reused object and no other |
| Workspace.EditNoticedExactly | crates/fbuild-build-engine/src/compiler.rs:286-307 | after an edit of any time the reuse decision is right if and only if the compile never looked at the path, or finds the same text, or the time is above the object's and the file existed or, without a dependency file, is the source |
| Workspace.PlannerAfterEdit | crates/fbuild-build-engine/src/compiler.rs:286-307 | an edit makes the planner recompile exactly when its time is above the object's and the compile read the file or, without a dependency file, it is the source |
| Workspace.SettledAfterCompile | crates/fbuild-build-engine/src/compiler.rs:983-985 | right after a compile the planner asks for it again exactly when the signature differs or a prerequisite is newer than the object; the dependency file's own time never matters |
| Workspace.NewHeaderGoesUnnoticed | crates/fbuild-build-engine/src/compiler.rs:263-308 | a concrete run, every step enabled, after which the planner keeps an object no compile would produce |
| Workspace.LostDepfileGoesUnnoticed | crates/fbuild-build-engine/src/compiler.rs:302-307 | a concrete run: a dependency file removed alone, then a late edit of a header, after which the planner keeps an object no compile would produce though no path has appeared |
| Flags.ApplyUserFlags | crates/fbuild-build-engine/src/flag_overlay.rs:268-282 | retaining and pushing flag by flag leaves exactly the flags no later user flag replaces, in order |
| Flags.MergeAsWritten | crates/fbuild-build-engine/src/flag_overlay.rs:268-299 | for macros, standards and other flags as they are written: user flags go to the end, and of those that define one macro or choose the standard only the ones no later user flag settles anew are left, in order |
| Flags.LaterFlagWins | crates/fbuild-build-engine/src/flag_overlay.rs:268-299 | a user flag for one macro, or a standard, replaces an earlier one and leaves what is between |
| Flags.RetainUnlike | crates/fbuild-build-engine/src/flag_overlay.rs:270-278 | one user flag removes the flags with its key and no others |
| Flags.SurvivorsMeanTheSame | crates/fbuild-build-engine/src/flag_overlay.rs:268-299 | the merged list has the same value for every macro and the same language standard as base followed by user flags, the last definition winning |
| Flags.MergePreservesMacro | crates/fbuild-build-engine/src/flag_overlay.rs:292-299 | one user flag merged or appended gives every macro the same value |
| Flags.ScopeByExtension | crates/fbuild-build-engine/src/flag_overlay.rs:38-51 | for any directory and stem: `.c` gets the C flags, `.s`, `.S`, `.sx`, `.asm` and `.spp` the assembler flags, other extensions the C++ flags, each after the common ones |
| Flags.NoExtension | crates/fbuild-build-engine/src/flag_overlay.rs:38-51 | a name without a dot, or with one in front only, gets the C++ flags |
| Utf8.CharEncodes | crates/fbuild-build-engine/src/compiler.rs:498-508 | length, marker bits and code point of an encoded character are those of section 3 of RFC 3629 |
| Utf8.EncodeInjective | crates/fbuild-build-engine/src/compiler.rs:498-508 | different strings have different UTF-8 encodings |
| Unflags.RemoveFlagValuePair | crates/fbuild-build-engine/src/pipeline/build_unflags.rs:70-83 | the scan removes non-overlapping option and value pairs, leftmost first |
| Unflags.RemoveUnflaggedTokens | crates/fbuild-build-engine/src/pipeline/build_unflags.rs:56-68 | unflags are applied one after the other, as pairs if the option takes a value and one follows |
| Unflags.OptionGoesAsPair | crates/fbuild-build-engine/src/pipeline/build_unflags.rs:56-68 | an option and a value go as a pair exactly for the thirteen options that take one |
| Unflags.RestrippingCanStripMore | crates/fbuild-build-engine/src/compiler.rs:877-880 | a list that loses flags again when it is stripped a second time |
| Unflags.PairRestripsExactly | crates/fbuild-build-engine/src/compiler.rs:877-880 | stripping one pair again is a no-op if and only if the two words are the same or no `option`, pairs, `value` follow one another in the flags |
| Unflags.TokensRestrip | crates/fbuild-build-engine/src/compiler.rs:877-880 | stripping again is a no-op on all flags when no unflag takes a value |
| Unflags.OnePairRestripsExactly | crates/fbuild-build-engine/src/compiler.rs:877-880 | with one value-taking unflag among tokens, stripping again is a no-op on all flags if and only if a word of the pair is itself an unflag, or the words are equal and no token is taken after the pair that was not taken before it |
| Unflags.PairsRestrip | crates/fbuild-build-engine/src/compiler.rs:877-880 | with any number of value-taking unflags, stripping again is a no-op if no option that takes a value is a token or a value among the unflags and each value to be taken comes right after its option in the flags |
| Unflags.StrippingCommutes | crates/fbuild-build-engine/src/pipeline/build_unflags.rs:56-83 | stripping commutes with replacing words in flags and unflags alike if no flag comes to equal an unflag and options that take values stay such |
| Signature.HashSignatureGroup | crates/fbuild-build-engine/src/compiler.rs:492-509 | the loop with its pending split operand feeds every normalised flag followed by a zero byte |
| Signature.FeedSignature | crates/fbuild-build-engine/src/compiler.rs:463-490 | the whole stream: identity, then the three groups, unflags applied to the first and last only |
| Signature.GroupDecodes | crates/fbuild-build-engine/src/compiler.rs:485-508 | a group closed by 0xFF determines its flags and what follows it |
| Signature.StreamDecodes | crates/fbuild-build-engine/src/compiler.rs:463-509 | two streams are equal if and only if compiler identity and all three normalised groups are |
| Signature.SignatureDecodes | crates/fbuild-build-engine/src/compiler.rs:463-509 | two signatures are equal if and only if compiler identity, the flags left by the unflags, the pre-flags and the extra flags left by the unflags are, group by group as normalised |
| Signature.PlannedDecodes | crates/fbuild-build-engine/src/compiler.rs:161-181 | the same of the planned signatures of two compilers and two lists of extra flags |
| Signature.OperandsAreNormalized | crates/fbuild-build-engine/src/compiler.rs:492-525 | the word after each of the five path options, and what follows each of the five prefixes, is normalised |
| Signature.OtherFlagIsPlain | crates/fbuild-build-engine/src/compiler.rs:518-525 | a flag with none of the prefixes is hashed as it is |
| Signature.DriverByExtension | crates/fbuild-build-engine/src/compiler.rs:128-143 | for any directory and stem: `.c` and `.s` in any case go to the C driver, `.cpp` and the like to the C++ driver |
| Signature.StampMatchesPlan | crates/fbuild-build-engine/src/compiler.rs:161-181 | the stamped signature is the planned one if and only if both sides hash the same normalised pre-flags; unflags never part them |
| Parallel.PlanWork | crates/fbuild-build-engine/src/parallel.rs:65-74 | the plan loop gives the stale sources and every object, in source order |
| Parallel.PermitsAddUp | crates/fbuild-build-engine/src/parallel.rs:89-117 | in every interleaving running tasks and free permits make up the parallelism, and no run is longer than three steps a task |
| Parallel.JobsBoundTasks | crates/fbuild-build-engine/src/parallel.rs:82-117 | at most `jobs` tasks run at once, or one if `jobs` is zero, and a waiting task can be started exactly while fewer run |
| Parallel.NeverStuck | crates/fbuild-build-engine/src/parallel.rs:82-172 | as long as a task is not joined, some step is enabled |
| Parallel.OkExactlyWhenAllCompiled | crates/fbuild-build-engine/src/parallel.rs:151-179 | once drained there is no error exactly when every task compiled |
| Parallel.FirstErrorStays | crates/fbuild-build-engine/src/parallel.rs:154-172 | the error is the message of the failed task joined first and no later failure changes it |
| Parallel.WarningsAreConserved | crates/fbuild-build-engine/src/parallel.rs:151-156 | the warnings collected are those of the joined tasks, each as often as it was given |
| Parallel.Drain | crates/fbuild-build-engine/src/parallel.rs:154-172 | the join loop keeps the first error in join order, all warnings, and aborts once |
| Parallel.WhatIsReported | crates/fbuild-build-engine/src/parallel.rs:124-172 | of the first failed task its message, or that it panicked or was cancelled; of each that compiled its trimmed output unless blank |
| Parallel.EveryInterleavingIsSequential | crates/fbuild-build-engine/src/parallel.rs:82-179 | after any interleaving that returns Ok the build directory holds the names and contents of every sequential build of the work list |
| Parallel.SomeSequentialBuild | crates/fbuild-build-engine/src/parallel.rs:82-179 | and there is such a sequential build: one that compiles the work list in order from the same start and ends in the very same files, times included |
| Parallel.TaskStepIsCompile | crates/fbuild-build-engine/src/parallel.rs:113-148 | a finished task is one enabled step of a workspace run, a compile exactly if it succeeded and else at most the removal of its object; every other task step leaves the files alone |
| Parallel.WorkspaceInvAlways | crates/fbuild-build-engine/src/parallel.rs:82-172 | every state of every interleaving, tasks that fail, remove their object or are aborted included, is a sound workspace, if dependency files can name what the compiles read |
| Parallel.Convergence | crates/fbuild-build-engine/src/parallel.rs:65-80 | after Ok, planning again gives an empty list if and only if every compiled source is stamped as planned and read no file newer than its object |
| SignedBuilds.BuildConverges | crates/fbuild-build-engine/src/compiler.rs:161-181 | under the signatures of compiler.rs, stamped after unflag filtering, that is if and only if no compiled source read a file newer than its object |
| CoreCache.CopyArtifacts | crates/fbuild-build-engine/src/framework_core_cache.rs:205-243 | in any directory order: which files are taken, left or overwritten, both counters, and the set of copied objects |
| CoreCache.RefreshCommandHashes | crates/fbuild-build-engine/src/framework_core_cache.rs:260-282 | stamps exactly the sources whose objects were copied, and counts them |
| CoreCache.Hydrate | crates/fbuild-build-engine/src/framework_core_cache.rs:100-120 | the directory and the statistics after hydrating; nothing if there is no entry |
| CoreCache.Store | crates/fbuild-build-engine/src/framework_core_cache.rs:122-128 | the entry after storing: every artifact of the directory over what was there; all counted, none skipped |
| CoreCache.RestampExact | crates/fbuild-build-engine/src/framework_core_cache.rs:260-282 | a stamp is written for a source exactly when its object was copied; every other file is as before |
| CoreCache.HydrateKeepsFiles | crates/fbuild-build-engine/src/framework_core_cache.rs:100-120 | a file already present is unchanged unless it is the stamp of an object that was copied |
| CoreCache.HydrateBrings | crates/fbuild-build-engine/src/framework_core_cache.rs:100-120 | of the files that were missing exactly the objects and dependency files of the entry come, and a stamp for each source whose object was copied |
| CoreCache.StoreTakes | crates/fbuild-build-engine/src/framework_core_cache.rs:122-128 | exactly objects, dependency files and stamps are laid over the entry |
| CoreCache.RestampCounts | crates/fbuild-build-engine/src/framework_core_cache.rs:260-282 | one is counted for each source whose object was copied |
| CoreCache.SecondHydrateIsIdle | crates/fbuild-build-engine/src/framework_core_cache.rs:100-120 | a second hydrate copies nothing, stamps nothing and changes nothing |
| CoreCache.RoundTrip | crates/fbuild-build-engine/src/framework_core_cache.rs:100-128 | after store, wipe and hydrate the planner asks for a source that was current exactly when the entry kept an older dependency file, of an object without one, that objects |
| CoreCache.LoneStampIsOverwritten | crates/fbuild-build-engine/src/framework_core_cache.rs:108-117 | at one input: a stamp left without its object is replaced |
| CoreCache.LeftoverDepfileObjects | crates/fbuild-build-engine/src/framework_core_cache.rs:122-128 | at one input: an object stored over an older dependency file is asked for again |
| CoreCache.StoreExact | crates/fbuild-build-engine/src/framework_core_cache.rs:122-128 | storing keeps an entry sound if and only if every object that comes to lie beside another's dependency file agrees with it |
| CoreCache.HydrateExact | crates/fbuild-build-engine/src/framework_core_cache.rs:100-120 | hydrating into any directory keeps the workspace invariant if and only if objects and dependency files pair up and the signatures of the build, or the stamps left, are those of the copied objects |
| CoreCache.HydratedIsSound | crates/fbuild-build-engine/src/framework_core_cache.rs:100-128 | store over any sound entry, wipe and hydrate give a sound workspace if and only if the signatures vouch for the objects |
| CachedRuns.EditSparesEntryExactly | crates/fbuild-build-engine/src/framework_core_cache.rs:205-243 | an edit between store and hydrate leaves a stored object sound if and only if the text is what was read or the edit is later than the object |
| CachedRuns.RunKeepsInv | crates/fbuild-build-engine/src/framework_core_cache.rs:100-128 | over all runs of edits, deletions, compiles, removals, stores and hydrates, workspace and cache entries stay sound |
| CachedRuns.CachedSoundness | crates/fbuild-build-engine/src/framework_core_cache.rs:100-128 | over all those runs, if no edit creates a path some kept object missed and no removal orphans an object: what the planner reuses, hydrated or compiled, is what a compile produces now |
| Relocation.DriveLikeTailNamesItsRoot | crates/fbuild-build-engine/src/compiler.rs:558-575 | two roots for which a path with an absolute-looking tail normalises differently |
| Relocation.MarkOfProject | crates/fbuild-build-engine/src/compiler.rs:538-556 | the key hashes the root as `.project`, a path below it as `.project/` and its tail, and a path that does not look absolute as it is |
| Relocation.AbsoluteLooking | crates/fbuild-build-engine/src/compiler.rs:595-601 | a slash, a backslash or a drive letter in front makes a path look absolute, and nothing else does |
| Relocation.RelocatesExactly | crates/fbuild-build-engine/src/compiler.rs:538-601 | a path below the project normalises alike under every two roots if and only if its tail does not look absolute |
| Relocation.KeptFromBuildDirectory | crates/fbuild-build-engine/src/compiler.rs:558-565 | a path below a `.fbuild` directory is hashed from that directory on, whatever is above it |
| Relocation.KeptFromPlainBuildDirectory | crates/fbuild-build-engine/src/compiler.rs:566-571 | without `.fbuild`, so is a path below a `.build` directory |
| Relocation.ComponentsAre | crates/fbuild-build-engine/src/compiler.rs:577-593 | a path joined from names splits into them again; empty components and `.` are dropped |
| Relocation.ShortPath | crates/fbuild-build-engine/src/compiler.rs:572-575 | outside build directories a path of one or two components is hashed by them |
| Relocation.CollideExactly | crates/fbuild-build-engine/src/compiler.rs:572-575 | two paths outside build directories are hashed alike if and only if their last two components agree |
| Relocation.GroupRelocates | crates/fbuild-build-engine/src/compiler.rs:492-525 | a group whose recognised operands, attached or split, are moved with the project is hashed as before |
| CacheKey.SortAscends | crates/fbuild-build-engine/src/framework_core_cache.rs:180 | the sort orders entries by path |
| CacheKey.OrderOfBytes | crates/fbuild-build-engine/src/framework_core_cache.rs:180 | the order of paths in the sort is that of their UTF-8 bytes |
| CacheKey.SortIsStable | crates/fbuild-build-engine/src/framework_core_cache.rs:180 | and keeps the order of entries for one path |
| CacheKey.SortForgetsOrder | crates/fbuild-build-engine/src/framework_core_cache.rs:164-180 | permutations of entries with distinct paths sort alike |
| CacheKey.CoreCacheKey | crates/fbuild-build-engine/src/framework_core_cache.rs:143-191 | feeding the hasher step by step gives the bytes of the header and the sorted entries |
| CacheKey.KeyDecodes | crates/fbuild-build-engine/src/framework_core_cache.rs:152-189 | two keys' bytes are equal if and only if version, platform, environment, profile and the sorted entries are |
| CacheKey.KeyHoldsSources | crates/fbuild-build-engine/src/framework_core_cache.rs:143-191 | under one root two checkouts have equal keys if and only if package, platform, environment and profile are equal and, in whatever order, so is every source: relative path, content, compiler identity and both flag groups as stripped and normalised |
| CacheKey.PathInKey | crates/fbuild-build-engine/src/framework_core_cache.rs:164-180 | a source in the project goes into the key by its path from the root, any other by its own |
| CacheKey.KeyForgetsOrder | crates/fbuild-build-engine/src/framework_core_cache.rs:164-189 | every permutation of the sources has the same key bytes if and only if no two different entries share a path |
| CacheKey.KeyRelocates | crates/fbuild-build-engine/src/framework_core_cache.rs:164-191 | a project moved with its sources, contents, flags and unflags has the same key, if no flag comes to equal an unflag and what stripping leaves moves word by word in recognised operands |
| Vouching.ValueFactors | crates/fbuild-build-engine/src/compiler.rs:527-556 | the same of one path value: only a path in the project may be hashed with its mark |
| Vouching.GroupFactors | crates/fbuild-build-engine/src/compiler.rs:492-556 | what a rebuild signature makes of a flag group is a function of what the cache key makes of it |
| Vouching.KeyDeterminesPlan | crates/fbuild-build-engine/src/compiler.rs:161-213 | under one root, equal keys for one list of sources mean equal planned signatures of every source |
| Vouching.KeyVouches | crates/fbuild-build-engine/src/framework_core_cache.rs:143-191 | a hydrate under a key equal to that of the store is vouched for: objects stored with the signatures of one build are stamped with the same by the other, if no word of the flags is spelled like the mark of the project, no operand like a flag that holds a path, and the hash does not collide |
| Vouching.SpelledCollides | crates/fbuild-build-engine/src/compiler.rs:538-556 | a path spelled with the mark has, for the key, the hash of the path in the project; for the rebuild signature it has another unless that path is normalised to the same text |
| Linker.ElfIsUpToDate | crates/fbuild-build-engine/src/linker.rs:93-108 | true exactly when the ELF exists and every input exists and is strictly older |
| Linker.LinkAll | crates/fbuild-build-engine/src/linker.rs:172-219 | skips or links; fails, with the old ELF kept, gone or left partial, exactly when an object is missing or the linker fails or is killed; an ELF that was linked is what the linker makes of the objects, the flags and all it reads |
| Linker.StepKeepsInv | crates/fbuild-build-engine/src/linker.rs:93-108 | under a clock that only weakly increases, a whole ELF newer than its inputs holds their contents, whatever happens to the other files |
| Linker.LinkReuse | crates/fbuild-build-engine/src/linker.rs:180-219 | over all runs, a skipped link leaves the ELF that linking now gives if and only if it is whole, its object list and flags are those asked for, and every other file its link read answers as it did |
| Linker.LinkIsDeterministic | crates/fbuild-build-engine/src/linker.rs:217-219 | and no other ELF: linking now gives one |
| Linker.FixedProjectLinksAlike | crates/fbuild-build-engine/src/linker.rs:180-219 | with a fixed object list and fixed flags, failed links included in the run, a link_all that does not fail ends with the ELF that linking now gives, skipped or not, if and only if no other file that ELF has read has changed |
| Linker.UntouchedProjectLinksAlike | crates/fbuild-build-engine/src/linker.rs:180-219 | and if no step touches another file, it is that ELF |
| Linker.OverwriteNoticedExactly | crates/fbuild-build-engine/src/linker.rs:93-108 | overwriting an input with any time leaves the skip decision right if and only if nothing changed or the time is not below the ELF's |
| Linker.OtherFileGoesUnnoticed | crates/fbuild-build-engine/src/linker.rs:180-185 | editing any file but the objects, at any time, leaves the decision to skip, which stays right if and only if the link never looked there or finds the same text |
| Linker.LibraryGoesUnnoticed | crates/fbuild-build-engine/src/script_runtime.rs:291-313 | at a concrete run: a library changed, the link skipped, another ELF due |
| Linker.FlagsGoUnnoticed | crates/fbuild-build-engine/src/linker.rs:180-185 | at a concrete run: flags changed, the link skipped, another ELF due |
| Linker.KilledLinkGoesUnnoticed | crates/fbuild-build-engine/src/linker.rs:93-108 | at a concrete run: a linker killed while it wrote, its partial ELF kept |
| Glob.GlobFragmentToRegex | crates/fbuild-build-engine/src/source_scanner.rs:711-735 | the index loop with its skipped second star emits item by item |
| Glob.CompiledPattern | crates/fbuild-build-engine/src/source_scanner.rs:688-700 | the emitted regex text of every pattern parses to the intended expression |
| Glob.FragmentMeaning | crates/fbuild-build-engine/src/source_scanner.rs:711-735 | the expression of a fragment matches exactly the texts the fragment fits in front of what the rest matches |
| Glob.CompilationPreservesMeaning | crates/fbuild-build-engine/src/source_scanner.rs:688-735 | parsing the emitted text and matching it anchored agrees with the direct glob matcher, for every pattern and newline-free path |
| Glob.BareNameMatchesLastComponent | crates/fbuild-build-engine/src/source_scanner.rs:697-699 | a pattern without slash and double star, not a lone star, fits exactly when the last component does |
| Glob.LiteralPatterns | crates/fbuild-build-engine/src/source_scanner.rs:688-700 | `dir/` takes the directory and all below it, a path with a slash itself, a bare name itself in any directory |
| Glob.TokensAreExact | crates/fbuild-build-engine/src/source_scanner.rs:498 | the tokens hold no comma and no newline and, woven with the separators, are the specification |
| Glob.ParseFilter | crates/fbuild-build-engine/src/source_scanner.rs:487-535 | no specification gives no rules; else parsing succeeds exactly if every token is blank or well formed |
| Glob.RulesAsWritten | crates/fbuild-build-engine/src/source_scanner.rs:487-535 | a specification written with any blanks gives its rules in order: `+<...>` includes, `-<...>` excludes, the pattern with slashes for backslashes |
| Glob.ParseRules | crates/fbuild-build-engine/src/source_scanner.rs:498-529 | the rule loop keeps rules in order and records whether one includes |
| Glob.FilterMatches | crates/fbuild-build-engine/src/source_scanner.rs:537-553 | the loop's verdict on the path relative to the root is that of the last matching rule, else that no include rule exists |
| Glob.RelativePath | crates/fbuild-build-engine/src/source_scanner.rs:537-553 | the filter looks at the path from the root, or the whole path outside it, with slashes for backslashes |
| Glob.VerdictIsLast | crates/fbuild-build-engine/src/source_scanner.rs:537-553 | the same for the recursive verdict, from the definition of the last match |
| Glob.AppendingRules | crates/fbuild-build-engine/src/source_scanner.rs:537-553 | an exclude rule never admits; an include rule drops a path exactly when it is the first include rule and no rule matches |
| Defaults.StripDefaultsFromParams | crates/fbuild-build-engine/src/source_scanner.rs:1106-1219 | the one-pass scanner computes the split at top-level commas with each parameter cut at its top-level `=` |
| Defaults.DeclaratorsAreLeft | crates/fbuild-build-engine/src/source_scanner.rs:1106-1219 | for any list of declarators and defaults, with nested brackets of four kinds and both quotes with escapes: the declarators are left, trimmed at the end and joined by commas |
| Defaults.StrippingSettles | crates/fbuild-build-engine/src/source_scanner.rs:1106-1219 | no top-level `=` is left, and stripping again changes nothing |
| Defaults.StrippingKeepsArity | crates/fbuild-build-engine/src/source_scanner.rs:1106-1219 | the number of top-level commas is kept |
| Defaults.StrippingOnlyDrops | crates/fbuild-build-engine/src/source_scanner.rs:1106-1219 | the output is a subsequence of the input |
| Ino.NoCarriageReturn | crates/fbuild-build-engine/src/source_scanner.rs:610-612 | no carriage return is left in normalized text |
| Ino.NothingToNormalize | crates/fbuild-build-engine/src/source_scanner.rs:610-612 | a text without carriage returns is left as it is |
| Ino.HoistIncludeDirectives | crates/fbuild-build-engine/src/source_scanner.rs:792-807 | the loops with their set give the first occurrence of each directive |
| Ino.FirstsAreFirst | crates/fbuild-build-engine/src/source_scanner.rs:792-807 | each directive once, none lost or invented, in first-seen order |
| Ino.BuildDir.WriteIfChanged | crates/fbuild-build-engine/src/source_scanner.rs:737-744 | the file holds the contents afterwards, written or not |
| Ino.WriteInoPreludes | crates/fbuild-build-engine/src/source_scanner.rs:449-477 | one header a tab, later ones over earlier, and the mapping in tab order |
| Ino.PreludeAgreement | crates/fbuild-build-engine/src/source_scanner.rs:358-403 | a tab's prelude and its own segment are a prefix of the generated file, and all of it for the last tab |
| Ino.HeaderIsTheTabs | crates/fbuild-build-engine/src/source_scanner.rs:470-474 | a tab's header holds its prelude if and only if no later tab has the same stem |
| Ino.PreprocessInoFiles | crates/fbuild-build-engine/src/source_scanner.rs:338-403 | the generated file and the headers after a run over raw files |
| Locations.WholeIsMeant | crates/fbuild-build-engine/src/source_scanner.rs:378-389 | for any lexer and any conditions, reading parts from any point gives the meant locations if and only if before each directive nothing is open and no group is skipped |
| Locations.PlacesMeantAlways | crates/fbuild-build-engine/src/source_scanner.rs:378-389 | they are as meant whatever conditions are true if and only if before each directive nothing is open, no conditional group either |
| SketchLines.DirectiveReads | crates/fbuild-build-engine/src/source_scanner.rs:383 | the written directive reads as line 1 of the tab's path |
| SketchLines.BodyLinesAre | crates/fbuild-build-engine/src/source_scanner.rs:378-389 | the body's physical lines are each tab's directive and retained lines |
| SketchLines.LinesOfRaw | crates/fbuild-build-engine/src/source_scanner.rs:610-612 | the lines of a file, each ended by LF, CRLF or CR and the last ended or not, are the lines of the tab |
| SketchLines.DiagnosticLocations | crates/fbuild-build-engine/src/source_scanner.rs:338-403 | for any lexer that knows a `#line` directive: every line of every tab has its own file and line if and only if every directive is heard, and whatever conditions are true if and only if no comment, literal, unfinished line or group is open at the end of the prelude or of a tab but the last |
| SketchLines.EveryLineIsMeant | crates/fbuild-build-engine/src/source_scanner.rs:812-824 | every line that is neither blank nor an include is among those, unchanged, at its own number |
| SketchLines.RawLineIsMeant | crates/fbuild-build-engine/src/source_scanner.rs:345-389 | a line of a file on disk that is neither blank nor an include is meant to be at its own number of its path, whatever ends the lines |
| SketchLines.GeneratedLocations | crates/fbuild-build-engine/src/source_scanner.rs:338-430 | the same from tabs and prototypes alone: what a hoisted include leaves open, as a comment begun on its line, counts with the prelude |
| SketchLines.TabByTab | crates/fbuild-build-engine/src/source_scanner.rs:338-430 | where comments and literals end on their line: locations are as meant whatever conditions are true if and only if the prelude and each tab but the last, each taken alone, ends in no non-blank line with a backslash and closes the groups it opens |
| SketchLines.OpenTabs | crates/fbuild-build-engine/src/source_scanner.rs:378-389 | at concrete tabs: `#if 0` alone and a line with a backslash leave something open; `#if 0` with its `#endif`, and a backslash alone on a line, do not |
| SketchLines.IncludedOnce | crates/fbuild-build-engine/src/source_scanner.rs:360-403 | for any tabs whose paths are one line: the include directives of the generated file are those of all tabs, each once and in first-seen order, after `Arduino.h` if it is asked for |
| SketchLines.PreludeIsLines | crates/fbuild-build-engine/src/source_scanner.rs:410-430 | the prelude is its lines, each with a newline |
| Blanker.CodeOnly | ci/platform_boundary_research.py:102-169 | the scan overwriting `out` in place computes the recursive blanking |
| Blanker.OffsetsAreKept | ci/platform_boundary_research.py:102-169 | each character is the original or a space, and newlines are where they were |
| Blanker.LinesAgree | ci/platform_boundary_research.py:188-189 | line numbers from the original are those of the blanked text at every offset |
| Blanker.LineAtCounts | ci/platform_boundary_research.py:188-189 | the line of an offset is one more than the number of newlines before it |
| Blanker.NoQuoteSurvives | ci/platform_boundary_research.py:102-169 | no double quote is left |
| Blanker.BlankingTwice | ci/platform_boundary_research.py:102-169 | blanking twice is blanking once, for every text |
| RustSource.ExactlyCodeSurvives | ci/platform_boundary_research.py:102-169 | of any source, with lifetimes, nested comments, strings, raw strings, character literals, closed or not at its end, exactly the code survives if and only if no character literal has an escape longer than one character, no string is a raw C string and no letter of a word is stuck to a quote |
| RustSource.EveryTextIsASource | ci/platform_boundary_research.py:102-169 | every text is such a source: it reads as code, comments and literals, raw C strings among them, whatever follows whatever |
| RustSource.LiteralIsErasedExactly | ci/platform_boundary_research.py:72 | a character literal is blanked if and only if its body is one character or a backslash and one character |
| RustSource.HexEscapeSurvives | ci/platform_boundary_research.py:72 | at one input: a hexadecimal escape comes through unchanged |
| RustSource.RawCStringGoesAstray | ci/platform_boundary_research.py:123-134 | at one input: what stands between the inner quotes of `cr#"a"b"#` comes through as code |
| RustSource.StuckLetterGoesAstray | ci/platform_boundary_research.py:123-134 | at one input: the second `r` of `r#r"x"`, a raw identifier and a string, is erased |
| Delimiters.MatchingDelimiter | ci/platform_boundary_research.py:172-181 | the first closing delimiter that balances the text from the opening, or the last offset |
| Delimiters.EnclosingIsFound | ci/platform_boundary_research.py:172-181 | for text of any nesting it is the delimiter that encloses it |
| Rewrite.FindOnAndJobs | ci/render_workflows.py:109-123 | the loop gives the first `on:` and the first `jobs:`; that `jobs:` comes first is never reported |
| Rewrite.BreaksEndLines | ci/render_workflows.py:138 | each of the ten line boundaries of `str.splitlines` ends a line and no other character does |
| Rewrite.RewriteOn | ci/render_workflows.py:126-142 | slicing and joining give the frame with the block between markers |
| Rewrite.WorkflowMarkersAreDistinctive | ci/render_workflows.py:35-36 | neither marker can overlap itself or the other |
| Rewrite.MarkedAt | ci/render_workflows.py:133-136 | where the markers are found in a marked text: none straddles a splice |
| Rewrite.StrayMarkerInFront | ci/render_workflows.py:133-136 | with a stray marker before the section two renderings differ from one, whatever the blocks |
| Rewrite.NoRotation | ci/render_workflows.py:133-136 | the two errors, a stray begin marker and an end marker in the first block, cannot cancel: no block satisfies the word equation they would need |
| Rewrite.PutPut | ci/render_workflows.py:126-142 | rendering b1 then b2 is rendering b2 if and only if no marker precedes the section and b1 holds no end marker |
| Rewrite.PutGet | ci/render_workflows.py:126-142 | the section read back is the block that was put, and putting it again changes nothing |
| Rewrite.GetPut | ci/render_workflows.py:133-136 | putting back the section of a marked text gives the text |
| Rewrite.FirstRenderingFrame | ci/render_workflows.py:138-142 | a first rendering keeps everything before `on:` and from `jobs:` on, and fails exactly when no `on:` precedes the first `jobs:` |
| Rewrite.FirstRendering | ci/render_workflows.py:126-142 | line by line, with LF or CRLF: the lines before `on:` stay, what follows up to `jobs:` becomes the block between markers, `jobs:` and the rest stay |

## Left out

- The compilers, zccache, subprocesses, tokio and SHA-256: a compile is a function of what it reads, a scheduler is arbitrary, a hash is a function of bytes.
- A linker that is killed leaves a partial ELF here; what the conversion to firmware makes of it is not modelled.
- A compile and its stamp are one step; a compile that ends between writing the object and writing the stamp is not modelled.
- Rust's path and file-system functions on Windows: backslash rewriting of paths, UNC prefixes and case folding.
- Object names: `object_path` with its 16-bit suffix is an injective naming here.
- Workspace.DepfileListsFilesRead: files whose names hold white space, `#` or `$`, and names that end in a backslash; a compile step of a run reads none.
- Paths.ResolveArgument: canonicalisation, which resolves `..` and symbolic links, is taken to be the identity.
- Relocation.RelocatesExactly: canonicalisation that resolves symbolic links is taken to be the identity.
- CacheKey.KeyRelocates: words with paths that the key does not recognise, as the operand of `-L`, do not move; with them the keys of the two places differ.
- Unflags.PairsRestrip: one way only; with two or more value-taking unflags the pairs of one can come together when those of another go, and the exact condition is not stated.
- Vouching.KeyVouches: compilers that hash pre-flags of their own; the signatures here are the default ones, which hash none. A checkout at another root: its rebuild signatures may differ.
- CachedRuns.CachedSoundness: a store or hydrate that sets an object beside another compile's dependency file, or a hydrate whose signatures do not vouch, is no step of these runs; the condition is exact by CoreCache.StoreExact and CoreCache.HydrateExact, and equal keys vouch by Vouching.KeyVouches.
- Parallel.Drain: the outcomes are given in the order they are joined; how an abort changes them is in the task machine.
- Flags.SurvivorsMeanTheSame: a macro given as two words, `-D NAME`, is no definition in this meaning, as `define_flag_name` does not see it either.
- Glob.CompilationPreservesMeaning: paths with a newline, and the size limits of the regex library.
- Glob.FilterMatches: paths with a newline, for which a rule is the direct matcher and not the regex.
- Defaults: the search for the parameter list in a signature, which tree-sitter does.
- Ino.PreprocessInoFiles: the prototypes are a parameter; tabs are given in build order with the paths their directives name.
- SketchLines.DiagnosticLocations: tabs with line directives of their own.
- SketchLines.GeneratedLocations: the same tabs.
- SketchLines.TabByTab: tabs in which a comment or a literal spans lines or hides a directive, or in which `#` is spelled otherwise; GeneratedLocations holds of them.
- RustSource.ExactlyCodeSurvives: a shebang line, which Rust drops before it reads the source. The `b` of a byte string and the `c` of a C string that is not raw read as code.
- Directory walking, `build_info.json`, board files, the extra_scripts harness, packaging, logging, the VS Code extension and network scripts.
