# redo: the rebuild decision, modelled in Dafny

`redo` is a small build tool. A single cache file per directory,
`.redo.json`, holds an entry for every target built there, recording the hash
each of its dependencies had at the last build. A
target has to be rebuilt when it has no dependency, or when one of its
dependencies now hashes differently. Rebuilding runs the target's shell build
script (`<target>.do`) with a temporary output file. When the script exits with
code 0, that file is renamed onto the target.

The repository contains this engine twice, and this project models both
versions.

- **Module version** (`src/redo/target.rs`, `src/redo/dependency.rs`), the
  modules `Deps` and `Targets`:
  - `Dependency` is a `(name, hash)` value whose hash is computed with the
    empty string as the "cannot read" sentinel.
  - `Target` is a class with an immutable path and a mutable dependency list,
    with `needs_update`, `ensure_do_dependency_exists`, `load` and `redo`.
  - The cache has `read`, and `write`, which does a replace-or-append by path.
- **Single-file version** (`src/main.rs`), the module `Legacy`:
  - `do_file`, `basename`, and `read`, where an absent cache counts as empty.
  - The two-level `write`: first the target's entry, then the dependency's
    record inside it.
  - `hash`, `needs_update`, `redo`, and the fail-fast loop of `main` over the
    command-line targets.

Both versions run in the environment modelled in `Env`:
- The file system is a map from a path to what opening and reading it yields.
- The content hash is a function from bytes to a non-empty digest.
- `.redo.json` is one of three things: unreadable, not a well-typed document,
  or a list of entries.
- The build script is an oracle from the script path, its base-name argument
  and the files it can read to its exit status and its output.

`Paths` models the three Rust path operations the versions use to name things:
`file_name`, `file_stem` and `with_extension`.

The methods follow the source's loops and mutations. Each is proved against a
specification function (`RefreshAll`, `WithDependency`, `Upsert`, `Scan`,
`RedoResult`, `RunFrom`). The lemmas in `TargetProperties` and
`LegacyProperties` state what those functions promise: upsert behaviour,
lookup after write, idempotence, the staleness rule, refresh makes a target
fresh, and a build settles a target.

Where the two versions differ, or where the code differs from the tool's
documented intent, the model follows the code:

- **Absent cache.** In the module version, `read` turns an absent cache into an
  `Err`, so `load`'s `unwrap` panics (`Targets.Target.Load` returns None). Only
  the single-file version treats an absent cache as empty (`Legacy.Read`).
- **Missing script.** The module version never checks that the build script
  exists. On first load the script is added with an empty hash. A script that
  is missing or unreadable also hashes to the empty string, so that target
  counts as up to date and is not rebuilt
  (`TargetProperties.FirstLoadStaleIffScriptReadable`). The single-file version
  exits with status 1 when `<target>.do` does not exist, but only after the
  staleness check.
- **Script name.** The module version names the script with
  `with_extension("do")`, which replaces the extension: `out.txt` gives
  `out.do`. The single-file version appends `.do`, giving `out.txt.do`.
- **Base name.** The module version passes `file_stem` as the script's base
  name (`out`). The single-file version passes `file_name` (`out.txt`).
  `Paths.OutTxtNames` works out both rules for `out.txt`. The two script names
  agree exactly when the file name has no extension
  (`Paths.WithExtensionIsAppendIff`).
- **Unreadable dependencies.** In the single-file version, `hash` returns an
  error when a dependency cannot be opened, and that dependency counts as
  stale. When the file opens but reading it fails, `io::copy(..).unwrap()`
  panics instead.
- **The cache is written first.** Both versions write the cache before the
  script runs. So a panic while computing the base name, a failed spawn, or a
  non-zero exit still leaves the refreshed hashes in the cache.

## Model

| member | source | states |
|---|---|---|
| Seqs.FirstIndexOf | src/redo/target.rs:91 | the index of the first element with the key, none before it matches; None exactly when no element matches (the `find` both versions use) |
| Seqs.FirstIndexOfIs | src/redo/target.rs:135 | a matching index with no match before it is what the search finds |
| Env.ReadAll | src/redo/dependency.rs:13-14 | a file's contents are available exactly when the path exists and opens and reads; then they are its bytes |
| Env.ExitCode | src/redo/target.rs:74 | `code().unwrap_or(1)` is 0 exactly when the script exited with code 0; a run killed by a signal counts as 1 (the same rule at src/main.rs:133) |
| Env.Execute | src/redo/target.rs:64-83 | the run ends Built exactly when the script finished with code 0 and its output could be moved, and then only the target's file changes, to that output; every other ending leaves the file system unchanged; a non-zero or absent exit code ends in exit status 1; a script that cannot be spawned is an I/O error; a script that exits with code 0 but leaves no output ends in a failed rename |
| Paths.FinalComponent | src/main.rs:34-35 | a suffix of the path with no '/', preceded by '/' when shorter than the path |
| Paths.Parent | src/redo/target.rs:102 | the path is its parent followed by its final component |
| Paths.FileName | src/main.rs:35 | `file_name` is the final component, and none exists exactly when that component is empty or ".." |
| Paths.LastDot | src/redo/target.rs:102 | the position of the last '.', with no '.' after it, or -1 |
| Paths.Stem | src/redo/target.rs:69 | the stem is a prefix of the name; a shorter stem is non-empty and followed by the last '.'; the stem is the whole name exactly when no '.' follows the first character |
| Paths.FileStem | src/redo/target.rs:69 | `file_stem` exists exactly when `file_name` does, and is its stem |
| Paths.WithExtension | src/redo/target.rs:102 | a path without a file name is unchanged; otherwise the parent, the stem, then "." and the new extension |
| Paths.WithExtensionIsAppendIff | src/redo/target.rs:102 | replacing the extension and appending ".do" give the same script path exactly when the file name has no extension |
| Paths.WithExtensionFileName | src/redo/target.rs:102 | after `with_extension`, the parent is the same and the file name is the stem, ".", and the new extension |
| Paths.WithExtensionKeepsStem | src/redo/target.rs:102 | replacing the extension by one without '.' or '/' keeps the parent and the `file_stem`, so the script `with_extension("do")` names has the target's stem |
| Paths.OutTxtNames | src/main.rs:22 | for `out.txt` the module version's script is `out.do` and its base name `out`; the single-file version's base name is `out.txt` |
| Deps.Dependency.ComputeHash | src/redo/dependency.rs:11-17 | the empty string exactly when the file cannot be opened or read, and otherwise the hash of its contents |
| Deps.Dependency.NeedsUpdate | src/redo/dependency.rs:23-25 | an unreadable file needs an update exactly when a non-empty hash is stored; a readable one exactly when its contents hash to something other than the stored hash |
| Deps.Dependency.UpdateHash | src/redo/dependency.rs:19-21 | the name is kept and the refreshed dependency no longer needs an update on the same files |
| Deps.ComputeHashDependsOnlyOnContents | src/redo/dependency.rs:11-17 | two file systems with the same contents for the name give the same hash and the same staleness |
| Deps.UnreadableWithEmptyHashIsFresh | src/redo/dependency.rs:16 | a missing or unreadable file with an empty stored hash does not need an update |
| Deps.UnreadableWithStoredDigestIsStale | src/redo/dependency.rs:23-25 | a file that became unreadable after a real hash was stored needs an update |
| Deps.ReadableWithEmptyHashIsStale | src/redo/dependency.rs:23-25 | a readable file never hashed before needs an update |
| Targets.Read | src/redo/target.rs:127-130 | the cached targets exactly when the cache is a document; an unreadable cache and a malformed one give their own errors |
| Targets.Lookup | src/redo/target.rs:88-95 | the first cached target with the path, or None exactly when none has it |
| Targets.Write | src/redo/target.rs:132-143 | fails exactly when the cache cannot be read or parsed, with that error; otherwise the cache becomes the upsert of the target |
| Targets.Upsert | src/redo/target.rs:135-139 | the cache grows by at most one, and by one exactly when no entry has the target's path; the target is in the new cache; every old entry with another path keeps its place and value, and every new entry with another path is an old one in the same place (LookupAfterUpsert and the other TargetProperties lemmas state the rest) |
| Targets.WithDependency | src/redo/target.rs:105-113 | the script is among the dependencies; the old list is kept as a prefix; exactly one entry, the script with an empty hash, is appended, and only when the script was missing |
| Targets.Stale | src/redo/target.rs:29-38 | a target is stale exactly when it has no dependency or refreshing its hashes would change its list |
| Targets.LoadedDependencies | src/redo/target.rs:88-97 | the script is among the loaded dependencies; a target the cache does not know gets only its script with an empty hash; a known one keeps its cached dependencies, in order, as a prefix, and gets the script appended, with an empty hash, exactly when the cached dependencies lack it |
| Targets.RefreshAll | src/redo/target.rs:53-55 | the same names in the same order, none of them needing an update |
| Targets.DoFilePath | src/redo/target.rs:101-103 | ends in ".do" after the parent and the stem of the target; a path without a file name is unchanged |
| Targets.Target.constructor | src/redo/target.rs:92-95 | a target with the given path and dependencies |
| Targets.Target.NeedsUpdate | src/redo/target.rs:29-38 | true exactly when the list is empty or some dependency needs an update |
| Targets.Target.EnsureDoDependencyExists | src/redo/target.rs:105-113 | the new list is the old one with the script added when missing |
| Targets.Target.Load | src/redo/target.rs:24-26 | a new target at the given path with the first cached entry's dependencies, or none, plus the script; a cache that is not a document makes `unwrap` panic |
| Targets.Target.Redo | src/redo/target.rs:47-84 | an up-to-date target changes nothing; otherwise every hash is refreshed, the cache is written with the refreshed target (or the read error is returned with nothing changed), and then the script runs; only a run ending Built changes the file system |
| TargetProperties.UpsertReplacesFirstMatch | src/redo/target.rs:135-136 | with a matching path, the first match is replaced, the length is kept and every other entry is unchanged |
| TargetProperties.UpsertAppendsWhenAbsent | src/redo/target.rs:137-139 | without a matching path the target is appended and the length grows by one |
| TargetProperties.LookupAfterUpsert | src/redo/target.rs:132-143 | looking the written target's path up in the written cache yields the written target |
| TargetProperties.LookupOtherAfterUpsert | src/redo/target.rs:132-143 | writing a target changes the lookup of no other path |
| TargetProperties.UpsertIdempotent | src/redo/target.rs:135-139 | writing the same target twice gives the cache that writing it once does |
| TargetProperties.UpsertKeepsPathsUnique | src/redo/target.rs:135-139 | a cache whose paths are unique keeps them unique after a write |
| TargetProperties.WithDependencyIdempotent | src/redo/target.rs:107 | ensuring the script a second time leaves the list unchanged |
| TargetProperties.RefreshedIsUpToDate | src/redo/target.rs:53-55 | after the refresh loop, a target with at least one dependency is not stale on the same files |
| TargetProperties.FirstLoadStaleIffScriptReadable | src/redo/target.rs:92-97 | a target the cache does not know loads with only its script, unhashed, and is stale exactly when the script can be read |
| TargetProperties.RefreshedStaysUpToDate | src/redo/target.rs:29-38 | refreshed dependencies stay up to date when only a file outside them changes |
| TargetProperties.LoadAfterWrite | src/redo/target.rs:86-99 | loading a target after writing it, with the script among its dependencies, gives exactly the written dependencies |
| TargetProperties.RebuildThenUpToDate | src/redo/target.rs:47-84 | after the refresh, the write and a new output at the target path, loading the target again gives the refreshed dependencies and it is up to date, provided it does not depend on itself |
| Legacy.DoFile | src/main.rs:21-31 | the target with ".do" appended, present exactly when that path exists (otherwise the program exits with status 1) |
| Legacy.Basename | src/main.rs:33-40 | the final non-empty component, with no '/', after the target's parent; none (a panic) exactly when the component is empty or ".." |
| Legacy.Read | src/main.rs:42-50 | an absent or unreadable cache gives the empty list; invalid JSON, and only that, panics; a document gives its entries |
| Legacy.Find | src/main.rs:84 | the first entry for the target, or None exactly when there is none |
| Legacy.Hash | src/main.rs:103-108 | a digest of the contents exactly when the file can be read; an error exactly when it is missing or cannot be opened; otherwise a panic |
| Legacy.CheckDependency | src/main.rs:88-92 | a record is fresh exactly when its file can be read and hashes to the stored hash, panics exactly when the file opens but cannot be read, and is stale otherwise |
| Legacy.Scan | src/main.rs:86-97 | the loop is fresh exactly when every record is fresh, and otherwise gives the verdict of the first record that is not fresh |
| Legacy.NeedsUpdateResult | src/main.rs:81-101 | invalid JSON panics; no entry is stale; fresh exactly when the entry has records and every one of them is fresh |
| Legacy.NeedsUpdate | src/main.rs:81-101 | the loop's verdict is the first dependency's that is not fresh, stale for a missing entry or an empty list |
| Legacy.SetHash | src/main.rs:59-68 | one record is appended exactly when no record has the name; the names are kept; records with other names are unchanged; the first record with the name carries the new hash |
| Legacy.Upsert | src/main.rs:55-76 | the cache grows by at most one entry; the target's entry is found after the write, holding its old records (or none) with the hash set; every old entry of another target keeps its place and value, and every new entry of another target is an old one in the same place |
| Legacy.Write | src/main.rs:52-79 | panics exactly when the cache is invalid JSON; otherwise the cache becomes the two-level upsert |
| Legacy.RedoResult | src/main.rs:110-143 | up to date exactly when the check finds every hash unchanged, and then nothing changes; a stale target without script exits with status 1 and changes nothing; a panic in the check, a script that cannot be opened for hashing (an I/O error) or one that cannot be read (a panic) changes nothing at all; otherwise the script's hash is in the cache before the script runs, and then a target with no base name panics and every other ending, and its file system, is what `Execute` gives for the script; a build happens only on exit code 0, moves the output onto the target and changes nothing else in the file system |
| Legacy.Redo | src/main.rs:110-143 | the method's steps give what `RedoResult` states |
| Legacy.RunFrom | src/main.rs:146-148 | the fail-fast fold over the targets stops only at a target, from the given one on, whose step did not end well, and a target whose step does not end well stops it right there with that step's outcome and world |
| Legacy.RedoAll | src/main.rs:145-150 | the loop over the arguments gives the fold of `redo` (the step `Legacy.Step`) that redoes each target in order and stops at the first one not ending well |
| LegacyProperties.WriteUpdatesExistingHash | src/main.rs:55-63 | known target and known dependency: only that record's hash changes |
| LegacyProperties.WriteAppendsDependency | src/main.rs:64-68 | known target and new dependency: the record is appended to that entry's dependencies only |
| LegacyProperties.WriteAppendsEntry | src/main.rs:69-76 | unknown target: an entry with exactly that one dependency is appended |
| LegacyProperties.WriteKeepsOtherTargets | src/main.rs:52-79 | a write changes the lookup of no other target |
| LegacyProperties.HashRecordedAfterWrite | src/main.rs:52-79 | after a write, the target's entry holds the record with the new hash as the first record of that name |
| LegacyProperties.ScanStaleAt | src/main.rs:86-95 | a stale dependency with no panicking one before it makes the loop report stale |
| LegacyProperties.ScanWithoutReadFailures | src/main.rs:88-92 | without a file that opens but cannot be read, the loop never panics |
| LegacyProperties.NeedsUpdateIff | src/main.rs:81-101 | on a readable cache without read failures, stale exactly when there is no entry, or it has no dependency, or some dependency cannot be opened or hashes differently |
| LegacyProperties.RecordedScriptIsFresh | src/main.rs:117 | the entry a first build appends makes its target fresh while the script's contents are unchanged |
| LegacyProperties.FirstBuildThenUpToDate | src/main.rs:110-143 | after a first build of a target the cache did not know, the next `redo` finds it up to date and changes nothing |
| LegacyProperties.SetHashKeepsNamesUnique | src/main.rs:59-68 | records with unique names keep unique names after a write, and then every record with the written name carries the new hash |
| LegacyProperties.BuiltWorld | src/main.rs:116-142 | after `redo` builds a target, its script is `target.do` and readable, the cache holds the upsert of the script's digest, and only the target's file changed |
| LegacyProperties.RehashedEntryFresh | src/main.rs:117 | setting the script's current digest in an entry of the shape the tool writes makes the target fresh while only the target's file changes |
| LegacyProperties.KnownRebuildThenUpToDate | src/main.rs:110-143 | a known target whose entry has unique names and whose records other than the script's are fresh and not the target itself: after a build, the next `redo` finds it up to date and changes nothing (an edited script, rebuilt, is then up to date) |
| LegacyProperties.AllUpToDateChangesNothing | src/main.rs:146-149 | when every target is up to date, the invocation completes and changes nothing |
| LegacyProperties.UpToDateChangesNothing | src/main.rs:111-114 | a target the check finds fresh is reported up to date and its `redo` changes nothing |
| LegacyProperties.StepResultShift | src/main.rs:146-148 | the first step runs in the starting world, and every later step, and the final world, is what the run from the next target gives in the world the first step left |
| LegacyProperties.RunFromCompletesIff | src/main.rs:145-150 | the invocation completes exactly when every step, each run in the world the earlier ones left, ends well, and then it leaves the world the last step left |
| LegacyProperties.RunFromStopsAtFirstFailure | src/main.rs:146-148 | when the invocation stops at target `k`, every earlier step ended well and it reports step `k`'s outcome and the world step `k` left |
| LegacyProperties.FirstFailureStopsRunFrom | src/main.rs:146-148 | conversely, when step `k` is the first one not ending well, the invocation stops at `k` with that step's outcome and world |

## Left out

- MD5 and base16 encoding: the hash is an abstract function from bytes to a non-empty digest, so collisions are not modelled.
- JSON parsing and printing (`serde_json` and the `json` crate), including the `target` alias of the path field: the cache is a list of entries, or "unavailable", or "malformed". Valid JSON of another shape is not modelled. In the single-file version, that would be entries with missing keys or values that are not strings.
- `fs::write` of the cache is assumed to succeed in both versions.
- Creating the temporary output file with `NamedTempFile` is assumed to succeed. The temporary file lives outside the modelled file system, and its removal when the process exits with status 1 is not modelled.
- Spawning `sh` and what the script does: the Runner oracle gives the exit status and the output. The script is assumed to change no file except its temporary output.
- Console output (`println!`, `eprintln!`): it has no effect on the modelled state.
- `std::process::exit(1)` is the outcome `Exited(1)`. It ends that call's result, and in `main` it ends the loop.
- `_program_name` and `env::current_exe` are unused.
- `into_io_result` and `to_str` are type plumbing. The failure of a `to_str` on a path that is not UTF-8 is not modelled, because paths are strings.
- Paths.FileName, Paths.FileStem, Paths.WithExtension and Legacy.Basename: a path ending in '/' or holding a "." component is not normalised the way Rust's `Path` does. For `a.txt/`, Rust's `with_extension("do")` gives `a.do`, while the model sees an empty final component and leaves the path unchanged. For the single-file version, Rust's `basename("dir/")` gives `dir`, while the model's empty final component panics.
- Targets.Lookup, Targets.Upsert, Targets.Write and Targets.Target.EnsureDoDependencyExists compare paths as text. The module version compares `PathBuf`s by component, so `build//out.txt`, `build/out.txt/` and `build/./out.txt` all equal `build/out.txt` there. With a cache entry for `build//out.txt`, loading `build/out.txt` finds that entry in the source but not in the model, and a write replaces it in the source but appends a second entry in the model. The single-file version compares JSON strings, and that comparison is textual, as modelled.
- LegacyProperties.FirstBuildThenUpToDate covers only a target the cache does not know. LegacyProperties.KnownRebuildThenUpToDate covers a known target whose entry has the shape the tool writes. For an arbitrary known entry the property is false: `write` rewrites only the script's record, so a stale record for another file stays stale after the build.
- The cache file is kept apart from the file system, so a dependency named `.redo.json` is not modelled.
- `Path::exists` is true for every path in the file-system map, including one that cannot be opened.
- Concurrency: two runs sharing one cache file are not modelled.
- `env::args().skip(1)`: the argument list is given with the program name already dropped.
- Deps.Dependency.UpdateHash: `&mut self` is a function returning the updated dependency. The refresh loop in `Targets.Target.Redo` stores the result back in its slot.
