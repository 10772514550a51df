/**
 * The module version of the rebuild engine: a target with its ordered
 * dependencies, the cache document that stores targets by path, the staleness
 * rule, and `redo`, which refreshes every hash, persists the target, runs the
 * build script and moves its output onto the target.
 */
module Targets {
  import opened Wrappers
  import opened Seqs
  import opened Env
  import opened Paths
  import opened Deps

  /** A target as the cache document stores it (what `write` clones into the list). */
  datatype CachedTarget = CachedTarget(path: Path, dependencies: seq<Dependency>)

  function PathOf(t: CachedTarget): Path { t.path }

  /** `read`: the cached targets, or the error that reading or parsing the document gives. */
  function Read(cache: CacheFile<CachedTarget>): (r: Result<seq<CachedTarget>, IoError>)
    ensures r.Success? <==> cache.Document?
    ensures r.Success? ==> r.value == cache.entries
    ensures cache.Unavailable? ==> r == Failure(CacheUnreadable)
    ensures cache.Malformed? ==> r == Failure(CacheInvalid)
  {
    match cache
    case Unavailable => Failure(CacheUnreadable)
    case Malformed => Failure(CacheInvalid)
    case Document(entries) => Success(entries)
  }

  /** The first cached target with path `p`, as `find` in `load_from_redo_cache` returns it. */
  function Lookup(entries: seq<CachedTarget>, p: Path): (r: Option<CachedTarget>)
    ensures r.None? <==> forall i :: 0 <= i < |entries| ==> entries[i].path != p
    ensures r.Some? ==> r.value.path == p
    ensures r.Some? ==> exists i :: 0 <= i < |entries| && entries[i] == r.value && forall j :: 0 <= j < i ==> entries[j].path != p
  {
    match FirstIndexOf(entries, PathOf, p)
    case None => None
    // the assertion names the witness of the last ensures
    case Some(i) => assert entries[i] == entries[i]; Some(entries[i])
  }

  /**
   * The cache after `write`: the first entry with the target's path is
   * replaced, or the target is appended. Either way the target is in the
   * cache, and every entry with another path stays where it was.
   */
  function Upsert(entries: seq<CachedTarget>, t: CachedTarget): (r: seq<CachedTarget>)
    ensures |entries| <= |r| <= |entries| + 1
    ensures |r| == |entries| + 1 <==> forall i :: 0 <= i < |entries| ==> entries[i].path != t.path
    ensures exists k :: 0 <= k < |r| && r[k] == t
    ensures forall i :: 0 <= i < |r| && r[i].path != t.path ==> i < |entries| && r[i] == entries[i]
    ensures forall i :: 0 <= i < |entries| && entries[i].path != t.path ==> r[i] == entries[i]
  {
    match FirstIndexOf(entries, PathOf, t.path)
    case Some(k) => assert entries[k := t][k] == t; entries[k := t]
    case None => assert (entries + [t])[|entries|] == t; entries + [t]
  }

  /**
   * `write`: read the document and upsert the target. Writing the document
   * back is assumed to succeed.
   */
  method Write(target: CachedTarget, cache: CacheFile<CachedTarget>) returns (r: Result<seq<CachedTarget>, IoError>)
    ensures r.Failure? <==> !cache.Document?
    ensures r.Failure? ==> r == Failure(Read(cache).error)
    ensures r.Success? ==> r.value == Upsert(cache.entries, target)
  {
    var read := Read(cache);
    if read.Failure? {
      return Failure(read.error);
    }
    var entries := read.value;
    var i := 0;
    while i < |entries|
      invariant 0 <= i <= |entries|
      invariant forall j :: 0 <= j < i ==> entries[j].path != target.path
    {
      if entries[i].path == target.path {
        FirstIndexOfIs(entries, PathOf, target.path, i);
        entries := entries[i := target];
        return Success(entries);
      }
      i := i + 1;
    }
    entries := entries + [target];
    return Success(entries);
  }

  /** Some dependency is named `name`. */
  predicate HasDependency(deps: seq<Dependency>, name: Path) {
    exists i :: 0 <= i < |deps| && deps[i].name == name
  }

  /**
   * The dependencies after `ensure_do_dependency_exists` with script `name`:
   * unchanged when it is already there, otherwise with one entry for it,
   * with an empty hash, appended.
   */
  function WithDependency(deps: seq<Dependency>, name: Path): (r: seq<Dependency>)
    ensures HasDependency(r, name)
    ensures |deps| <= |r| <= |deps| + 1 && r[..|deps|] == deps
    ensures |r| == |deps| + 1 <==> !HasDependency(deps, name)
    ensures |r| == |deps| + 1 ==> r[|deps|] == Dependency(name, "")
  {
    if HasDependency(deps, name) then deps
    else
      var r := deps + [Dependency(name, "")];
      assert r[|deps|].name == name;
      r
  }

  /**
   * The staleness rule: a target with no dependency, or with one whose file
   * changed, must be rebuilt. Equivalently: it is empty, or refreshing its
   * hashes would change something.
   */
  predicate Stale(deps: seq<Dependency>, fs: FileSystem, h: Hasher): (b: bool)
    ensures b <==> |deps| == 0 || RefreshAll(deps, fs, h) != deps
  {
    |deps| == 0 || exists i :: 0 <= i < |deps| && deps[i].NeedsUpdate(fs, h)
  }

  /** Every dependency with its hash brought up to date, in the same order. */
  function RefreshAll(deps: seq<Dependency>, fs: FileSystem, h: Hasher): (r: seq<Dependency>)
    ensures |r| == |deps|
    ensures forall i :: 0 <= i < |r| ==> r[i].name == deps[i].name && !r[i].NeedsUpdate(fs, h)
  {
    seq(|deps|, i requires 0 <= i < |deps| => deps[i].UpdateHash(fs, h))
  }

  /**
   * `do_file_path`: the target path with its extension replaced by "do"; a
   * path without a file name comes back unchanged.
   */
  function DoFilePath(path: Path): (p: Path)
    ensures FileName(path).None? ==> p == path
    ensures FileName(path).Some? ==> |p| >= 3 && p[|p| - 3..] == ".do"
    ensures FileName(path).Some? ==> p[..|p| - 3] == Parent(path) + Stem(FileName(path).value)
  {
    WithExtension(path, "do")
  }

  /**
   * The dependencies `load` gives a target: its cached ones, or none, in
   * order, followed by its build script with an empty hash when that is
   * not among them.
   */
  function LoadedDependencies(entries: seq<CachedTarget>, name: Path): (r: seq<Dependency>)
    ensures HasDependency(r, DoFilePath(name))
    ensures Lookup(entries, name).None? ==> r == [Dependency(DoFilePath(name), "")]
    ensures Lookup(entries, name).Some? ==>
      var cached := Lookup(entries, name).value.dependencies;
      |cached| <= |r| <= |cached| + 1 && r[..|cached|] == cached
    ensures Lookup(entries, name).Some? ==>
      var cached := Lookup(entries, name).value.dependencies;
      (|r| == |cached| <==> HasDependency(cached, DoFilePath(name)))
      && (|r| == |cached| + 1 ==> r[|cached|] == Dependency(DoFilePath(name), ""))
  {
    var cached := match Lookup(entries, name)
      case Some(t) => t.dependencies
      case None => [];
    WithDependency(cached, DoFilePath(name))
  }

  class Target {
    const path: Path
    var dependencies: seq<Dependency>

    constructor (path: Path, dependencies: seq<Dependency>)
      ensures this.path == path && this.dependencies == dependencies
    {
      this.path := path;
      this.dependencies := dependencies;
    }

    /** `needs_update`: true when there is no dependency, or at the first one whose file changed. */
    method NeedsUpdate(fs: FileSystem, h: Hasher) returns (b: bool)
      ensures b == Stale(dependencies, fs, h)
    {
      var atLeastOneIteration := false;
      var i := 0;
      while i < |dependencies|
        invariant 0 <= i <= |dependencies|
        invariant atLeastOneIteration <==> i > 0
        invariant forall j :: 0 <= j < i ==> !dependencies[j].NeedsUpdate(fs, h)
      {
        atLeastOneIteration := true;
        if dependencies[i].NeedsUpdate(fs, h) {
          return true;
        }
        i := i + 1;
      }
      return !atLeastOneIteration;
    }

    /** `ensure_do_dependency_exists`: the build script is always one of the dependencies. */
    method EnsureDoDependencyExists()
      modifies this
      ensures dependencies == WithDependency(old(dependencies), DoFilePath(path))
    {
      var doPath := DoFilePath(path);
      var i := 0;
      while i < |dependencies|
        invariant 0 <= i <= |dependencies|
        invariant forall j :: 0 <= j < i ==> dependencies[j].name != doPath
      {
        if dependencies[i].name == doPath {
          return;
        }
        i := i + 1;
      }
      dependencies := dependencies + [Dependency(doPath, "")];
    }

    /**
     * `load` (through `load_from_redo_cache`): the first cached target with this
     * path, or a fresh one without dependencies, with its build script ensured.
     * None: the cache document cannot be read or parsed and `unwrap` panics.
     */
    static method Load(cache: CacheFile<CachedTarget>, name: Path) returns (r: Option<Target>)
      ensures r.Some? <==> cache.Document?
      ensures r.Some? ==> fresh(r.value)
      ensures r.Some? ==> r.value.path == name && r.value.dependencies == LoadedDependencies(cache.entries, name)
    {
      var read := Read(cache);
      if read.Failure? {
        return None;
      }
      var t: Target;
      match Lookup(read.value, name) {
        case Some(cached) => t := new Target(cached.path, cached.dependencies);
        case None => t := new Target(name, []);
      }
      t.EnsureDoDependencyExists();
      return Some(t);
    }

    /**
     * `redo`: an up-to-date target changes nothing. Otherwise every hash is
     * refreshed and the target written to the cache, and only then the script
     * runs; its output replaces the target only on exit code 0, every other
     * ending leaves the file system as it was.
     */
    method Redo(world: World<CachedTarget>, h: Hasher, runner: Runner) returns (outcome: Outcome, world': World<CachedTarget>)
      modifies this
      ensures !Stale(old(dependencies), world.fs, h) ==>
        outcome == UpToDate && world' == world && dependencies == old(dependencies)
      ensures Stale(old(dependencies), world.fs, h) ==>
        dependencies == RefreshAll(old(dependencies), world.fs, h)
      ensures Stale(old(dependencies), world.fs, h) && !world.cache.Document? ==>
        outcome == Failed(Read(world.cache).error) && world' == world
      ensures Stale(old(dependencies), world.fs, h) && world.cache.Document? ==>
        world'.cache == Document(Upsert(world.cache.entries, CachedTarget(path, dependencies)))
      ensures Stale(old(dependencies), world.fs, h) && world.cache.Document? ==>
        (outcome, world'.fs) == match FileStem(path)
          case None => (Panicked, world.fs)
          case Some(stem) => Execute(world.fs, runner, DoFilePath(path), stem, path)
      ensures !outcome.Built? ==> world'.fs == world.fs
    {
      var stale := NeedsUpdate(world.fs, h);
      if !stale {
        return UpToDate, world;
      }
      var i := 0;
      while i < |dependencies|
        invariant 0 <= i <= |dependencies| == |old(dependencies)|
        invariant forall j :: 0 <= j < i ==> dependencies[j] == old(dependencies)[j].UpdateHash(world.fs, h)
        invariant forall j :: i <= j < |dependencies| ==> dependencies[j] == old(dependencies)[j]
      {
        dependencies := dependencies[i := dependencies[i].UpdateHash(world.fs, h)];
        i := i + 1;
      }
      assert dependencies == RefreshAll(old(dependencies), world.fs, h);
      var doFile := DoFilePath(path);
      var written := Write(CachedTarget(path, dependencies), world.cache);
      if written.Failure? {
        return Failed(written.error), world;
      }
      world' := World(world.fs, Document(written.value));
      var stem := FileStem(path);
      if stem.None? {
        // `file_stem().unwrap()` panics after the cache was written
        return Panicked, world';
      }
      var executed := Execute(world.fs, runner, doFile, stem.value, path);
      outcome := executed.0;
      world' := world'.(fs := executed.1);
    }
  }
}
