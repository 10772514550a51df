/**
 * The single-file version of the build tool. Its cache is a JSON array of
 * `{ target, dependencies: [{ name, hash }] }` objects read with absent
 * meaning empty; it records only the build script's hash, names the script
 * by appending ".do", and processes its arguments one by one, stopping at the
 * first failure.
 */
module Legacy {
  import opened Wrappers
  import opened Seqs
  import opened Env
  import opened Paths

  /** One `{ name, hash }` object of an entry's "dependencies" array. */
  datatype Record = Record(name: string, hash: string)

  /** One `{ target, dependencies }` object of the cache's top-level array. */
  datatype Entry = Entry(target: string, dependencies: seq<Record>)

  function TargetOf(e: Entry): string { e.target }
  function NameOf(r: Record): string { r.name }

  /** The script path: the target with ".do" appended. None: it does not exist and the program exits with status 1. */
  function DoFile(fs: FileSystem, target: string): (r: Option<Path>)
    ensures r.Some? <==> target + ".do" in fs
    ensures r.Some? ==> |r.value| == |target| + 3 && r.value[..|target|] == target && r.value[|target|..] == ".do"
  {
    var script := target + ".do";
    if script in fs then Some(script) else None
  }

  /** `basename`: the final path component. None: there is none and `unwrap` panics. */
  function Basename(target: string): (r: Option<string>)
    ensures r.Some? ==> target == Parent(target) + r.value
    ensures r.Some? ==> r.value != "" && forall i :: 0 <= i < |r.value| ==> r.value[i] != '/'
    ensures r.None? <==> FinalComponent(target) == "" || FinalComponent(target) == ".."
  {
    FileName(target)
  }

  /** `read`: an unreadable or absent cache is an empty array. None: not valid JSON, and it panics. */
  function Read(cache: CacheFile<Entry>): (r: Option<seq<Entry>>)
    ensures cache.Unavailable? ==> r == Some([])
    ensures cache.Malformed? <==> r.None?
    ensures cache.Document? ==> r == Some(cache.entries)
  {
    match cache
    case Unavailable => Some([])
    case Malformed => None
    case Document(entries) => Some(entries)
  }

  /** The first entry for `target`. */
  function Find(entries: seq<Entry>, target: string): (r: Option<Entry>)
    ensures r.None? <==> forall i :: 0 <= i < |entries| ==> entries[i].target != target
    ensures r.Some? ==> r.value.target == target
    ensures r.Some? ==> exists k :: 0 <= k < |entries| && entries[k] == r.value && forall j :: 0 <= j < k ==> entries[j].target != target
  {
    match FirstIndexOf(entries, TargetOf, target)
    case None => None
    // the assertion names the witness of the last ensures
    case Some(k) => assert entries[k] == entries[k]; Some(entries[k])
  }

  /** What `hash(path)` does: a digest, an `Err` when the file cannot be opened, or a panic when reading it fails. */
  datatype HashResult = Hashed(digest: Digest) | CannotOpen | ReadPanics

  function Hash(fs: FileSystem, h: Hasher, path: Path): (r: HashResult)
    ensures r.Hashed? <==> ReadAll(fs, path).Some?
    ensures r.Hashed? ==> r.digest == h(ReadAll(fs, path).value)
    ensures r.CannotOpen? <==> path !in fs || fs[path].OpenFails?
  {
    if path !in fs then CannotOpen
    else
      match fs[path]
      case Readable(contents) => Hashed(h(contents))
      case OpenFails => CannotOpen
      case ReadFails => ReadPanics
  }

  /** The verdict of the staleness check; Panics when a hash computation panics. */
  datatype Check = Fresh | Stale | Panics

  /**
   * One turn of the dependency loop: fresh exactly when the file can be read
   * and hashes to the stored hash; a panic exactly when it opens but cannot
   * be read; stale otherwise (missing, not openable, or changed).
   */
  function CheckDependency(fs: FileSystem, h: Hasher, d: Record): (c: Check)
    ensures c == Fresh <==> ReadAll(fs, d.name).Some? && h(ReadAll(fs, d.name).value) == d.hash
    ensures c == Panics <==> d.name in fs && fs[d.name].ReadFails?
  {
    match Hash(fs, h, d.name)
    case CannotOpen => Stale
    case ReadPanics => Panics
    case Hashed(digest) => if digest != d.hash then Stale else Fresh
  }

  /**
   * The loop over the dependencies: fresh exactly when every dependency is,
   * and otherwise the verdict of the first one that is not fresh.
   */
  function Scan(fs: FileSystem, h: Hasher, deps: seq<Record>): (c: Check)
    ensures c == Fresh <==> forall i :: 0 <= i < |deps| ==> CheckDependency(fs, h, deps[i]) == Fresh
    ensures c != Fresh ==> exists i :: 0 <= i < |deps| && CheckDependency(fs, h, deps[i]) == c
                                     && forall j :: 0 <= j < i ==> CheckDependency(fs, h, deps[j]) == Fresh
    decreases |deps|
  {
    if deps == [] then Fresh
    else
      var c := CheckDependency(fs, h, deps[0]);
      if c != Fresh then c
      else
        assert forall i :: 1 <= i < |deps| ==> deps[i] == deps[1..][i - 1];
        Scan(fs, h, deps[1..])
  }

  /**
   * `needs_update`: invalid JSON panics; no entry or an entry without
   * dependencies is stale; fresh exactly when the entry has dependencies and
   * every one of them is fresh.
   */
  function NeedsUpdateResult(fs: FileSystem, h: Hasher, cache: CacheFile<Entry>, target: string): (c: Check)
    ensures cache.Malformed? ==> c == Panics
    ensures !cache.Malformed? && Find(Read(cache).value, target).None? ==> c == Stale
    ensures c == Fresh <==>
      && !cache.Malformed?
      && Find(Read(cache).value, target).Some?
      && var deps := Find(Read(cache).value, target).value.dependencies;
         deps != [] && forall i :: 0 <= i < |deps| ==> CheckDependency(fs, h, deps[i]) == Fresh
  {
    match Read(cache)
    case None => Panics
    case Some(entries) =>
      match Find(entries, target)
      case None => Stale
      case Some(entry) => if entry.dependencies == [] then Stale else Scan(fs, h, entry.dependencies)
  }

  method NeedsUpdate(fs: FileSystem, h: Hasher, cache: CacheFile<Entry>, target: string) returns (c: Check)
    ensures c == NeedsUpdateResult(fs, h, cache, target)
  {
    var entries := Read(cache);
    if entries.None? {
      return Panics;
    }
    var found := Find(entries.value, target);
    if found.None? {
      return Stale;
    }
    var deps := found.value.dependencies;
    var atLeastOneIteration := false;
    var i := 0;
    while i < |deps|
      invariant 0 <= i <= |deps|
      invariant atLeastOneIteration <==> i > 0
      invariant Scan(fs, h, deps) == Scan(fs, h, deps[i..])
    {
      atLeastOneIteration := true;
      assert deps[i..][1..] == deps[i + 1..];
      var check := CheckDependency(fs, h, deps[i]);
      if check != Fresh {
        return check;
      }
      i := i + 1;
    }
    return if atLeastOneIteration then Fresh else Stale;
  }

  /**
   * The dependencies after setting `name`'s hash: the first record with that
   * name changes, or one is appended. The names stay as they were, every
   * record with another name is unchanged, and the first record named `name`
   * carries `hash`.
   */
  function SetHash(deps: seq<Record>, name: string, hash: string): (r: seq<Record>)
    ensures |deps| <= |r| <= |deps| + 1
    ensures |r| == |deps| + 1 <==> forall i :: 0 <= i < |deps| ==> deps[i].name != name
    ensures forall i :: 0 <= i < |deps| ==> r[i].name == deps[i].name
    ensures |r| == |deps| + 1 ==> r[|deps|] == Record(name, hash)
    ensures forall i :: 0 <= i < |deps| && deps[i].name != name ==> r[i] == deps[i]
    ensures exists j :: 0 <= j < |r| && r[j] == Record(name, hash) && forall i :: 0 <= i < j ==> r[i].name != name
  {
    match FirstIndexOf(deps, NameOf, name)
    case Some(j) =>
      var r := deps[j := deps[j].(hash := hash)];
      assert r[j] == Record(name, hash);
      r
    case None =>
      var r := deps + [Record(name, hash)];
      assert r[|deps|] == Record(name, hash);
      r
  }

  /**
   * The cache after `write(target, name, hash)`: the two-level upsert. The
   * target's entry is found with its dependencies, or none, after SetHash;
   * every entry of another target stays where it was.
   */
  function Upsert(entries: seq<Entry>, target: string, name: string, hash: string): (r: seq<Entry>)
    ensures |entries| <= |r| <= |entries| + 1
    ensures forall i :: 0 <= i < |r| && r[i].target != target ==> i < |entries| && r[i] == entries[i]
    ensures forall i :: 0 <= i < |entries| && entries[i].target != target ==> r[i] == entries[i]
    ensures var known := if Find(entries, target).Some? then Find(entries, target).value.dependencies else [];
      Find(r, target) == Some(Entry(target, SetHash(known, name, hash)))
  {
    match FirstIndexOf(entries, TargetOf, target)
    case Some(k) =>
      var r := entries[k := entries[k].(dependencies := SetHash(entries[k].dependencies, name, hash))];
      assert forall i :: 0 <= i < k ==> TargetOf(r[i]) != target by {
        forall i | 0 <= i < k ensures TargetOf(r[i]) != target {
          assert r[i] == entries[i];
        }
      }
      FirstIndexOfIs(r, TargetOf, target, k);
      r
    case None =>
      var r := entries + [Entry(target, [Record(name, hash)])];
      assert forall i :: 0 <= i < |entries| ==> TargetOf(r[i]) != target by {
        forall i | 0 <= i < |entries| ensures TargetOf(r[i]) != target {
          assert r[i] == entries[i];
        }
      }
      assert TargetOf(r[|entries|]) == target;
      FirstIndexOfIs(r, TargetOf, target, |entries|);
      assert SetHash([], name, hash) == [Record(name, hash)];
      r
  }

  /**
   * `write`: read the cache and record `hash` for dependency `name` of
   * `target`. None: the cache is not valid JSON and reading it panics.
   * Writing the document back is assumed to succeed.
   */
  method Write(cache: CacheFile<Entry>, target: string, name: string, hash: string) returns (r: Option<seq<Entry>>)
    ensures r.None? <==> cache.Malformed?
    ensures r.Some? ==> r.value == Upsert(Read(cache).value, target, name, hash)
  {
    var read := Read(cache);
    if read.None? {
      return None;
    }
    var entries := read.value;
    var k := 0;
    while k < |entries| && entries[k].target != target
      invariant 0 <= k <= |entries|
      invariant forall j :: 0 <= j < k ==> entries[j].target != target
    {
      k := k + 1;
    }
    if k < |entries| {
      FirstIndexOfIs(entries, TargetOf, target, k);
      var deps := entries[k].dependencies;
      var i := 0;
      while i < |deps| && deps[i].name != name
        invariant 0 <= i <= |deps|
        invariant forall j :: 0 <= j < i ==> deps[j].name != name
      {
        i := i + 1;
      }
      if i < |deps| {
        FirstIndexOfIs(deps, NameOf, name, i);
        deps := deps[i := deps[i].(hash := hash)];
      } else {
        assert forall j :: 0 <= j < |deps| ==> NameOf(deps[j]) != name;
        deps := deps + [Record(name, hash)];
      }
      entries := entries[k := entries[k].(dependencies := deps)];
    } else {
      assert forall j :: 0 <= j < |entries| ==> TargetOf(entries[j]) != target;
      entries := entries + [Entry(target, [Record(name, hash)])];
    }
    return Some(entries);
  }

  /**
   * `redo(target)`: nothing happens to an up-to-date target. Otherwise the
   * script must exist, its hash is written to the cache, and then the script
   * runs; its output replaces the target only on exit code 0.
   */
  function RedoResult(world: World<Entry>, h: Hasher, runner: Runner, target: string): (r: (Outcome, World<Entry>))
    ensures r.0 == UpToDate <==> NeedsUpdateResult(world.fs, h, world.cache, target) == Fresh
    ensures r.0 == UpToDate ==> r.1 == world
    ensures NeedsUpdateResult(world.fs, h, world.cache, target) == Stale && DoFile(world.fs, target).None? ==>
      r == (Exited(1), world)
    // the script's hash is in the cache before the script runs, whatever the script then does
    ensures NeedsUpdateResult(world.fs, h, world.cache, target) == Stale && DoFile(world.fs, target).Some?
            && Hash(world.fs, h, DoFile(world.fs, target).value).Hashed? ==>
      r.1.cache == Document(Upsert(Read(world.cache).value, target, DoFile(world.fs, target).value,
                                   Hash(world.fs, h, DoFile(world.fs, target).value).digest))
    // a panic in the staleness check, or an error or panic from `hash`, changes nothing
    ensures NeedsUpdateResult(world.fs, h, world.cache, target) == Panics ==> r == (Panicked, world)
    ensures NeedsUpdateResult(world.fs, h, world.cache, target) == Stale && DoFile(world.fs, target).Some?
            && Hash(world.fs, h, DoFile(world.fs, target).value).CannotOpen? ==>
      r == (Failed(OpenFailed), world)
    ensures NeedsUpdateResult(world.fs, h, world.cache, target) == Stale && DoFile(world.fs, target).Some?
            && Hash(world.fs, h, DoFile(world.fs, target).value).ReadPanics? ==>
      r == (Panicked, world)
    // once the hash is written: `basename` panics, or the script runs as Execute says
    ensures NeedsUpdateResult(world.fs, h, world.cache, target) == Stale && DoFile(world.fs, target).Some?
            && Hash(world.fs, h, DoFile(world.fs, target).value).Hashed? ==>
      (r.0, r.1.fs) == match Basename(target)
        case None => (Panicked, world.fs)
        case Some(base) => Execute(world.fs, runner, DoFile(world.fs, target).value, base, target)
    ensures !r.0.Built? ==> r.1.fs == world.fs
    ensures r.0.Built? ==> NeedsUpdateResult(world.fs, h, world.cache, target) == Stale
    ensures r.0.Built? ==> DoFile(world.fs, target).Some? && Basename(target).Some?
    ensures r.0.Built? ==> Hash(world.fs, h, DoFile(world.fs, target).value).Hashed?
    ensures r.0.Built? ==>
      var run := runner(DoFile(world.fs, target).value, Basename(target).value, world.fs);
      run.status == Finished(Some(0)) && run.output.Some? && r.1.fs == world.fs[target := Readable(run.output.value)]
  {
    match NeedsUpdateResult(world.fs, h, world.cache, target)
    case Panics => (Panicked, world)
    case Fresh => (UpToDate, world)
    case Stale =>
      match DoFile(world.fs, target)
      case None => (Exited(1), world)
      case Some(script) =>
        match Hash(world.fs, h, script)
        case CannotOpen => (Failed(OpenFailed), world)
        case ReadPanics => (Panicked, world)
        case Hashed(digest) =>
          match Read(world.cache)
          case None => (Panicked, world)
          case Some(entries) =>
            var persisted := World(world.fs, Document(Upsert(entries, target, script, digest)));
            match Basename(target)
            case None => (Panicked, persisted)
            case Some(base) =>
              var executed := Execute(world.fs, runner, script, base, target);
              (executed.0, persisted.(fs := executed.1))
  }

  method Redo(world: World<Entry>, h: Hasher, runner: Runner, target: string) returns (outcome: Outcome, world': World<Entry>)
    ensures (outcome, world') == RedoResult(world, h, runner, target)
  {
    var stale := NeedsUpdate(world.fs, h, world.cache, target);
    if stale == Panics {
      return Panicked, world;
    }
    if stale == Fresh {
      return UpToDate, world;
    }
    var script := DoFile(world.fs, target);
    if script.None? {
      return Exited(1), world;
    }
    var hash := Hash(world.fs, h, script.value);
    if hash.CannotOpen? {
      return Failed(OpenFailed), world;
    }
    if hash.ReadPanics? {
      return Panicked, world;
    }
    var written := Write(world.cache, target, script.value, hash.digest);
    if written.None? {
      return Panicked, world;
    }
    world' := World(world.fs, Document(written.value));
    var base := Basename(target);
    if base.None? {
      return Panicked, world';
    }
    var executed := Execute(world.fs, runner, script.value, base.value, target);
    outcome := executed.0;
    world' := world'.(fs := executed.1);
  }

  /** How the whole invocation ends: every target done, or stopped at the target with this index. */
  datatype Exit = Completed | Stopped(index: nat, outcome: Outcome)

  /** One step of the invocation: the world after `redo` of one target, as a function value. */
  type StepFn = (World<Entry>, string) -> (Outcome, World<Entry>)

  /** The step `main` takes for each argument: `redo` with this hasher and these scripts. */
  function Step(h: Hasher, runner: Runner): (step: StepFn)
    ensures forall w, t :: step(w, t) == RedoResult(w, h, runner, t)
  {
    (w: World<Entry>, t: string) => RedoResult(w, h, runner, t)
  }

  /** `main` from argument `i` on: each target in order, stopping at the first one that does not end well. */
  function RunFrom(step: StepFn, world: World<Entry>, targets: seq<string>, i: nat): (r: (Exit, World<Entry>))
    requires i <= |targets|
    // the invocation stops only at a target whose step did not end well
    ensures r.0.Stopped? ==> i <= r.0.index < |targets| && !r.0.outcome.IsOk()
    // and a target whose step does not end well stops it there
    ensures i < |targets| && !step(world, targets[i]).0.IsOk() ==>
      r == (Stopped(i, step(world, targets[i]).0), step(world, targets[i]).1)
    decreases |targets| - i
  {
    if i == |targets| then (Completed, world)
    else
      var result := step(world, targets[i]);
      if !result.0.IsOk() then (Stopped(i, result.0), result.1)
      else RunFrom(step, result.1, targets, i + 1)
  }

  /** `main`: `redo` each target named on the command line, in order, up to the first failure. */
  method RedoAll(world: World<Entry>, h: Hasher, runner: Runner, targets: seq<string>) returns (exit: Exit, world': World<Entry>)
    ensures (exit, world') == RunFrom(Step(h, runner), world, targets, 0)
  {
    world' := world;
    var i := 0;
    while i < |targets|
      invariant 0 <= i <= |targets|
      invariant RunFrom(Step(h, runner), world, targets, 0) == RunFrom(Step(h, runner), world', targets, i)
    {
      var outcome;
      outcome, world' := Redo(world', h, runner, targets[i]);
      if !outcome.IsOk() {
        return Stopped(i, outcome), world';
      }
      i := i + 1;
    }
    return Completed, world';
  }
}
