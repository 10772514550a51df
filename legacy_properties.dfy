/**
 * What the single-file version's cache update, staleness check, `redo` and
 * argument loop promise, stated over the specification functions of module
 * Legacy.
 */
module LegacyProperties {
  import opened Wrappers
  import opened Seqs
  import opened Env
  import opened Paths
  import opened Legacy

  /** `write`, known target and known dependency: only that dependency's hash changes. */
  lemma WriteUpdatesExistingHash(entries: seq<Entry>, target: string, name: string, hash: string, k: nat, j: nat)
    requires k < |entries| && entries[k].target == target
    requires forall i :: 0 <= i < k ==> entries[i].target != target
    requires j < |entries[k].dependencies| && entries[k].dependencies[j].name == name
    requires forall i :: 0 <= i < j ==> entries[k].dependencies[i].name != name
    ensures Upsert(entries, target, name, hash)
         == entries[k := Entry(target, entries[k].dependencies[j := Record(name, hash)])]
  {
    FirstIndexOfIs(entries, TargetOf, target, k);
    FirstIndexOfIs(entries[k].dependencies, NameOf, name, j);
  }

  /** `write`, known target and new dependency: `{ name, hash }` is appended to that entry's dependencies. */
  lemma WriteAppendsDependency(entries: seq<Entry>, target: string, name: string, hash: string, k: nat)
    requires k < |entries| && entries[k].target == target
    requires forall i :: 0 <= i < k ==> entries[i].target != target
    requires forall i :: 0 <= i < |entries[k].dependencies| ==> entries[k].dependencies[i].name != name
    ensures Upsert(entries, target, name, hash)
         == entries[k := Entry(target, entries[k].dependencies + [Record(name, hash)])]
  {
    FirstIndexOfIs(entries, TargetOf, target, k);
    var deps := entries[k].dependencies;
    assert forall i :: 0 <= i < |deps| ==> NameOf(deps[i]) != name;
  }

  /** `write`, unknown target: an entry with exactly one dependency is appended. */
  lemma WriteAppendsEntry(entries: seq<Entry>, target: string, name: string, hash: string)
    requires forall i :: 0 <= i < |entries| ==> entries[i].target != target
    ensures Upsert(entries, target, name, hash) == entries + [Entry(target, [Record(name, hash)])]
  {
    assert forall i :: 0 <= i < |entries| ==> TargetOf(entries[i]) != target;
  }

  /** `write` leaves what every other target looks up to unchanged. */
  lemma WriteKeepsOtherTargets(entries: seq<Entry>, target: string, name: string, hash: string, other: string)
    requires other != target
    ensures Find(Upsert(entries, target, name, hash), other) == Find(entries, other)
  {
    var r := Upsert(entries, target, name, hash);
    assert forall j :: 0 <= j < |r| && r[j].target == other ==> j < |entries| && r[j] == entries[j];
    match FirstIndexOf(entries, TargetOf, other)
    case Some(i) =>
      assert TargetOf(r[i]) == other by {
        assert r[i] == entries[i];
      }
      FirstIndexOfIs(r, TargetOf, other, i);
    case None =>
      assert forall j :: 0 <= j < |r| ==> TargetOf(r[j]) != other;
  }

  /** After `write`, the target's entry holds the new hash as the first record with that name. */
  lemma HashRecordedAfterWrite(entries: seq<Entry>, target: string, name: string, hash: string)
    ensures var r := Upsert(entries, target, name, hash);
      Find(r, target).Some?
      && var deps := Find(r, target).value.dependencies;
      exists j :: 0 <= j < |deps| && deps[j] == Record(name, hash) && forall i :: 0 <= i < j ==> deps[i].name != name
  {
    var r := Upsert(entries, target, name, hash);
    match FirstIndexOf(entries, TargetOf, target)
    case Some(k) =>
      var deps := entries[k].dependencies;
      var deps' := SetHash(deps, name, hash);
      assert r[k] == Entry(target, deps');
      assert forall i :: 0 <= i < k ==> TargetOf(r[i]) != target by {
        forall i | 0 <= i < k ensures TargetOf(r[i]) != target {
          assert r[i] == entries[i];
        }
      }
      FirstIndexOfIs(r, TargetOf, target, k);
      match FirstIndexOf(deps, NameOf, name) {
      case Some(j) =>
        assert deps'[j] == Record(name, hash);
        assert forall i :: 0 <= i < j ==> deps'[i].name != name by {
          forall i | 0 <= i < j ensures deps'[i].name != name {
            assert deps'[i] == deps[i] && NameOf(deps[i]) != name;
          }
        }
      case None =>
        assert deps'[|deps|] == Record(name, hash);
        assert forall i :: 0 <= i < |deps| ==> deps'[i].name != name by {
          forall i | 0 <= i < |deps| ensures deps'[i].name != name {
            assert deps'[i] == deps[i] && NameOf(deps[i]) != name;
          }
        }
      }
    case None =>
      assert r == entries + [Entry(target, [Record(name, hash)])];
      assert forall i :: 0 <= i < |entries| ==> TargetOf(r[i]) != target by {
        forall i | 0 <= i < |entries| ensures TargetOf(r[i]) != target {
          assert r[i] == entries[i];
        }
      }
      assert TargetOf(r[|entries|]) == target;
      FirstIndexOfIs(r, TargetOf, target, |entries|);
      assert Find(r, target).value.dependencies[0] == Record(name, hash);
  }

  /** A stale dependency with no panicking one before it makes the scan stale. */
  lemma {:induction false} ScanStaleAt(fs: FileSystem, h: Hasher, deps: seq<Record>, i: nat)
    requires i < |deps| && CheckDependency(fs, h, deps[i]) == Stale
    requires forall j :: 0 <= j < i ==> CheckDependency(fs, h, deps[j]) != Panics
    ensures Scan(fs, h, deps) == Stale
    decreases i
  {
    if i > 0 && CheckDependency(fs, h, deps[0]) == Fresh {
      ScanStaleAt(fs, h, deps[1..], i - 1);
    }
  }

  /** Without a dependency that opens but cannot be read, the scan never panics. */
  lemma {:induction false} ScanWithoutReadFailures(fs: FileSystem, h: Hasher, deps: seq<Record>)
    requires forall i :: 0 <= i < |deps| ==> !Hash(fs, h, deps[i].name).ReadPanics?
    ensures Scan(fs, h, deps) != Panics
    decreases |deps|
  {
    if deps != [] {
      assert forall i :: 0 <= i < |deps| - 1 ==> deps[1..][i] == deps[i + 1];
      ScanWithoutReadFailures(fs, h, deps[1..]);
    }
  }

  /**
   * `needs_update` for a readable cache whose dependency files open and read
   * normally: true exactly when the target has no entry, the entry has no
   * dependency, or some dependency cannot be opened or has a different hash;
   * false exactly when every dependency's hash still matches.
   */
  lemma {:induction false} NeedsUpdateIff(fs: FileSystem, h: Hasher, cache: CacheFile<Entry>, target: string)
    requires !cache.Malformed?
    requires Find(Read(cache).value, target).Some? ==>
      var deps := Find(Read(cache).value, target).value.dependencies;
      forall i :: 0 <= i < |deps| ==> !Hash(fs, h, deps[i].name).ReadPanics?
    ensures NeedsUpdateResult(fs, h, cache, target) != Panics
    ensures NeedsUpdateResult(fs, h, cache, target) == Stale <==>
      || Find(Read(cache).value, target).None?
      || Find(Read(cache).value, target).value.dependencies == []
      || exists i :: 0 <= i < |Find(Read(cache).value, target).value.dependencies|
                   && CheckDependency(fs, h, Find(Read(cache).value, target).value.dependencies[i]) == Stale
  {
    var found := Find(Read(cache).value, target);
    if found.Some? {
      var deps := found.value.dependencies;
      ScanWithoutReadFailures(fs, h, deps);
      if exists i :: 0 <= i < |deps| && CheckDependency(fs, h, deps[i]) == Stale {
        var i :| 0 <= i < |deps| && CheckDependency(fs, h, deps[i]) == Stale;
        assert forall j :: 0 <= j < i ==> CheckDependency(fs, h, deps[j]) != Panics;
        ScanStaleAt(fs, h, deps, i);
      }
    }
  }

  /** The entry a first build appends makes its target fresh while the script is unchanged. */
  lemma {:induction false} RecordedScriptIsFresh(entries: seq<Entry>, fs: FileSystem, h: Hasher, target: string, script: Path, state: FileState)
    requires script != target
    requires forall i :: 0 <= i < |entries| ==> entries[i].target != target
    requires ReadAll(fs, script).Some?
    ensures var entry := Entry(target, [Record(script, h(ReadAll(fs, script).value))]);
      NeedsUpdateResult(fs[target := state], h, Document(entries + [entry]), target) == Fresh
  {
    var record := Record(script, h(ReadAll(fs, script).value));
    var entries' := entries + [Entry(target, [record])];
    var fs' := fs[target := state];
    assert forall i :: 0 <= i < |entries| ==> TargetOf(entries'[i]) != target by {
      forall i | 0 <= i < |entries| ensures TargetOf(entries'[i]) != target {
        assert entries'[i] == entries[i];
      }
    }
    assert TargetOf(entries'[|entries|]) == target;
    FirstIndexOfIs(entries', TargetOf, target, |entries|);
    assert Find(entries', target) == Some(Entry(target, [record]));
    assert ReadAll(fs', script) == ReadAll(fs, script);
    assert CheckDependency(fs', h, record) == Fresh;
    assert Scan(fs', h, [record]) == Fresh by {
      assert [record][1..] == [];
    }
  }

  /**
   * A first build settles a target: when the cache has no entry for it and
   * `redo` builds it, the next `redo` with no file changed in between finds it
   * up to date and changes nothing, whatever the script would do.
   */
  lemma {:induction false} FirstBuildThenUpToDate(world: World<Entry>, h: Hasher, runner: Runner, runner': Runner, target: string)
    requires Read(world.cache).Some? && Find(Read(world.cache).value, target).None?
    requires RedoResult(world, h, runner, target).0 == Built
    ensures var after := RedoResult(world, h, runner, target).1;
      RedoResult(after, h, runner', target) == (UpToDate, after)
  {
    var after := RedoResult(world, h, runner, target).1;
    var entries := Read(world.cache).value;
    var script := DoFile(world.fs, target).value;
    var digest := Hash(world.fs, h, script).digest;
    assert |script| == |target| + 3;
    WriteAppendsEntry(entries, target, script, digest);
    assert after.cache == Document(entries + [Entry(target, [Record(script, digest)])]);
    var run := runner(script, Basename(target).value, world.fs);
    assert after.fs == world.fs[target := Readable(run.output.value)];
    RecordedScriptIsFresh(entries, world.fs, h, target, script, Readable(run.output.value));
  }

  /** The records the tool writes have unique names: `write` never appends a name that is already there. */
  ghost predicate UniqueNames(deps: seq<Record>) {
    forall i, j :: 0 <= i < j < |deps| ==> deps[i].name != deps[j].name
  }

  /** Setting a hash keeps names unique, and then every record with that name carries the new hash. */
  lemma {:induction false} SetHashKeepsNamesUnique(deps: seq<Record>, name: string, hash: string)
    requires UniqueNames(deps)
    ensures UniqueNames(SetHash(deps, name, hash))
    ensures forall i :: 0 <= i < |SetHash(deps, name, hash)| && SetHash(deps, name, hash)[i].name == name ==>
      SetHash(deps, name, hash)[i] == Record(name, hash)
  {
    var r := SetHash(deps, name, hash);
    forall i, j | 0 <= i < j < |r| ensures r[i].name != r[j].name {
      if j < |deps| {
        assert r[i].name == deps[i].name && r[j].name == deps[j].name;
      } else {
        assert r[j] == Record(name, hash) && r[i].name == deps[i].name;
      }
    }
    var k :| 0 <= k < |r| && r[k] == Record(name, hash) && forall i :: 0 <= i < k ==> r[i].name != name;
    forall i | 0 <= i < |r| && r[i].name == name ensures r[i] == Record(name, hash) {
      assert i == k;
    }
  }

  /**
   * Records of the shape the tool writes, with the script's hash set to its
   * current digest, are all fresh once only the target's own file changes.
   */
  lemma {:induction false} RehashedRecordsFresh(deps: seq<Record>, fs: FileSystem, h: Hasher, target: string, script: Path, state: FileState)
    requires script != target && ReadAll(fs, script).Some?
    requires UniqueNames(deps)
    requires forall i :: 0 <= i < |deps| && deps[i].name != script ==>
      deps[i].name != target && CheckDependency(fs, h, deps[i]) == Fresh
    ensures var deps' := SetHash(deps, script, h(ReadAll(fs, script).value));
      deps' != [] && forall i :: 0 <= i < |deps'| ==> CheckDependency(fs[target := state], h, deps'[i]) == Fresh
  {
    var digest := h(ReadAll(fs, script).value);
    var deps' := SetHash(deps, script, digest);
    var fs' := fs[target := state];
    SetHashKeepsNamesUnique(deps, script, digest);
    forall i | 0 <= i < |deps'| ensures CheckDependency(fs', h, deps'[i]) == Fresh {
      if deps'[i].name == script {
        assert deps'[i] == Record(script, digest);
        assert ReadAll(fs', script) == ReadAll(fs, script);
      } else {
        assert i < |deps| && deps'[i] == deps[i];
        assert ReadAll(fs', deps[i].name) == ReadAll(fs, deps[i].name);
      }
    }
  }

  /**
   * The world after `redo` builds a target: the script is `target.do` and
   * readable, the cache holds the upsert of its digest, and in the file
   * system only the target changed.
   */
  lemma {:induction false} BuiltWorld(world: World<Entry>, h: Hasher, runner: Runner, target: string)
    requires RedoResult(world, h, runner, target).0 == Built
    ensures DoFile(world.fs, target) == Some(target + ".do")
    ensures ReadAll(world.fs, target + ".do").Some? && Read(world.cache).Some?
    ensures var after := RedoResult(world, h, runner, target).1;
      && after.cache == Document(Upsert(Read(world.cache).value, target, target + ".do", h(ReadAll(world.fs, target + ".do").value)))
      && target in after.fs
      && after.fs == world.fs[target := after.fs[target]]
  {
    var script := DoFile(world.fs, target).value;
    assert script == script[..|target|] + script[|target|..];
  }

  /** Rehashing the script in an entry of the shape the tool writes makes the target fresh. */
  lemma {:induction false} RehashedEntryFresh(entries: seq<Entry>, fs: FileSystem, h: Hasher, target: string, script: Path, state: FileState)
    requires script != target && ReadAll(fs, script).Some?
    requires Find(entries, target).Some?
    requires var deps := Find(entries, target).value.dependencies;
      && UniqueNames(deps)
      && forall i :: 0 <= i < |deps| && deps[i].name != script ==>
           deps[i].name != target && CheckDependency(fs, h, deps[i]) == Fresh
    ensures var cache := Document(Upsert(entries, target, script, h(ReadAll(fs, script).value)));
      NeedsUpdateResult(fs[target := state], h, cache, target) == Fresh
  {
    var deps := Find(entries, target).value.dependencies;
    RehashedRecordsFresh(deps, fs, h, target, script, state);
  }

  /**
   * A rebuild settles a target the cache already knows, such as one whose
   * script was edited, provided its entry has the shape the tool writes
   * itself: unique record names, and every record other than the script's
   * fresh and not the target itself. After `redo` builds it, the next `redo`
   * with no file changed finds it up to date and changes nothing.
   */
  lemma {:induction false} KnownRebuildThenUpToDate(world: World<Entry>, h: Hasher, runner: Runner, runner': Runner, target: string)
    requires Read(world.cache).Some? && Find(Read(world.cache).value, target).Some?
    requires var deps := Find(Read(world.cache).value, target).value.dependencies;
      && UniqueNames(deps)
      && forall i :: 0 <= i < |deps| && deps[i].name != target + ".do" ==>
           deps[i].name != target && CheckDependency(world.fs, h, deps[i]) == Fresh
    requires RedoResult(world, h, runner, target).0 == Built
    ensures var after := RedoResult(world, h, runner, target).1;
      RedoResult(after, h, runner', target) == (UpToDate, after)
  {
    var after := RedoResult(world, h, runner, target).1;
    BuiltWorld(world, h, runner, target);
    var script := target + ".do";
    assert |script| == |target| + 3;
    RehashedEntryFresh(Read(world.cache).value, world.fs, h, target, script, after.fs[target]);
    assert NeedsUpdateResult(after.fs, h, after.cache, target) == Fresh;
  }

  /** When every remaining target is up to date, the invocation completes and changes nothing. */
  lemma {:induction false} AllUpToDateChangesNothing(world: World<Entry>, h: Hasher, runner: Runner, targets: seq<string>, i: nat)
    requires i <= |targets|
    requires forall j :: i <= j < |targets| ==> NeedsUpdateResult(world.fs, h, world.cache, targets[j]) == Fresh
    ensures RunFrom(Step(h, runner), world, targets, i) == (Completed, world)
    decreases |targets| - i
  {
    if i < |targets| {
      UpToDateChangesNothing(world, h, runner, targets[i]);
      AllUpToDateChangesNothing(world, h, runner, targets, i + 1);
    }
  }

  /** A fresh target is up to date and its `redo` changes nothing. */
  lemma UpToDateChangesNothing(world: World<Entry>, h: Hasher, runner: Runner, target: string)
    requires NeedsUpdateResult(world.fs, h, world.cache, target) == Fresh
    ensures RedoResult(world, h, runner, target) == (UpToDate, world)
  {
  }

  /** The world before step `j` of the invocation, when steps `i` to `j - 1` ran one after another. */
  ghost function WorldBefore(step: StepFn, world: World<Entry>, targets: seq<string>, i: nat, j: nat): World<Entry>
    requires i <= j <= |targets|
    decreases j - i
  {
    if i == j then world
    else WorldBefore(step, step(world, targets[i]).1, targets, i + 1, j)
  }

  /** What step `j` gives when it runs in the world the earlier steps left. */
  ghost function StepResult(step: StepFn, world: World<Entry>, targets: seq<string>, i: nat, j: nat): (Outcome, World<Entry>)
    requires i <= j < |targets|
  {
    step(WorldBefore(step, world, targets, i, j), targets[j])
  }

  /** Step `j` from `i` is step `j` from `i + 1` once step `i` has run. */
  lemma {:induction false} StepResultShift(step: StepFn, world: World<Entry>, targets: seq<string>, i: nat)
    requires i < |targets|
    ensures var next := step(world, targets[i]).1;
      && StepResult(step, world, targets, i, i) == step(world, targets[i])
      && WorldBefore(step, world, targets, i, |targets|) == WorldBefore(step, next, targets, i + 1, |targets|)
      && forall j :: i + 1 <= j < |targets| ==>
           StepResult(step, world, targets, i, j) == StepResult(step, next, targets, i + 1, j)
  {
    var next := step(world, targets[i]).1;
    forall j | i + 1 <= j < |targets|
      ensures StepResult(step, world, targets, i, j) == StepResult(step, next, targets, i + 1, j)
    {
      assert WorldBefore(step, world, targets, i, j) == WorldBefore(step, next, targets, i + 1, j);
    }
  }

  /**
   * `main` completes exactly when every step ends well, and then leaves the
   * world the last step left.
   */
  lemma {:induction false} RunFromCompletesIff(step: StepFn, world: World<Entry>, targets: seq<string>, i: nat)
    requires i <= |targets|
    ensures RunFrom(step, world, targets, i).0.Completed? <==>
      forall j :: i <= j < |targets| ==> StepResult(step, world, targets, i, j).0.IsOk()
    ensures RunFrom(step, world, targets, i).0.Completed? ==>
      RunFrom(step, world, targets, i).1 == WorldBefore(step, world, targets, i, |targets|)
    decreases |targets| - i
  {
    if i < |targets| {
      var result := step(world, targets[i]);
      StepResultShift(step, world, targets, i);
      if result.0.IsOk() {
        RunFromCompletesIff(step, result.1, targets, i + 1);
        if RunFrom(step, result.1, targets, i + 1).0.Completed? {
          forall j | i <= j < |targets|
            ensures StepResult(step, world, targets, i, j).0.IsOk()
          {
            if j > i {
              assert StepResult(step, result.1, targets, i + 1, j).0.IsOk();
            }
          }
        } else {
          var j :| i + 1 <= j < |targets| && !StepResult(step, result.1, targets, i + 1, j).0.IsOk();
          assert !StepResult(step, world, targets, i, j).0.IsOk();
        }
      } else {
        assert !StepResult(step, world, targets, i, i).0.IsOk();
      }
    }
  }

  /**
   * `main` is fail-fast: when it stops at `k`, every step before `k` ended
   * well, and it reports step `k`'s outcome with the world step `k` left.
   */
  lemma {:induction false} RunFromStopsAtFirstFailure(step: StepFn, world: World<Entry>, targets: seq<string>, i: nat)
    requires i <= |targets|
    ensures RunFrom(step, world, targets, i).0.Stopped? ==>
      var k := RunFrom(step, world, targets, i).0.index;
      && i <= k < |targets|
      && (forall j :: i <= j < k ==> StepResult(step, world, targets, i, j).0.IsOk())
      && RunFrom(step, world, targets, i) == (Stopped(k, StepResult(step, world, targets, i, k).0),
                                             StepResult(step, world, targets, i, k).1)
    decreases |targets| - i
  {
    if i < |targets| {
      var result := step(world, targets[i]);
      StepResultShift(step, world, targets, i);
      if result.0.IsOk() {
        RunFromStopsAtFirstFailure(step, result.1, targets, i + 1);
      }
    }
  }

  /** Conversely, the first step that does not end well is where `main` stops, with that step's outcome and world. */
  lemma FirstFailureStopsRunFrom(step: StepFn, world: World<Entry>, targets: seq<string>, i: nat, k: nat)
    requires i <= k < |targets|
    requires forall j :: i <= j < k ==> StepResult(step, world, targets, i, j).0.IsOk()
    requires !StepResult(step, world, targets, i, k).0.IsOk()
    ensures RunFrom(step, world, targets, i) == (Stopped(k, StepResult(step, world, targets, i, k).0),
                                                StepResult(step, world, targets, i, k).1)
  {
    RunFromCompletesIff(step, world, targets, i);
    RunFromStopsAtFirstFailure(step, world, targets, i);
  }
}
