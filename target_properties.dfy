/**
 * What the module version's cache, script insertion and staleness rule
 * promise, stated over the specification functions of module Targets.
 */
module TargetProperties {
  import opened Wrappers
  import opened Seqs
  import opened Env
  import opened Paths
  import opened Deps
  import opened Targets

  /** Upsert, existing path: the first entry with that path is replaced and nothing else changes. */
  lemma UpsertReplacesFirstMatch(entries: seq<CachedTarget>, t: CachedTarget)
    requires exists i :: 0 <= i < |entries| && entries[i].path == t.path
    ensures |Upsert(entries, t)| == |entries|
    ensures exists k :: (0 <= k < |entries| && entries[k].path == t.path
                         && (forall j :: 0 <= j < k ==> entries[j].path != t.path)
                         && Upsert(entries, t)[k] == t
                         && (forall j :: 0 <= j < |entries| && j != k ==> Upsert(entries, t)[j] == entries[j]))
  {
    var i :| 0 <= i < |entries| && entries[i].path == t.path;
    assert PathOf(entries[i]) == t.path;
    var k := FirstIndexOf(entries, PathOf, t.path).value;
    assert entries[k].path == t.path;
  }

  /** Upsert, new path: the target is appended. */
  lemma UpsertAppendsWhenAbsent(entries: seq<CachedTarget>, t: CachedTarget)
    requires forall i :: 0 <= i < |entries| ==> entries[i].path != t.path
    ensures Upsert(entries, t) == entries + [t]
    ensures |Upsert(entries, t)| == |entries| + 1
  {
    assert forall j :: 0 <= j < |entries| ==> PathOf(entries[j]) != t.path;
  }

  /** Looking the written target's path up right after `write` finds exactly the written target. */
  lemma LookupAfterUpsert(entries: seq<CachedTarget>, t: CachedTarget)
    ensures Lookup(Upsert(entries, t), t.path) == Some(t)
  {
    var r := Upsert(entries, t);
    match FirstIndexOf(entries, PathOf, t.path)
    case Some(k) =>
      assert r == entries[k := t];
      assert PathOf(r[k]) == t.path;
      assert forall j :: 0 <= j < k ==> PathOf(r[j]) != t.path by {
        forall j | 0 <= j < k ensures PathOf(r[j]) != t.path {
          assert r[j] == entries[j];
        }
      }
      FirstIndexOfIs(r, PathOf, t.path, k);
    case None =>
      assert r == entries + [t];
      assert forall j :: 0 <= j < |entries| ==> PathOf(r[j]) != t.path by {
        forall j | 0 <= j < |entries| ensures PathOf(r[j]) != t.path {
          assert r[j] == entries[j];
        }
      }
      assert PathOf(r[|entries|]) == t.path;
      FirstIndexOfIs(r, PathOf, t.path, |entries|);
  }

  /** `write` does not change what any other path looks up to. */
  lemma LookupOtherAfterUpsert(entries: seq<CachedTarget>, t: CachedTarget, p: Path)
    requires p != t.path
    ensures Lookup(Upsert(entries, t), p) == Lookup(entries, p)
  {
    var r := Upsert(entries, t);
    // every entry of r with path p is the entry of `entries` at the same place
    assert forall j :: 0 <= j < |r| && r[j].path == p ==> j < |entries| && r[j] == entries[j];
    match FirstIndexOf(entries, PathOf, p)
    case Some(i) =>
      assert PathOf(r[i]) == p by {
        assert r[i] == entries[i];
      }
      FirstIndexOfIs(r, PathOf, p, i);
    case None =>
      assert forall j :: 0 <= j < |r| ==> PathOf(r[j]) != p;
  }

  /** Writing the same target twice leaves the cache as writing it once. */
  lemma UpsertIdempotent(entries: seq<CachedTarget>, t: CachedTarget)
    ensures Upsert(Upsert(entries, t), t) == Upsert(entries, t)
  {
    var r := Upsert(entries, t);
    LookupAfterUpsert(entries, t);
    var k := FirstIndexOf(r, PathOf, t.path).value;
    assert r[k] == t;
    assert r[k := t] == r;
  }

  /** Paths that are unique keys in the cache stay unique after `write`. */
  ghost predicate UniquePaths(entries: seq<CachedTarget>) {
    forall i, j :: 0 <= i < j < |entries| ==> entries[i].path != entries[j].path
  }

  lemma UpsertKeepsPathsUnique(entries: seq<CachedTarget>, t: CachedTarget)
    requires UniquePaths(entries)
    ensures UniquePaths(Upsert(entries, t))
  {
    var r := Upsert(entries, t);
    match FirstIndexOf(entries, PathOf, t.path)
    case Some(k) =>
      assert r == entries[k := t];
      forall i, j | 0 <= i < j < |r| ensures r[i].path != r[j].path {
        if i == k {
          assert r[j] == entries[j];
        } else if j == k {
          assert r[i] == entries[i];
        } else {
          assert r[i] == entries[i] && r[j] == entries[j];
        }
      }
    case None =>
      assert r == entries + [t];
      forall i, j | 0 <= i < j < |r| ensures r[i].path != r[j].path {
        assert r[i] == entries[i];
        if j < |entries| {
          assert r[j] == entries[j];
        } else {
          assert PathOf(entries[i]) != t.path;
        }
      }
  }

  /** Ensuring the build script a second time changes nothing. */
  lemma WithDependencyIdempotent(deps: seq<Dependency>, name: Path)
    ensures WithDependency(WithDependency(deps, name), name) == WithDependency(deps, name)
  {
  }

  /** After the refresh loop of `redo`, a target with at least one dependency is up to date. */
  lemma RefreshedIsUpToDate(deps: seq<Dependency>, fs: FileSystem, h: Hasher)
    requires |deps| > 0
    ensures !Stale(RefreshAll(deps, fs, h), fs, h)
  {
  }

  /**
   * The first load of a target the cache does not know yields only its
   * build script with an empty hash; that is stale exactly when the script
   * can be read, so a target whose script is missing counts as up to date.
   */
  lemma {:induction false} FirstLoadStaleIffScriptReadable(entries: seq<CachedTarget>, name: Path, fs: FileSystem, h: Hasher)
    requires forall i :: 0 <= i < |entries| ==> entries[i].path != name
    ensures LoadedDependencies(entries, name) == [Dependency(DoFilePath(name), "")]
    ensures Stale(LoadedDependencies(entries, name), fs, h) <==> ReadAll(fs, DoFilePath(name)).Some?
  {
    var deps := LoadedDependencies(entries, name);
    assert Lookup(entries, name).None?;
    assert !HasDependency([], DoFilePath(name));
    assert deps == [Dependency(DoFilePath(name), "")];
    if ReadAll(fs, DoFilePath(name)).Some? {
      assert deps[0].NeedsUpdate(fs, h);
    }
  }

  /** A refreshed dependency list stays up to date while only files outside it change. */
  lemma {:induction false} RefreshedStaysUpToDate(deps: seq<Dependency>, fs: FileSystem, h: Hasher, p: Path, state: FileState)
    requires |deps| > 0
    requires forall i :: 0 <= i < |deps| ==> deps[i].name != p
    ensures !Stale(RefreshAll(deps, fs, h), fs[p := state], h)
  {
    var refreshed := RefreshAll(deps, fs, h);
    var fs' := fs[p := state];
    forall i | 0 <= i < |refreshed| ensures !refreshed[i].NeedsUpdate(fs', h) {
      assert refreshed[i].name == deps[i].name;
      assert ReadAll(fs', refreshed[i].name) == ReadAll(fs, refreshed[i].name);
      ComputeHashDependsOnlyOnContents(refreshed[i], fs, fs', h);
    }
  }

  /** Loading a target whose written dependencies already hold its script gives exactly those dependencies. */
  lemma {:induction false} LoadAfterWrite(entries: seq<CachedTarget>, name: Path, deps: seq<Dependency>)
    requires HasDependency(deps, DoFilePath(name))
    ensures LoadedDependencies(Upsert(entries, CachedTarget(name, deps)), name) == deps
  {
    LookupAfterUpsert(entries, CachedTarget(name, deps));
  }

  /**
   * Rebuilding settles a target: write the refreshed target to the cache and
   * put any output at the target path; loading the target again gives back
   * the refreshed dependencies, and they are up to date, provided no
   * dependency is the target itself.
   */
  lemma {:induction false} RebuildThenUpToDate(entries: seq<CachedTarget>, name: Path, fs: FileSystem, h: Hasher, output: Bytes)
    requires forall i :: 0 <= i < |LoadedDependencies(entries, name)| ==> LoadedDependencies(entries, name)[i].name != name
    ensures var refreshed := RefreshAll(LoadedDependencies(entries, name), fs, h);
      var entries' := Upsert(entries, CachedTarget(name, refreshed));
      LoadedDependencies(entries', name) == refreshed
      && !Stale(refreshed, fs[name := Readable(output)], h)
  {
    var deps := LoadedDependencies(entries, name);
    var refreshed := RefreshAll(deps, fs, h);
    var doPath := DoFilePath(name);
    assert HasDependency(deps, doPath);
    var k :| 0 <= k < |deps| && deps[k].name == doPath;
    assert refreshed[k].name == doPath;
    LoadAfterWrite(entries, name, refreshed);
    RefreshedStaysUpToDate(deps, fs, h, name, Readable(output));
  }
}
