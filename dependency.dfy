/**
 * A dependency of a target: a file name with the hash its contents had when
 * the target was last built, and the test whether the file changed since.
 */
module Deps {
  import opened Wrappers
  import opened Env

  /**
   * A record owned by value by its target (and cloned into the cache), so
   * `update_hash(&mut self)` is the function UpdateHash whose result the caller
   * stores back in the dependency's slot.
   */
  datatype Dependency = Dependency(name: Path, hash: string)
  {
    /**
     * The hash of the file's current contents, or the empty string when the
     * file cannot be opened or read. A real digest is never empty.
     */
    function ComputeHash(fs: FileSystem, h: Hasher): (r: string)
      ensures r == "" <==> ReadAll(fs, name).None?
      ensures ReadAll(fs, name).Some? ==> r == h(ReadAll(fs, name).value)
    {
      match ReadAll(fs, name)
      case Some(contents) => h(contents)
      case None => ""
    }

    /**
     * The file changed since its hash was stored: an unreadable file needs an
     * update exactly when a real digest was stored, a readable one exactly
     * when its contents hash to something else.
     */
    predicate NeedsUpdate(fs: FileSystem, h: Hasher): (b: bool)
      ensures ReadAll(fs, name).None? ==> (b <==> hash != "")
      ensures ReadAll(fs, name).Some? ==> (b <==> h(ReadAll(fs, name).value) != hash)
    {
      ComputeHash(fs, h) != hash
    }

    /** The same dependency with its stored hash brought up to date. */
    function UpdateHash(fs: FileSystem, h: Hasher): (d: Dependency)
      ensures d.name == name
      ensures !d.NeedsUpdate(fs, h)
    {
      this.(hash := ComputeHash(fs, h))
    }
  }

  /** The hash is a function of the named file's contents and nothing else. */
  lemma ComputeHashDependsOnlyOnContents(d: Dependency, fs1: FileSystem, fs2: FileSystem, h: Hasher)
    requires ReadAll(fs1, d.name) == ReadAll(fs2, d.name)
    ensures d.ComputeHash(fs1, h) == d.ComputeHash(fs2, h)
    ensures d.NeedsUpdate(fs1, h) == d.NeedsUpdate(fs2, h)
  {
  }

  /** A missing or unreadable file whose stored hash is empty is not stale: both sides are "". */
  lemma UnreadableWithEmptyHashIsFresh(d: Dependency, fs: FileSystem, h: Hasher)
    requires ReadAll(fs, d.name).None? && d.hash == ""
    ensures !d.NeedsUpdate(fs, h)
  {
  }

  /** A file that became unreadable after a real hash was stored is stale. */
  lemma UnreadableWithStoredDigestIsStale(d: Dependency, fs: FileSystem, h: Hasher)
    requires ReadAll(fs, d.name).None? && d.hash != ""
    ensures d.NeedsUpdate(fs, h)
  {
  }

  /** A readable file whose stored hash is empty (never built) is stale. */
  lemma ReadableWithEmptyHashIsStale(d: Dependency, fs: FileSystem, h: Hasher)
    requires ReadAll(fs, d.name).Some? && d.hash == ""
    ensures d.NeedsUpdate(fs, h)
  {
  }
}
