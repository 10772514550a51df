/**
 * The environment both versions of the build tool run in: a file system seen
 * as a map from path to what opening and reading that path yields, a content
 * hasher, the cache document, the build script as an external runner, and the
 * ways one `redo` call can end. Everything here stands for an operating-system
 * or library facility the source only calls.
 */
module Env {
  import opened Wrappers

  type Path = string
  type Bytes = seq<bv8>

  /** What the operating system does when the file is opened and read to the end. */
  datatype FileState =
    | Readable(contents: Bytes)  // opens and reads completely
    | OpenFails                  // exists, but cannot be opened (permissions, ...)
    | ReadFails                  // opens, but reading fails (a directory, an I/O error, ...)

  /** A path absent from the map does not exist. */
  type FileSystem = map<Path, FileState>

  /** The full contents of a file, or None when it cannot be opened or read. */
  function ReadAll(fs: FileSystem, p: Path): (r: Option<Bytes>)
    ensures r.Some? <==> p in fs && fs[p].Readable?
    ensures r.Some? ==> r.value == fs[p].contents
  {
    if p in fs && fs[p].Readable? then Some(fs[p].contents) else None
  }

  /** A hex digest is never empty; the empty string is free to act as a sentinel. */
  type Digest = s: string | |s| > 0 witness "0"

  /** The content hash (the source uses MD5 printed in lower-case base 16). */
  type Hasher = Bytes -> Digest

  /** How the spawned `sh -e <script> "" <base> <tmp>` ended. */
  datatype ScriptStatus =
    | NotSpawned                      // `Command::status` returned an error
    | Finished(code: Option<int>)     // `ExitStatus::code`; None when killed by a signal

  /**
   * One run of a build script: how it ended and what the temporary output file
   * holds when it is moved onto the target (None: the move fails).
   */
  datatype ScriptRun = ScriptRun(status: ScriptStatus, output: Option<Bytes>)

  /** A build script's behaviour as a function of its path, its base-name argument and the files it can read. */
  type Runner = (Path, string, FileSystem) -> ScriptRun

  /** The cache document `.redo.json`: unreadable as text, not a well-typed document, or its entries. */
  datatype CacheFile<E> = Unavailable | Malformed | Document(entries: seq<E>)

  datatype World<E> = World(fs: FileSystem, cache: CacheFile<E>)

  datatype IoError =
    | CacheUnreadable   // reading `.redo.json` failed
    | CacheInvalid      // `.redo.json` is not a list of targets
    | OpenFailed        // a file to be hashed cannot be opened
    | SpawnFailed       // `sh` could not be started
    | RenameFailed      // the temporary output could not be moved onto the target

  /** How one `redo` of one target ends. */
  datatype Outcome =
    | UpToDate          // `Ok(())` after "<target> is up to date"
    | Built             // `Ok(())` after the output was moved onto the target
    | Failed(error: IoError)  // an `Err` returned to the caller
    | Exited(code: int) // `std::process::exit(code)`
    | Panicked          // an `unwrap`, `expect` or `panic!` fired
  {
    predicate IsOk() { UpToDate? || Built? }
  }

  /** `status.code().unwrap_or(1)`: a run killed by a signal counts as exit code 1. */
  function ExitCode(code: Option<int>): (r: int)
    ensures r == 0 <==> code == Some(0)
    ensures code.None? ==> r == 1
  {
    match code
    case Some(c) => c
    case None => 1
  }

  /**
   * The execution protocol both versions share: run the script, exit with
   * status 1 on a non-zero exit code, and otherwise rename the temporary
   * output onto `target`. Only a zero exit moves anything: every other ending
   * leaves the file system as it was.
   */
  function Execute(fs: FileSystem, runner: Runner, script: Path, base: string, target: Path): (r: (Outcome, FileSystem))
    ensures var run := runner(script, base, fs);
      r.0.Built? <==> run.status == Finished(Some(0)) && run.output.Some?
    ensures var run := runner(script, base, fs);
      r.0.Built? ==> r.1 == fs[target := Readable(run.output.value)]
    ensures !r.0.Built? ==> r.1 == fs
    ensures var run := runner(script, base, fs);
      run.status.Finished? && ExitCode(run.status.code) != 0 ==> r.0 == Exited(1)
    ensures runner(script, base, fs).status.NotSpawned? ==> r.0 == Failed(SpawnFailed)
    ensures var run := runner(script, base, fs);
      run.status == Finished(Some(0)) && run.output.None? ==> r.0 == Failed(RenameFailed)
  {
    var run := runner(script, base, fs);
    match run.status
    case NotSpawned => (Failed(SpawnFailed), fs)
    case Finished(code) =>
      if ExitCode(code) != 0 then (Exited(1), fs)
      else
        match run.output
        case None => (Failed(RenameFailed), fs)
        case Some(bytes) => (Built, fs[target := Readable(bytes)])
  }
}
