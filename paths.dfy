/**
 * The three path operations the two versions use to name the build script and
 * the script's base-name argument: Rust's `Path::file_name`, `Path::file_stem`
 * and `Path::with_extension`, on '/'-separated paths. The final component is
 * everything after the last '/'; a final component that is empty or ".." has
 * no file name.
 */
module Paths {
  import opened Wrappers

  /** Everything after the last '/'. */
  function FinalComponent(p: string): (c: string)
    ensures |c| <= |p| && p[|p| - |c|..] == c
    ensures forall i :: 0 <= i < |c| ==> c[i] != '/'
    ensures |c| < |p| ==> p[|p| - |c| - 1] == '/'
  {
    if p == [] || p[|p| - 1] == '/' then []
    else FinalComponent(p[..|p| - 1]) + [p[|p| - 1]]
  }

  /** The path up to and including its last '/'. */
  function Parent(p: string): (d: string)
    ensures p == d + FinalComponent(p)
  {
    p[..|p| - |FinalComponent(p)|]
  }

  /** `Path::file_name`: None for a path whose final component is empty or "..". */
  function FileName(p: string): (r: Option<string>)
    ensures r.Some? <==> FinalComponent(p) != "" && FinalComponent(p) != ".."
    ensures r.Some? ==> r.value == FinalComponent(p)
  {
    var c := FinalComponent(p);
    if c == "" || c == ".." then None else Some(c)
  }

  /** The index of the last '.' in `s`, or -1. */
  function LastDot(s: string): (k: int)
    ensures -1 <= k < |s|
    ensures k >= 0 ==> s[k] == '.'
    ensures forall j :: k < j < |s| ==> s[j] != '.'
  {
    if s == [] then -1
    else if s[|s| - 1] == '.' then |s| - 1
    else LastDot(s[..|s| - 1])
  }

  /**
   * The stem of a file name: the part before its last '.', unless that '.' is
   * the first character or there is none, when it is the whole name.
   */
  function Stem(name: string): (stem: string)
    ensures |stem| <= |name| && name[..|stem|] == stem
    ensures |stem| < |name| ==> 0 < |stem| && name[|stem|] == '.'
    ensures |stem| < |name| ==> forall j :: |stem| < j < |name| ==> name[j] != '.'
    ensures stem == name <==> forall j :: 0 < j < |name| ==> name[j] != '.'
  {
    var k := LastDot(name);
    if k <= 0 then name else name[..k]
  }

  /** `Path::file_stem`. */
  function FileStem(p: string): (r: Option<string>)
    ensures r.Some? <==> FileName(p).Some?
    ensures r.Some? ==> r.value == Stem(FileName(p).value)
  {
    match FileName(p)
    case None => None
    case Some(name) => Some(Stem(name))
  }

  /**
   * `Path::with_extension(ext)`: the extension of the final component is
   * replaced by `ext`; a path without a file name is returned unchanged.
   */
  function WithExtension(p: string, ext: string): (q: string)
    ensures FileName(p).None? ==> q == p
    ensures FileName(p).Some? ==> q == Parent(p) + Stem(FileName(p).value) + (if ext == "" then "" else "." + ext)
  {
    match FileName(p)
    case None => p
    case Some(name) => Parent(p) + Stem(name) + (if ext == "" then "" else "." + ext)
  }

  /**
   * Replacing the extension by `ext` and appending "." + `ext` name the same
   * path exactly when the file name has no extension to replace.
   */
  lemma {:induction false} WithExtensionIsAppendIff(p: string, ext: string)
    requires ext != ""
    requires FileName(p).Some?
    ensures WithExtension(p, ext) == p + "." + ext <==> Stem(FileName(p).value) == FileName(p).value
  {
    var name := FileName(p).value;
    var stem := Stem(name);
    var d := Parent(p);
    assert p == d + name;
    assert WithExtension(p, ext) == d + stem + ("." + ext);
    assert p + "." + ext == d + name + ("." + ext);
    if WithExtension(p, ext) == p + "." + ext {
      assert |stem| == |name|;
      assert stem == name[..|stem|];
    }
  }

  /** Appending characters other than '/' extends the final component. */
  lemma {:induction false} FinalComponentAppend(d: string, c: string)
    requires forall i :: 0 <= i < |c| ==> c[i] != '/'
    ensures FinalComponent(d + c) == FinalComponent(d) + c
    decreases |c|
  {
    if c == [] {
      assert d + c == d;
    } else {
      var init := c[..|c| - 1];
      assert (d + c)[..|d + c| - 1] == d + init;
      FinalComponentAppend(d, init);
      assert c == init + [c[|c| - 1]];
    }
  }

  /** A parent is empty or ends in '/', so it has no final component. */
  lemma ParentHasNoFinalComponent(p: string)
    ensures FinalComponent(Parent(p)) == []
  {
    var d := Parent(p);
    if d != [] {
      assert d[|d| - 1] == '/';
    }
  }

  /** The stem of `stem.ext`, for a non-empty stem and an extension without '.', is `stem`. */
  lemma {:induction false} StemOfAppendedExtension(stem: string, ext: string)
    requires stem != ""
    requires forall i :: 0 <= i < |ext| ==> ext[i] != '.'
    ensures Stem(stem + "." + ext) == stem
  {
    var c := stem + "." + ext;
    var k := LastDot(c);
    assert c[|stem|] == '.';
    assert k == |stem|;
    assert c[..|stem|] == stem;
  }

  /** After replacing the extension, the file name is `stem.ext` under the same parent. */
  lemma {:induction false} WithExtensionFileName(p: string, ext: string)
    requires FileName(p).Some?
    requires ext != ""
    requires forall i :: 0 <= i < |ext| ==> ext[i] != '/'
    ensures var c := Stem(FileName(p).value) + "." + ext;
      Parent(WithExtension(p, ext)) == Parent(p) && FileName(WithExtension(p, ext)) == Some(c)
  {
    var name := FileName(p).value;
    var stem := Stem(name);
    var d := Parent(p);
    var c := stem + "." + ext;
    assert WithExtension(p, ext) == d + c;
    ParentHasNoFinalComponent(p);
    assert forall i :: 0 <= i < |c| ==> c[i] != '/' by {
      forall i | 0 <= i < |c| ensures c[i] != '/' {
        if i < |stem| {
          assert c[i] == name[i];
        } else if i > |stem| {
          assert c[i] == ext[i - |stem| - 1];
        }
      }
    }
    FinalComponentAppend(d, c);
  }

  /**
   * Replacing the extension by one without '.' or '/' keeps the parent and
   * the stem: the script's stem is the target's.
   */
  lemma {:induction false} WithExtensionKeepsStem(p: string, ext: string)
    requires ext != ""
    requires forall i :: 0 <= i < |ext| ==> ext[i] != '/' && ext[i] != '.'
    ensures Parent(WithExtension(p, ext)) == Parent(p)
    ensures FileStem(WithExtension(p, ext)) == FileStem(p)
  {
    if FileName(p).Some? {
      var stem := Stem(FileName(p).value);
      WithExtensionFileName(p, ext);
      assert |stem| > 0;
      StemOfAppendedExtension(stem, ext);
    }
  }

  /** The script and base names of a target called "out.txt" under each naming rule. */
  lemma OutTxtNames()
    ensures WithExtension("out.txt", "do") == "out.do"
    ensures FileStem("out.txt") == Some("out")
    ensures FileName("out.txt") == Some("out.txt")
  {
    var p := "out.txt";
    assert forall i :: 0 <= i < |p| ==> p[i] != '/';
    assert FinalComponent(p) == p;
    assert Parent(p) == "";
    var stem := Stem(p);
    assert p[3] == '.';
    assert |stem| == 3;
    assert stem == p[..3] == "out";
  }
}
