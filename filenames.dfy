/** The file-name bookkeeping of `Secure` and `Access` (Main.cs): splitting a
    path at its last '.', naming the container, recognising a container path
    and normalising the extension the user asks for on decryption. */
module FileNames {
  import opened Common

  /** The container extension (`Program.SecuredExtension`). */
  const SecuredExtension: string := ".ssf"

  /** A path split at its last '.': the stem, and the extension with its
      leading '.' (absent when the path has no '.'). */
  datatype PathParts = PathParts(stem: string, extension: Option<string>)

  /** `string.LastIndexOf(char)`: the index of the last occurrence of `c`,
      or -1 when there is none. */
  function LastIndexOf(s: string, c: char): (r: int)
    ensures -1 <= r < |s|
    ensures r == -1 <==> c !in s
    ensures r >= 0 ==> s[r] == c && c !in s[r + 1..]
    decreases |s|
  {
    if |s| == 0 then -1
    else if s[|s| - 1] == c then |s| - 1
    else LastIndexOf(s[..|s| - 1], c)
  }

  /** Main.cs:122-129 (and the stem part again at Main.cs:170-175). */
  function SplitExtension(rawFilePath: string): (parts: PathParts)
    ensures parts.extension.None? <==> '.' !in rawFilePath
    ensures parts.extension.None? ==> parts.stem == rawFilePath
    ensures parts.extension.Some? ==>
              var ext := parts.extension.value;
              parts.stem + ext == rawFilePath &&
              |ext| > 0 && ext[0] == '.' && '.' !in ext[1..]
  {
    var extensionIndex := LastIndexOf(rawFilePath, '.');
    if extensionIndex != -1 then
      PathParts(rawFilePath[..extensionIndex], Some(rawFilePath[extensionIndex..]))
    else
      PathParts(rawFilePath, None)
  }

  /** Name of the container written by `Secure` (Main.cs:138): it ends in
      ".ssf", and what precedes ".ssf" is the stem of the input path. */
  function SecuredName(rawFilePath: string): (name: string)
    ensures IsSecuredPath(name)
    ensures name[..|name| - |SecuredExtension|] == SplitExtension(rawFilePath).stem
  {
    SplitExtension(rawFilePath).stem + SecuredExtension
  }

  /** The path check `Access` hands to the prompt (Main.cs:168). */
  predicate IsSecuredPath(path: string): (secured: bool)
    ensures secured <==> exists stem :: path == stem + SecuredExtension
  {
    if |path| >= |SecuredExtension| then
      var stem := path[..|path| - |SecuredExtension|];
      assert path == stem + path[|path| - |SecuredExtension|..];
      path[|path| - |SecuredExtension|..] == SecuredExtension
    else
      false
  }

  /** Main.cs:180-185: a non-empty extension without a leading '.' gets one. */
  function NormalizeExtension(rawFileExtension: string): (ext: string)
    ensures rawFileExtension == [] <==> ext == []
    ensures ext != [] ==> ext[0] == '.'
    ensures rawFileExtension != [] && rawFileExtension[0] == '.' ==> ext == rawFileExtension
    ensures ext == rawFileExtension || ext == "." + rawFileExtension
  {
    if rawFileExtension != [] && rawFileExtension[0] != '.' then "." + rawFileExtension
    else rawFileExtension
  }

  /** Name of the file written by `Access` (Main.cs:170-175, 194): for a
      container path, the path without ".ssf" and the normalised extension. */
  function DecryptedName(rawFilePath: string, rawFileExtension: string): (name: string)
    ensures IsSecuredPath(rawFilePath) ==>
              name == rawFilePath[..|rawFilePath| - |SecuredExtension|] + NormalizeExtension(rawFileExtension)
  {
    // Both branches compute the same name; the split brings the fact about
    // ".ssf" paths that the ensures needs into scope.
    if IsSecuredPath(rawFilePath) then
      SecuredPathSplit(rawFilePath);
      SplitExtension(rawFilePath).stem + NormalizeExtension(rawFileExtension)
    else
      SplitExtension(rawFilePath).stem + NormalizeExtension(rawFileExtension)
  }

  /** Normalising an extension twice is normalising it once. */
  lemma NormalizeExtensionIdempotent(rawFileExtension: string)
    ensures NormalizeExtension(NormalizeExtension(rawFileExtension)) == NormalizeExtension(rawFileExtension)
  {
  }

  /** The last '.' of a path is found by `LastIndexOf`. */
  lemma LastDotAt(path: string, k: nat)
    requires k < |path| && path[k] == '.' && '.' !in path[k + 1..]
    ensures LastIndexOf(path, '.') == k
  {
  }

  /** A path accepted by `Access` splits into everything before ".ssf" and
      the extension ".ssf" itself. */
  lemma {:induction false} SecuredPathSplit(path: string)
    requires IsSecuredPath(path)
    ensures SplitExtension(path) == PathParts(path[..|path| - |SecuredExtension|], Some(SecuredExtension))
  {
    var k := |path| - |SecuredExtension|;
    assert path[k..] == SecuredExtension;
    assert path[k + 1..] == SecuredExtension[1..];
    LastDotAt(path, k);
  }

  /** The container name always passes the `Access` path check, and the stem
      `Access` takes from it is the stem `Secure` took from the original. */
  lemma SecuredNameRoundTrip(rawFilePath: string)
    ensures IsSecuredPath(SecuredName(rawFilePath))
    ensures SplitExtension(SecuredName(rawFilePath)).stem == SplitExtension(rawFilePath).stem
  {
  }

  /** Decrypting the container of `rawFilePath` and asking for the original
      extension (with or without its '.') names the original path again. */
  lemma {:induction false} DecryptedNameRestoresOriginal(rawFilePath: string, rawFileExtension: string)
    requires SplitExtension(rawFilePath).extension.Some? ==>
               var ext := SplitExtension(rawFilePath).extension.value;
               rawFileExtension == ext || (|ext| > 1 && rawFileExtension == ext[1..])
    requires SplitExtension(rawFilePath).extension.None? ==> rawFileExtension == []
    ensures DecryptedName(SecuredName(rawFilePath), rawFileExtension) == rawFilePath
  {
    SecuredNameRoundTrip(rawFilePath);
    var parts := SplitExtension(rawFilePath);
    if parts.extension.Some? {
      var ext := parts.extension.value;
      assert NormalizeExtension(rawFileExtension) == ext by {
        if rawFileExtension != ext {
          assert rawFileExtension[0] != '.' by {
            assert rawFileExtension[0] == ext[1];
            assert ext[1] in ext[1..];
          }
          assert "." + rawFileExtension == ext;
        }
      }
    }
  }

  /** Whatever follows the last '.' of a path is its extension, even when it
      holds a directory separator: the container of `stem + "." + rest` is
      `stem + ".ssf"` (so "report.pdf" gives "report.ssf", and
      "logs.d/report" gives "logs.ssf"), and accessing that container with
      a non-empty extension `rest` names `stem + "." + rest` again. */
  lemma {:induction false} StemBeforeLastDot(stem: string, rest: string)
    requires '.' !in rest
    ensures SecuredName(stem + "." + rest) == stem + SecuredExtension
    ensures rest != [] ==> DecryptedName(stem + SecuredExtension, rest) == stem + "." + rest
  {
    var path := stem + "." + rest;
    assert path[|stem|] == '.' && path[|stem| + 1..] == rest;
    LastDotAt(path, |stem|);
    assert path[..|stem|] == stem;
    if rest != [] {
      DecryptedNameRestoresOriginal(path, rest);
    }
  }

  /** The container name is the input path itself exactly when the input
      path already ends in ".ssf": then `Secure` opens one file twice. */
  lemma SecuredNameIsInput(rawFilePath: string)
    ensures SecuredName(rawFilePath) == rawFilePath <==> IsSecuredPath(rawFilePath)
  {
    if IsSecuredPath(rawFilePath) {
      SecuredPathSplit(rawFilePath);
    }
  }

  /** The decrypted name is the container path itself exactly when the
      requested extension normalises to ".ssf": then `Access` opens one file
      twice. */
  lemma DecryptedNameIsInput(rawFilePath: string, rawFileExtension: string)
    requires IsSecuredPath(rawFilePath)
    ensures DecryptedName(rawFilePath, rawFileExtension) == rawFilePath <==>
              NormalizeExtension(rawFileExtension) == SecuredExtension
  {
    var n := |rawFilePath| - |SecuredExtension|;
    assert rawFilePath == rawFilePath[..n] + SecuredExtension;
  }
}
