/**
  The two entry gates of the pipeline: `shouldSkipFile` (lock files, image
  and binary extensions, compiled JavaScript in a TypeScript project, the
  size cap, binary content) and `shouldIncludeFile` (the user's directory
  and extension scopes), with the README and `tsconfig.json` tests that
  feed them.
*/
module Filters {
  import opened Strings
  import Classifier

  /** Files larger than this many UTF-8 bytes are skipped. */
  const MaxFileSize: nat := 500 * 1024

  const ImageExtensions: seq<string> :=
    [".png", ".jpg", ".jpeg", ".gif", ".bmp", ".ico", ".webp", ".svg"]

  const BinaryExtensions: seq<string> :=
    [".zip", ".tar", ".gz", ".rar", ".7z", ".exe", ".dll", ".so", ".dylib", ".pdf",
     ".doc", ".docx", ".xls", ".xlsx", ".ppt", ".pptx", ".mp3", ".mp4", ".avi",
     ".mov", ".wav", ".bin", ".dat", ".db", ".sqlite"]

  /** The extension `shouldSkipFile` uses: lower-case first, then the last `.`-piece. */
  function SkipExtension(filename: string): string {
    LastPart(Lower(filename), '.')
  }

  /** The extension `shouldIncludeFile` uses: the last `.`-piece, then lower-case. */
  function IncludeExtension(filename: string): string {
    Lower(LastPart(filename, '.'))
  }

  /** The lock-file pattern `/-lock\.|\.lock$/`, case-sensitive, on the whole path. */
  predicate IsLockFile(filename: string) {
    Contains(filename, "-lock.") || EndsWith(filename, ".lock")
  }

  /** `list.includes(x)` and `set.has(x)`, one element at a time. */
  predicate Listed(x: string, list: seq<string>) {
    list != [] && (x == list[0] || Listed(x, list[1..]))
  }

  predicate HasBlockedExtension(filename: string) {
    var ext := SkipExtension(filename);
    Listed("." + ext, ImageExtensions) || Listed("." + ext, BinaryExtensions)
  }

  predicate IsCompiledScript(filename: string) {
    EndsWith(filename, ".js") || EndsWith(filename, ".mjs")
  }

  /** `shouldSkipFile`, with its early returns in the source's order. */
  predicate ShouldSkipFile(filename: string, size: nat, content: string, hasTsConfig: bool) {
    if IsLockFile(filename) then true
    else if HasBlockedExtension(filename) then true
    else if hasTsConfig && IsCompiledScript(filename) then true
    else if size > MaxFileSize then true
    else if content != "" && Classifier.IsBinary(content) then true
    else false
  }

  /** A directory scope with `/` appended unless it already ends with one. */
  function NormalizeDir(dir: string): (d: string)
    ensures EndsWith(d, "/")
    ensures d == dir || d == dir + "/"
    ensures EndsWith(dir, "/") <==> d == dir
  {
    if EndsWith(dir, "/") then dir else dir + "/"
  }

  /** `targetDirs.some(...)`. */
  predicate SomeDirMatches(filename: string, targetDirs: seq<string>) {
    targetDirs != [] && (StartsWith(filename, NormalizeDir(targetDirs[0]))
                         || SomeDirMatches(filename, targetDirs[1..]))
  }

  /** `shouldIncludeFile`, with its early returns in the source's order. */
  predicate ShouldIncludeFile(filename: string, targetDirs: seq<string>, targetExts: seq<string>) {
    if targetDirs != [] && !SomeDirMatches(filename, targetDirs) then false
    else if targetExts != [] && !Listed(IncludeExtension(filename), targetExts) then false
    else true
  }

  /** The README test `/readme\.md$/i`, with ASCII case folding. */
  predicate IsReadme(path: string) {
    EndsWith(Lower(path), "readme.md")
  }

  /** `hasTsConfig`: some archive member under the root ends with `tsconfig.json`. */
  predicate HasTsConfig(names: seq<string>, rootPrefix: string) {
    names != [] && ((StartsWith(names[0], rootPrefix) && EndsWith(names[0], "tsconfig.json"))
                    || HasTsConfig(names[1..], rootPrefix))
  }

  // ---------------------------------------------------------------------
  // Properties

  /** Skipping is exactly the disjunction of the five conditions, in any order. */
  lemma SkipIsDisjunction(filename: string, size: nat, content: string, hasTsConfig: bool)
    ensures ShouldSkipFile(filename, size, content, hasTsConfig) <==>
      (size > MaxFileSize
       || (content != "" && Classifier.IsBinary(content))
       || (hasTsConfig && IsCompiledScript(filename))
       || HasBlockedExtension(filename)
       || IsLockFile(filename))
  {
  }

  lemma {:induction false} SomeDirMatchesIff(filename: string, targetDirs: seq<string>)
    ensures SomeDirMatches(filename, targetDirs) <==>
      exists i :: 0 <= i < |targetDirs| && StartsWith(filename, NormalizeDir(targetDirs[i]))
  {
    if targetDirs != [] {
      SomeDirMatchesIff(filename, targetDirs[1..]);
      if exists i :: 0 <= i < |targetDirs| && StartsWith(filename, NormalizeDir(targetDirs[i])) {
        var i :| 0 <= i < |targetDirs| && StartsWith(filename, NormalizeDir(targetDirs[i]));
        if i > 0 {
          assert targetDirs[1..][i - 1] == targetDirs[i];
        }
      }
    }
  }

  /** An entry is included iff it lies in one of the scopes and has one of the extensions. */
  lemma IncludeIff(filename: string, targetDirs: seq<string>, targetExts: seq<string>)
    ensures ShouldIncludeFile(filename, targetDirs, targetExts) <==>
      && (targetDirs == []
          || exists i :: 0 <= i < |targetDirs| && StartsWith(filename, NormalizeDir(targetDirs[i])))
      && (targetExts == [] || IncludeExtension(filename) in targetExts)
  {
    SomeDirMatchesIff(filename, targetDirs);
    ListedIff(IncludeExtension(filename), targetExts);
  }

  lemma {:induction false} ListedIff(x: string, list: seq<string>)
    ensures Listed(x, list) <==> x in list
  {
    if list != [] {
      ListedIff(x, list[1..]);
      assert list == [list[0]] + list[1..];
    }
  }

  /**
    A directory scope given without a trailing `/` admits exactly the paths
    strictly below it: "src" admits "src/index.ts" but not "srcfoo/index.ts"
    and not a file named "src".
  */
  lemma DirScopeExamples()
    ensures ShouldIncludeFile("src/index.ts", ["src"], [])
    ensures !ShouldIncludeFile("srcfoo/index.ts", ["src"], [])
    ensures !ShouldIncludeFile("src", ["src"], [])
  {
    assert NormalizeDir("src") == "src/";
    assert "src/index.ts"[..4] == "src/";
    assert "srcfoo/index.ts"[..4] != "src/" by {
      assert "srcfoo/index.ts"[3] == 'f';
    }
  }

  lemma DirScopeIsDirectory(filename: string, dir: string)
    requires !EndsWith(dir, "/")
    requires StartsWith(filename, NormalizeDir(dir))
    ensures |filename| > |dir| && filename[..|dir|] == dir && filename[|dir|] == '/'
  {
  }

  lemma {:induction false} SplitLower(s: string)
    ensures |Split(Lower(s), '.')| == |Split(s, '.')|
    ensures forall i :: 0 <= i < |Split(s, '.')| ==> Split(Lower(s), '.')[i] == Lower(Split(s, '.')[i])
  {
    if s != [] {
      SplitLower(s[1..]);
      var low := Lower(s);
      var rest, lrest := Split(s[1..], '.'), Split(Lower(s[1..]), '.');
      assert low[1..] == Lower(s[1..]);
      assert (low[0] == '.') == (s[0] == '.');
      var parts, lparts := Split(s, '.'), Split(low, '.');
      if s[0] == '.' {
        assert parts == [[]] + rest && lparts == [[]] + lrest;
        forall i | 0 <= i < |parts|
          ensures lparts[i] == Lower(parts[i])
        {
          if i > 0 { assert lparts[i] == lrest[i - 1] && parts[i] == rest[i - 1]; }
        }
      } else {
        assert parts == [[s[0]] + rest[0]] + rest[1..];
        assert lparts == [[low[0]] + lrest[0]] + lrest[1..];
        assert parts[1..] == rest[1..] && lparts[1..] == lrest[1..];
        forall i | 0 <= i < |parts|
          ensures lparts[i] == Lower(parts[i])
        {
          if i == 0 {
            assert Lower([s[0]] + rest[0]) == [LowerChar(s[0])] + Lower(rest[0]);
          } else {
            assert lparts[i] == lparts[1..][i - 1] && parts[i] == parts[1..][i - 1];
          }
        }
      }
    }
  }

  /** Both gates see the same extension, whichever order they lower-case and split in. */
  lemma ExtensionsAgree(filename: string)
    ensures SkipExtension(filename) == IncludeExtension(filename)
  {
    SplitLower(filename);
  }

  /** The extension is the text after the last `.`, or the whole path when there is none. */
  lemma ExtensionIsLastPiece(filename: string)
    ensures '.' !in filename ==> IncludeExtension(filename) == Lower(filename)
    ensures '.' !in IncludeExtension(filename)
    ensures EndsWith(Lower(filename), IncludeExtension(filename))
    ensures var low, ext := Lower(filename), IncludeExtension(filename);
      ext == low || (|ext| < |low| && low[|low| - |ext| - 1] == '.')
  {
    if '.' !in filename {
      SplitFree(filename, '.');
    }
    ExtensionsAgree(filename);
    LastPartSuffix(Lower(filename), '.');
  }

  lemma {:induction false} HasTsConfigIff(names: seq<string>, rootPrefix: string)
    ensures HasTsConfig(names, rootPrefix) <==>
      exists i :: 0 <= i < |names| && StartsWith(names[i], rootPrefix) && EndsWith(names[i], "tsconfig.json")
  {
    if names != [] {
      HasTsConfigIff(names[1..], rootPrefix);
      if exists i :: 0 <= i < |names| && StartsWith(names[i], rootPrefix) && EndsWith(names[i], "tsconfig.json") {
        var i :| 0 <= i < |names| && StartsWith(names[i], rootPrefix) && EndsWith(names[i], "tsconfig.json");
        if i > 0 {
          assert names[1..][i - 1] == names[i];
        }
      }
    }
  }
}
