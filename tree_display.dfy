/**
  The directory tree renderer `createTreeDisplay`: it collects every
  `/`-prefix of every kept path into a set, sorts that set by code units,
  and writes one indented line per member, with a file icon for members
  nothing else lies below and a folder icon for the rest.
*/
module TreeDisplay {
  import opened Strings
  import opened FileTree

  /** `dirs.add(x)` on a JavaScript `Set`, kept in insertion order. */
  function SetAdd(dirs: seq<string>, x: string): seq<string> {
    if x in dirs then dirs else dirs + [x]
  }

  /** `dirs` after adding `parts.slice(0, i).join("/")` for `i` from 1 to `n`. */
  function AddPrefixes(dirs: seq<string>, parts: seq<string>, n: nat): seq<string>
    requires n <= |parts|
  {
    if n == 0 then dirs else SetAdd(AddPrefixes(dirs, parts, n - 1), Join(parts[..n], '/'))
  }

  /** The `dirs` set the first loop builds from the keys. */
  function CollectDirs(keys: seq<string>): seq<string> {
    if keys == [] then []
    else
      var parts := Split(keys[|keys| - 1], '/');
      AddPrefixes(CollectDirs(keys[..|keys| - 1]), parts, |parts|)
  }

  /** `m` is the path `k` itself or a directory `k` lies in. */
  predicate IsPathPrefix(k: string, m: string) {
    m == k || StartsWith(k, m + "/")
  }

  /** The prefix closure of the keys. */
  predicate InClosure(keys: seq<string>, m: string) {
    exists k :: k in keys && IsPathPrefix(k, m)
  }

  /** `Array.from(dirs).some((d) => d.startsWith(dir + "/"))`. */
  predicate HasDescendant(dirs: seq<string>, dir: string) {
    exists d :: d in dirs && StartsWith(d, dir + "/")
  }

  /** `"  ".repeat(depth)`. */
  function Indent(depth: nat): (r: string)
    ensures |r| == 2 * depth
    ensures forall i :: 0 <= i < |r| ==> r[i] == ' '
  {
    if depth == 0 then "" else "  " + Indent(depth - 1)
  }

  /** What follows a member's name on its line: its size when sizes are shown and it is a file. */
  function SizeNote(dir: string, dirs: seq<string>, tree: Tree, showSize: bool): string {
    if showSize && !HasDescendant(dirs, dir) then
      match Get(tree, dir)
      case Some(info) =>
        if info.isTruncated then " (" + FormatKiB(info.size) + " KB→30KB truncated)"
        else " (" + FormatKiB(info.size) + " KB)"
      case None => " (0.00 KB)"
    else ""
  }

  /** A member's line up to its name: indentation by depth, icon, last segment. */
  function LineHead(dir: string, dirs: seq<string>): string {
    var parts := Split(dir, '/');
    var icon := if HasDescendant(dirs, dir) then "📂" else "📄";
    Indent(|parts| - 1) + icon + " " + parts[|parts| - 1]
  }

  /** One line of the tree: its head, then the size note. */
  function Line(dir: string, dirs: seq<string>, tree: Tree, showSize: bool): string {
    LineHead(dir, dirs) + SizeNote(dir, dirs, tree, showSize) + "\n"
  }

  function Lines(sorted: seq<string>, dirs: seq<string>, tree: Tree, showSize: bool): string {
    if sorted == [] then ""
    else Lines(sorted[..|sorted| - 1], dirs, tree, showSize) + Line(sorted[|sorted| - 1], dirs, tree, showSize)
  }

  /** The text `createTreeDisplay(tree, showSize)` returns. */
  function TreeText(tree: Tree, showSize: bool): string {
    var dirs := CollectDirs(Keys(tree));
    Lines(Sort(dirs), dirs, tree, showSize)
  }

  /** `createTreeDisplay`: collect the members, sort them, write one line each. */
  method CreateTreeDisplay(fileTree: Tree, showSize: bool) returns (result: string)
    ensures result == TreeText(fileTree, showSize)
  {
    var dirs := CollectMembers(fileTree);
    var sortedDirs := Sort(dirs);
    result := "";
    for j := 0 to |sortedDirs|
      invariant result == Lines(sortedDirs[..j], dirs, fileTree, showSize)
    {
      var line := FormatLine(sortedDirs[j], dirs, fileTree, showSize);
      assert sortedDirs[..j + 1][..j] == sortedDirs[..j];
      assert Lines(sortedDirs[..j + 1], dirs, fileTree, showSize) == result + line;
      result := result + line;
    }
    assert sortedDirs[..|sortedDirs|] == sortedDirs;
  }

  /** The first loop of `createTreeDisplay`: every prefix of every key into `dirs`. */
  method CollectMembers(fileTree: Tree) returns (dirs: seq<string>)
    ensures dirs == CollectDirs(Keys(fileTree))
  {
    dirs := [];
    for j := 0 to |fileTree|
      invariant dirs == CollectDirs(Keys(fileTree)[..j])
    {
      var path := fileTree[j].0;
      var parts := Split(path, '/');
      ghost var before := dirs;
      for i := 1 to |parts| + 1
        invariant dirs == AddPrefixes(before, parts, i - 1)
      {
        dirs := SetAdd(dirs, Join(parts[..i], '/'));
      }
      assert dirs == AddPrefixes(before, parts, |parts|);
      ghost var keys := Keys(fileTree)[..j + 1];
      assert keys[..j] == Keys(fileTree)[..j] && keys[j] == path;
      assert CollectDirs(keys) == AddPrefixes(before, parts, |parts|);
    }
    assert Keys(fileTree)[..|fileTree|] == Keys(fileTree);
  }

  /** The line templates of `createTreeDisplay` in the shape of `Line`. */
  lemma TemplateShapes(indent: string, name: string, sizeKB: string)
    ensures indent + "📄 " + name + " (" + sizeKB + " KB→30KB truncated)\n"
            == indent + "📄" + " " + name + (" (" + sizeKB + " KB→30KB truncated)") + "\n"
    ensures indent + "📄 " + name + " (" + sizeKB + " KB)\n"
            == indent + "📄" + " " + name + (" (" + sizeKB + " KB)") + "\n"
    ensures indent + "📄 " + name + " (0.00 KB)\n" == indent + "📄" + " " + name + " (0.00 KB)" + "\n"
    ensures indent + "📄" + " " + name + "\n" == indent + "📄" + " " + name + "" + "\n"
    ensures indent + "📂" + " " + name + "\n" == indent + "📂" + " " + name + "" + "\n"
  {
  }

  /** The body of the second loop of `createTreeDisplay`, for one member. */
  method FormatLine(dir: string, dirs: seq<string>, fileTree: Tree, showSize: bool) returns (line: string)
    ensures line == Line(dir, dirs, fileTree, showSize)
  {
    var parts := Split(dir, '/');
    var depth := |parts| - 1;
    var indent := Indent(depth);
    var name := parts[|parts| - 1];
    var isFile := !HasDescendant(dirs, dir);
    if showSize && isFile {
      var fileInfo := Get(fileTree, dir);
      if fileInfo.Some? {
        var sizeKB := FormatKiB(fileInfo.value.size);
        if fileInfo.value.isTruncated {
          line := indent + "📄 " + name + " (" + sizeKB + " KB→30KB truncated)\n";
          TemplateShapes(indent, name, sizeKB);
        } else {
          line := indent + "📄 " + name + " (" + sizeKB + " KB)\n";
          TemplateShapes(indent, name, sizeKB);
        }
      } else {
        line := indent + "📄 " + name + " (0.00 KB)\n";
        TemplateShapes(indent, name, "");
      }
    } else {
      line := indent + (if isFile then "📄" else "📂") + " " + name + "\n";
      TemplateShapes(indent, name, "");
    }
  }

  // ---------------------------------------------------------------------
  // The members

  lemma PathPrefixesOfPath(k: string, m: string)
    ensures IsPathPrefix(k, m) <==>
      exists i :: 1 <= i <= |Split(k, '/')| && Join(Split(k, '/')[..i], '/') == m
  {
    var parts := Split(k, '/');
    if IsPathPrefix(k, m) {
      if m == k {
        JoinedPrefix(k, '/', |parts|);
      } else {
        PrefixIsJoined(k, '/', m);
      }
    }
    if exists i :: 1 <= i <= |parts| && Join(parts[..i], '/') == m {
      var i :| 1 <= i <= |parts| && Join(parts[..i], '/') == m;
      JoinedPrefix(k, '/', i);
    }
  }

  lemma {:induction false} AddPrefixesMembers(dirs: seq<string>, parts: seq<string>, n: nat, m: string)
    requires n <= |parts|
    ensures m in AddPrefixes(dirs, parts, n) <==>
      m in dirs || exists i :: 1 <= i <= n && Join(parts[..i], '/') == m
  {
    if n > 0 {
      AddPrefixesMembers(dirs, parts, n - 1, m);
    }
  }

  lemma {:induction false} AddPrefixesDistinct(dirs: seq<string>, parts: seq<string>, n: nat)
    requires n <= |parts| && Distinct(dirs)
    ensures Distinct(AddPrefixes(dirs, parts, n))
  {
    if n > 0 {
      AddPrefixesDistinct(dirs, parts, n - 1);
    }
  }

  /** The collected set is the prefix closure of the keys, each member once. */
  lemma {:induction false} DirsAreClosure(keys: seq<string>)
    ensures Distinct(CollectDirs(keys))
    ensures forall m :: m in CollectDirs(keys) <==> InClosure(keys, m)
  {
    if keys != [] {
      var front := keys[..|keys| - 1];
      var k := keys[|keys| - 1];
      var parts := Split(k, '/');
      DirsAreClosure(front);
      AddPrefixesDistinct(CollectDirs(front), parts, |parts|);
      forall m
        ensures m in CollectDirs(keys) <==> InClosure(keys, m)
      {
        AddPrefixesMembers(CollectDirs(front), parts, |parts|, m);
        PathPrefixesOfPath(k, m);
        assert keys == front + [k];
        if InClosure(keys, m) && !IsPathPrefix(k, m) {
          var k' :| k' in keys && IsPathPrefix(k', m);
          assert k' in front;
        }
      }
    }
  }

  /**
    The lines are written for the members of the prefix closure, each once,
    in increasing code-unit order.
  */
  lemma SortedMembers(tree: Tree)
    ensures var sorted := Sort(CollectDirs(Keys(tree)));
      && Distinct(sorted)
      && (forall i, j :: 0 <= i < j < |sorted| ==> LexLe(sorted[i], sorted[j]))
      && (forall m :: m in sorted <==> InClosure(Keys(tree), m))
  {
    var dirs := CollectDirs(Keys(tree));
    var sorted := Sort(dirs);
    DirsAreClosure(Keys(tree));
    SortDistinct(dirs);
    forall i, j | 0 <= i < j < |sorted|
      ensures LexLe(sorted[i], sorted[j])
    {
      SortedAdjOrdered(sorted, i, j);
    }
    forall m
      ensures m in sorted <==> InClosure(Keys(tree), m)
    {
      assert m in sorted <==> m in multiset(sorted);
      assert m in dirs <==> m in multiset(dirs);
    }
  }

  lemma PrefixChain(a: string, b: string, c: string)
    requires StartsWith(a, b + "/") && StartsWith(b, c + "/")
    ensures StartsWith(a, c + "/")
  {
    assert a[..|c| + 1] == b[..|c| + 1];
  }

  /**
    A member gets the file icon iff no key lies below it; every such member
    is itself a key, so a record is always found for it.
  */
  lemma LeafIffNoKeyBelow(keys: seq<string>, m: string)
    requires InClosure(keys, m)
    ensures !HasDescendant(CollectDirs(keys), m) <==> forall k :: k in keys ==> !StartsWith(k, m + "/")
    ensures !HasDescendant(CollectDirs(keys), m) ==> m in keys
  {
    DirsAreClosure(keys);
    var dirs := CollectDirs(keys);
    if HasDescendant(dirs, m) {
      var d :| d in dirs && StartsWith(d, m + "/");
      var k :| k in keys && IsPathPrefix(k, d);
      if k != d {
        PrefixChain(k, d, m);
      }
    }
    if exists k :: k in keys && StartsWith(k, m + "/") {
      var k :| k in keys && StartsWith(k, m + "/");
      assert IsPathPrefix(k, k);
    }
    var k :| k in keys && IsPathPrefix(k, m);
    assert IsPathPrefix(k, k);
  }

  /** With sizes shown, a leaf line always reports a stored record, never "(0.00 KB)". */
  lemma LeafHasRecord(tree: Tree, m: string)
    requires InClosure(Keys(tree), m) && !HasDescendant(CollectDirs(Keys(tree)), m)
    ensures Get(tree, m).Some?
  {
    LeafIffNoKeyBelow(Keys(tree), m);
  }

  /** A member's line head: indentation by its number of `/`, its icon, and its last segment. */
  lemma LineHeadParts(dir: string, dirs: seq<string>)
    ensures LineHead(dir, dirs)
            == Indent(Count(dir, '/')) + (if HasDescendant(dirs, dir) then "📂" else "📄") + " " + LastPart(dir, '/')
    ensures '/' !in LastPart(dir, '/') && EndsWith(dir, LastPart(dir, '/'))
  {
    SplitLength(dir, '/');
    LastPartSuffix(dir, '/');
    var parts := Split(dir, '/');
    var icon := if HasDescendant(dirs, dir) then "📂" else "📄";
    assert |parts| - 1 == Count(dir, '/');
    var indent := Indent(|parts| - 1);
    assert indent == Indent(Count(dir, '/'));
    assert LineHead(dir, dirs) == indent + icon + " " + parts[|parts| - 1];
  }

  /** A member's line is its head, then the size note, ended by a newline. */
  lemma LineLayout(dir: string, dirs: seq<string>, tree: Tree, showSize: bool)
    ensures var line := Line(dir, dirs, tree, showSize);
      StartsWith(line, LineHead(dir, dirs)) && line[|line| - 1] == '\n'
  {
    NewlineTerminated(LineHead(dir, dirs), SizeNote(dir, dirs, tree, showSize));
  }

  lemma NewlineTerminated(head: string, note: string)
    ensures StartsWith(head + note + "\n", head)
    ensures var line := head + note + "\n"; line[|line| - 1] == '\n'
  {
    var noted := head + note;
    assert noted[..|head|] == head;
    assert (noted + "\n")[..|noted|] == noted;
  }

  /** A tree of one top-level file has that file as its only member. */
  lemma SingleFileMembers(name: string, info: FileInfo, showSize: bool)
    requires '/' !in name
    ensures TreeText([(name, info)], showSize) == Line(name, [name], [(name, info)], showSize)
    ensures !HasDescendant([name], name)
  {
    var t := [(name, info)];
    var dirs := [name];
    assert Keys(t) == dirs;
    SplitFree(name, '/');
    var parts := Split(name, '/');
    assert parts == dirs;
    assert Join(parts[..1], '/') == name;
    assert AddPrefixes([], parts, 1) == dirs;
    assert CollectDirs(dirs) == dirs;
    assert Sort(dirs) == dirs;
    assert !HasDescendant(dirs, name) by {
      assert |name + "/"| > |name|;
    }
    assert Lines(dirs, dirs, t, showSize) == Line(name, dirs, t, showSize);
  }

  /** A top-level path with nothing below it is an unindented file line. */
  lemma TopLevelFileLine(name: string, dirs: seq<string>, tree: Tree, showSize: bool)
    requires '/' !in name && !HasDescendant(dirs, name)
    ensures Line(name, dirs, tree, showSize) == "📄 " + name + SizeNote(name, dirs, tree, showSize) + "\n"
  {
    SplitFree(name, '/');
    assert Indent(0) == "";
    assert "" + "📄" + " " == "📄 ";
  }

  /** A file's size note shows its recorded size, and the cap when it was truncated. */
  lemma FileSizeNote(dir: string, dirs: seq<string>, tree: Tree, info: FileInfo)
    requires !HasDescendant(dirs, dir) && Get(tree, dir) == Some(info)
    ensures SizeNote(dir, dirs, tree, false) == ""
    ensures !info.isTruncated ==> SizeNote(dir, dirs, tree, true) == " (" + FormatKiB(info.size) + " KB)"
    ensures info.isTruncated ==> SizeNote(dir, dirs, tree, true) == " (" + FormatKiB(info.size) + " KB→30KB truncated)"
  {
  }

  /**
    The tree of a single top-level file is one unindented file line; with
    sizes it carries the original size and, when truncated, the cap.
  */
  lemma SingleFileTree(name: string, info: FileInfo, showSize: bool)
    requires '/' !in name
    ensures var text := TreeText([(name, info)], showSize);
      && (!showSize ==> text == "📄 " + name + "\n")
      && (showSize && !info.isTruncated ==> text == "📄 " + name + (" (" + FormatKiB(info.size) + " KB)") + "\n")
      && (showSize && info.isTruncated ==>
            text == "📄 " + name + (" (" + FormatKiB(info.size) + " KB→30KB truncated)") + "\n")
  {
    var t := [(name, info)];
    var text := TreeText(t, showSize);
    var note := SizeNote(name, [name], t, showSize);
    assert text == "📄 " + name + note + "\n" by {
      SingleFileMembers(name, info, showSize);
      TopLevelFileLine(name, [name], t, showSize);
    }
    assert Get(t, name) == Some(info);
    SingleFileMembers(name, info, showSize);
    FileSizeNote(name, [name], t, info);
  }
}
