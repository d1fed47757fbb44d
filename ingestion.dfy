/**
  Ingestion: the loop of the request handler that walks the archive's
  members once, in archive order, and fills the insertion-ordered
  `fileTree` together with the two running totals (original UTF-8 bytes and
  displayed bytes).
*/
module Ingestion {
  import opened Strings
  import opened FileTree
  import Filters
  import Truncation

  /** One archive member: its full name, whether it is a directory, and its decoded text. */
  datatype Entry = Entry(name: string, isDir: bool, content: string)

  /**
    What the handler takes from the query string: the directory and
    extension scopes, `mode=tree`, the single file asked for (`""` when
    there is none) and the archive's root folder `"{repo}-{branch}/"`.
  */
  datatype Request = Request(
    targetDirs: seq<string>,
    targetExts: seq<string>,
    treeMode: bool,
    targetFile: string,
    rootPrefix: string)

  datatype Ingested = Ingested(tree: Tree, originalTotal: nat, displayTotal: nat)

  function Names(entries: seq<Entry>): (names: seq<string>)
    ensures |names| == |entries|
    ensures forall i :: 0 <= i < |entries| ==> names[i] == entries[i].name
  {
    seq(|entries|, i requires 0 <= i < |entries| => entries[i].name)
  }

  /** The archive's member names are keys of one object, so they are distinct. */
  predicate DistinctNames(entries: seq<Entry>) {
    forall i, j :: 0 <= i < j < |entries| ==> entries[i].name != entries[j].name
  }

  function RelativePath(e: Entry, req: Request): string
    requires StartsWith(e.name, req.rootPrefix)
  {
    e.name[|req.rootPrefix|..]
  }

  /** The member passes every test before the tree-mode branch. */
  predicate Admitted(e: Entry, req: Request) {
    && !e.isDir
    && StartsWith(e.name, req.rootPrefix)
    && (req.targetFile == "" || RelativePath(e, req) == req.targetFile)
    && Filters.ShouldIncludeFile(RelativePath(e, req), req.targetDirs, req.targetExts)
  }

  /** Tree mode registers a non-README member without reading it. */
  predicate IsPlaceholder(e: Entry, req: Request) {
    Admitted(e, req) && req.treeMode && !Filters.IsReadme(RelativePath(e, req))
  }

  /** The member's content is read and survives `shouldSkipFile`. */
  predicate IsRead(e: Entry, req: Request, hasTsConfig: bool) {
    && Admitted(e, req)
    && !(req.treeMode && !Filters.IsReadme(RelativePath(e, req)))
    && !Filters.ShouldSkipFile(RelativePath(e, req), Utf8Length(e.content), e.content, hasTsConfig)
  }

  predicate Kept(e: Entry, req: Request, hasTsConfig: bool) {
    IsPlaceholder(e, req) || IsRead(e, req, hasTsConfig)
  }

  /** The record a kept member is stored with. */
  function RecordOf(e: Entry, req: Request): FileInfo
    requires Admitted(e, req)
  {
    if IsPlaceholder(e, req) then FileInfo(0, "", false)
    else
      var size := Utf8Length(e.content);
      var d := Truncation.Truncate(e.content, size);
      FileInfo(size, d.content, d.isTruncated)
  }

  /**
    What the loop does with one member: a kept member's record is set
    under its path and its original and capped sizes are added to the
    totals (a placeholder's size is 0, so it adds nothing).
  */
  function Step(acc: Ingested, e: Entry, req: Request, hasTsConfig: bool): Ingested {
    if Kept(e, req, hasTsConfig) then
      var v := RecordOf(e, req);
      Ingested(Put(acc.tree, RelativePath(e, req), v),
               acc.originalTotal + v.size,
               acc.displayTotal + Truncation.Min(v.size, Truncation.MaxDisplayFileSize))
    else acc
  }

  /** The state after the loop has seen `entries`. */
  function IngestSpec(entries: seq<Entry>, req: Request, hasTsConfig: bool): Ingested {
    if entries == [] then Ingested([], 0, 0)
    else Step(IngestSpec(entries[..|entries| - 1], req, hasTsConfig), entries[|entries| - 1], req, hasTsConfig)
  }

  /** `Map.set` never duplicates a key: the ingested map's keys are distinct. */
  lemma {:induction false} IngestedKeysDistinct(entries: seq<Entry>, req: Request, hasTsConfig: bool)
    ensures DistinctKeys(IngestSpec(entries, req, hasTsConfig).tree)
  {
    if entries != [] {
      IngestedKeysDistinct(entries[..|entries| - 1], req, hasTsConfig);
    }
  }

  /** The handler's ingestion loop over the archive's members. */
  method Ingest(entries: seq<Entry>, req: Request, hasTsConfig: bool)
    returns (fileTree: Tree, originalTotalSize: nat, displayTotalSize: nat)
    ensures Ingested(fileTree, originalTotalSize, displayTotalSize) == IngestSpec(entries, req, hasTsConfig)
  {
    fileTree := [];
    originalTotalSize := 0;
    displayTotalSize := 0;
    for i := 0 to |entries|
      invariant Ingested(fileTree, originalTotalSize, displayTotalSize) == IngestSpec(entries[..i], req, hasTsConfig)
    {
      assert entries[..i + 1][..i] == entries[..i];
      fileTree, originalTotalSize, displayTotalSize :=
        IngestEntry(fileTree, originalTotalSize, displayTotalSize, entries[i], req, hasTsConfig);
    }
    assert entries[..|entries|] == entries;
  }

  /** One pass of the loop body, with its `continue`s as early returns. */
  method IngestEntry(tree: Tree, originalTotal: nat, displayTotal: nat, fileObj: Entry, req: Request, hasTsConfig: bool)
    returns (fileTree: Tree, originalTotalSize: nat, displayTotalSize: nat)
    ensures Ingested(fileTree, originalTotalSize, displayTotalSize)
            == Step(Ingested(tree, originalTotal, displayTotal), fileObj, req, hasTsConfig)
  {
    fileTree, originalTotalSize, displayTotalSize := tree, originalTotal, displayTotal;
    if fileObj.isDir {
      assert !Admitted(fileObj, req);
      return;
    }
    if !StartsWith(fileObj.name, req.rootPrefix) {
      assert !Admitted(fileObj, req);
      return;
    }
    var fileRelative := fileObj.name[|req.rootPrefix|..];
    assert fileRelative == RelativePath(fileObj, req);
    if req.targetFile != "" && fileRelative != req.targetFile {
      assert !Admitted(fileObj, req);
      return;
    }
    if !Filters.ShouldIncludeFile(fileRelative, req.targetDirs, req.targetExts) {
      assert !Admitted(fileObj, req);
      return;
    }
    fileTree, originalTotalSize, displayTotalSize :=
      StoreAdmitted(tree, originalTotal, displayTotal, fileObj, fileRelative, req, hasTsConfig);
  }

  /** The rest of the loop body, for a member that passed the filters. */
  method StoreAdmitted(tree: Tree, originalTotal: nat, displayTotal: nat, fileObj: Entry, fileRelative: string,
                       req: Request, hasTsConfig: bool)
    returns (fileTree: Tree, originalTotalSize: nat, displayTotalSize: nat)
    requires Admitted(fileObj, req) && fileRelative == RelativePath(fileObj, req)
    ensures Ingested(fileTree, originalTotalSize, displayTotalSize)
            == Step(Ingested(tree, originalTotal, displayTotal), fileObj, req, hasTsConfig)
  {
    var isReadmeFile := Filters.IsReadme(fileRelative);
    if req.treeMode && !isReadmeFile {
      fileTree := Put(tree, fileRelative, FileInfo(0, "", false));
      originalTotalSize, displayTotalSize := originalTotal, displayTotal;
      PlaceholderStep(Ingested(tree, originalTotal, displayTotal), fileObj, req, hasTsConfig, fileRelative);
    } else {
      fileTree, originalTotalSize, displayTotalSize :=
        StoreRead(tree, originalTotal, displayTotal, fileRelative, fileObj.content, hasTsConfig);
      ghost var acc := Ingested(tree, originalTotal, displayTotal);
      ghost var size := Utf8Length(fileObj.content);
      if Filters.ShouldSkipFile(fileRelative, size, fileObj.content, hasTsConfig) {
        SkipStep(acc, fileObj, req, hasTsConfig, fileRelative, size);
      } else {
        ReadStep(acc, fileObj, req, hasTsConfig, fileRelative, size);
      }
    }
  }

  /**
    A member outside tree mode, or a README: its text is read and either
    skipped or stored, capped for display, with both totals grown.
  */
  method StoreRead(tree: Tree, originalTotal: nat, displayTotal: nat, fileRelative: string, content: string,
                   hasTsConfig: bool)
    returns (fileTree: Tree, originalTotalSize: nat, displayTotalSize: nat)
    ensures var size := Utf8Length(content);
      var d := Truncation.Truncate(content, size);
      if Filters.ShouldSkipFile(fileRelative, size, content, hasTsConfig) then
        fileTree == tree && originalTotalSize == originalTotal && displayTotalSize == displayTotal
      else
        && fileTree == Put(tree, fileRelative, FileInfo(size, d.content, d.isTruncated))
        && originalTotalSize == originalTotal + size
        && displayTotalSize == displayTotal + d.displaySize
  {
    fileTree, originalTotalSize, displayTotalSize := tree, originalTotal, displayTotal;
    var size := Utf8Length(content);
    if Filters.ShouldSkipFile(fileRelative, size, content, hasTsConfig) {
      return;
    }
    var processedContent, isTruncated, displaySize := CapForDisplay(content, size);
    originalTotalSize := originalTotalSize + size;
    displayTotalSize := displayTotalSize + displaySize;
    fileTree := Put(fileTree, fileRelative, FileInfo(size, processedContent, isTruncated));
  }

  /** The step for a member tree mode registers without reading. */
  lemma PlaceholderStep(acc: Ingested, e: Entry, req: Request, hasTsConfig: bool, path: string)
    requires Admitted(e, req) && path == RelativePath(e, req)
    requires req.treeMode && !Filters.IsReadme(path)
    ensures Step(acc, e, req, hasTsConfig) == Ingested(Put(acc.tree, path, FileInfo(0, "", false)), acc.originalTotal, acc.displayTotal)
  {
    assert IsPlaceholder(e, req);
  }

  /** The step for a member that is read and then skipped. */
  lemma SkipStep(acc: Ingested, e: Entry, req: Request, hasTsConfig: bool, path: string, size: nat)
    requires Admitted(e, req) && path == RelativePath(e, req) && size == Utf8Length(e.content)
    requires !(req.treeMode && !Filters.IsReadme(path))
    requires Filters.ShouldSkipFile(path, size, e.content, hasTsConfig)
    ensures Step(acc, e, req, hasTsConfig) == acc
  {
  }

  /** The step for a member that is read and kept. */
  lemma ReadStep(acc: Ingested, e: Entry, req: Request, hasTsConfig: bool, path: string, size: nat)
    requires Admitted(e, req) && path == RelativePath(e, req) && size == Utf8Length(e.content)
    requires !(req.treeMode && !Filters.IsReadme(path))
    requires !Filters.ShouldSkipFile(path, size, e.content, hasTsConfig)
    ensures var d := Truncation.Truncate(e.content, size);
      Step(acc, e, req, hasTsConfig)
      == Ingested(Put(acc.tree, path, FileInfo(size, d.content, d.isTruncated)),
                  acc.originalTotal + size, acc.displayTotal + d.displaySize)
  {
    assert IsRead(e, req, hasTsConfig) && !IsPlaceholder(e, req);
  }

  /** The loop body's truncation of a read file to the display cap. */
  method CapForDisplay(content: string, size: nat) returns (processedContent: string, isTruncated: bool, displaySize: nat)
    ensures Truncation.Displayed(processedContent, displaySize, isTruncated) == Truncation.Truncate(content, size)
  {
    isTruncated := false;
    processedContent := content;
    displaySize := size;
    if size > Truncation.MaxDisplayFileSize {
      processedContent := content[..Truncation.Min(|content|, Truncation.MaxDisplayFileSize)];
      var remainingSize := size - Truncation.MaxDisplayFileSize;
      processedContent := processedContent + Truncation.TruncationNotice(remainingSize);
      isTruncated := true;
      displaySize := Truncation.MaxDisplayFileSize;
    }
  }

  // ---------------------------------------------------------------------
  // Properties of the ingested tree

  /** The paths of the kept members, in archive order. */
  function KeptPaths(entries: seq<Entry>, req: Request, hasTsConfig: bool): seq<string> {
    if entries == [] then []
    else
      var e := entries[|entries| - 1];
      KeptPaths(entries[..|entries| - 1], req, hasTsConfig)
      + if Kept(e, req, hasTsConfig) then [RelativePath(e, req)] else []
  }

  /** The keys are, as a set, the kept members' paths. */
  lemma {:induction false} KeysAreKeptPaths(entries: seq<Entry>, req: Request, hasTsConfig: bool)
    ensures forall k :: k in Keys(IngestSpec(entries, req, hasTsConfig).tree) <==> k in KeptPaths(entries, req, hasTsConfig)
  {
    if entries != [] {
      KeysAreKeptPaths(entries[..|entries| - 1], req, hasTsConfig);
    }
  }

  /** A kept path was stripped from some kept member. */
  lemma {:induction false} KeptPathHasMember(entries: seq<Entry>, req: Request, hasTsConfig: bool, k: string)
    requires k in KeptPaths(entries, req, hasTsConfig)
    ensures exists j :: 0 <= j < |entries| && Kept(entries[j], req, hasTsConfig) && RelativePath(entries[j], req) == k
  {
    var n := |entries| - 1;
    var front := entries[..n];
    var last := if Kept(entries[n], req, hasTsConfig) then [RelativePath(entries[n], req)] else [];
    assert KeptPaths(entries, req, hasTsConfig) == KeptPaths(front, req, hasTsConfig) + last;
    if k in KeptPaths(front, req, hasTsConfig) {
      KeptPathHasMember(front, req, hasTsConfig, k);
      var j :| 0 <= j < |front| && Kept(front[j], req, hasTsConfig) && RelativePath(front[j], req) == k;
      assert entries[j] == front[j];
    } else {
      assert Kept(entries[n], req, hasTsConfig) && RelativePath(entries[n], req) == k;
    }
  }

  /** Every kept member's path is a kept path. */
  lemma {:induction false} KeptMemberHasPath(entries: seq<Entry>, req: Request, hasTsConfig: bool, j: nat)
    requires j < |entries| && Kept(entries[j], req, hasTsConfig)
    ensures RelativePath(entries[j], req) in KeptPaths(entries, req, hasTsConfig)
  {
    var n := |entries| - 1;
    var front := entries[..n];
    var last := if Kept(entries[n], req, hasTsConfig) then [RelativePath(entries[n], req)] else [];
    assert KeptPaths(entries, req, hasTsConfig) == KeptPaths(front, req, hasTsConfig) + last;
    if j < n {
      assert front[j] == entries[j];
      KeptMemberHasPath(front, req, hasTsConfig, j);
    }
  }

  lemma RelativeInjective(a: Entry, b: Entry, req: Request)
    requires StartsWith(a.name, req.rootPrefix) && StartsWith(b.name, req.rootPrefix)
    requires RelativePath(a, req) == RelativePath(b, req)
    ensures a.name == b.name
  {
    assert a.name == req.rootPrefix + RelativePath(a, req);
    assert b.name == req.rootPrefix + RelativePath(b, req);
  }

  /** With distinct names, no earlier member is kept under the last member's path. */
  lemma FreshKey(entries: seq<Entry>, req: Request, hasTsConfig: bool)
    requires DistinctNames(entries) && entries != []
    requires StartsWith(entries[|entries| - 1].name, req.rootPrefix)
    ensures RelativePath(entries[|entries| - 1], req) !in KeptPaths(entries[..|entries| - 1], req, hasTsConfig)
  {
    var n := |entries| - 1;
    var front := entries[..n];
    var k := RelativePath(entries[n], req);
    if k in KeptPaths(front, req, hasTsConfig) {
      KeptPathHasMember(front, req, hasTsConfig, k);
      var j :| 0 <= j < |front| && Kept(front[j], req, hasTsConfig) && RelativePath(front[j], req) == k;
      assert front[j] == entries[j];
      RelativeInjective(front[j], entries[n], req);
      assert false;
    }
  }

  /**
    With distinct member names the keys are the kept members' paths, each
    once, in archive order.
  */
  lemma {:induction false} KeysInArchiveOrder(entries: seq<Entry>, req: Request, hasTsConfig: bool)
    requires DistinctNames(entries)
    ensures Keys(IngestSpec(entries, req, hasTsConfig).tree) == KeptPaths(entries, req, hasTsConfig)
  {
    if entries != [] {
      var front := entries[..|entries| - 1];
      KeysInArchiveOrder(front, req, hasTsConfig);
      if Kept(entries[|entries| - 1], req, hasTsConfig) {
        FreshKey(entries, req, hasTsConfig);
      }
    }
  }

  /**
    With distinct member names every kept member's path maps to the record
    made from that member: a placeholder in tree mode, otherwise the
    original size with the possibly truncated text.
  */
  lemma {:induction false} RecordsOfKeptMembers(entries: seq<Entry>, req: Request, hasTsConfig: bool, j: nat)
    requires DistinctNames(entries)
    requires j < |entries| && Kept(entries[j], req, hasTsConfig)
    ensures Get(IngestSpec(entries, req, hasTsConfig).tree, RelativePath(entries[j], req))
            == Some(RecordOf(entries[j], req))
  {
    var n := |entries| - 1;
    var front := entries[..n];
    var prev := IngestSpec(front, req, hasTsConfig);
    var e := entries[n];
    assert IngestSpec(entries, req, hasTsConfig) == Step(prev, e, req, hasTsConfig);
    var k := RelativePath(entries[j], req);
    if j < n {
      assert front[j] == entries[j];
      RecordsOfKeptMembers(front, req, hasTsConfig, j);
      if Kept(e, req, hasTsConfig) {
        if RelativePath(e, req) == k {
          RelativeInjective(e, entries[j], req);
          assert false;
        }
        assert Get(Put(prev.tree, RelativePath(e, req), RecordOf(e, req)), k) == Get(prev.tree, k);
      }
    }
  }

  /** What a record holds, by the branch that made it. */
  lemma RecordShape(e: Entry, req: Request, hasTsConfig: bool)
    requires Kept(e, req, hasTsConfig)
    ensures req.treeMode && !Filters.IsReadme(RelativePath(e, req)) ==> RecordOf(e, req) == FileInfo(0, "", false)
    ensures !(req.treeMode && !Filters.IsReadme(RelativePath(e, req))) ==>
      RecordOf(e, req).size == Utf8Length(e.content)
      && RecordOf(e, req).isTruncated == (Utf8Length(e.content) > Truncation.MaxDisplayFileSize)
      && (Utf8Length(e.content) <= Truncation.MaxDisplayFileSize ==> RecordOf(e, req).content == e.content)
  {
  }

  /** The displayed total never exceeds the original total. */
  lemma {:induction false} DisplayTotalWithinOriginal(entries: seq<Entry>, req: Request, hasTsConfig: bool)
    ensures IngestSpec(entries, req, hasTsConfig).displayTotal <= IngestSpec(entries, req, hasTsConfig).originalTotal
  {
    if entries != [] {
      DisplayTotalWithinOriginal(entries[..|entries| - 1], req, hasTsConfig);
    }
  }

  function SizeSum(t: Tree): nat {
    if t == [] then 0 else SizeSum(t[..|t| - 1]) + t[|t| - 1].1.size
  }

  function CappedSizeSum(t: Tree): nat {
    if t == [] then 0
    else CappedSizeSum(t[..|t| - 1]) + Truncation.Min(t[|t| - 1].1.size, Truncation.MaxDisplayFileSize)
  }

  lemma AppendNew(t: Tree, k: string, v: FileInfo)
    requires k !in Keys(t)
    ensures Put(t, k, v) == t + [(k, v)]
    ensures SizeSum(Put(t, k, v)) == SizeSum(t) + v.size
    ensures CappedSizeSum(Put(t, k, v)) == CappedSizeSum(t) + Truncation.Min(v.size, Truncation.MaxDisplayFileSize)
  {
    var r := t + [(k, v)];
    assert r[..|r| - 1] == t;
  }

  /**
    With distinct member names the totals are the sums over the stored
    records of their original sizes and of their sizes capped at 30 KiB;
    placeholders (size 0) add nothing.
  */
  lemma {:induction false} TotalsAreRecordSums(entries: seq<Entry>, req: Request, hasTsConfig: bool)
    requires DistinctNames(entries)
    ensures var r := IngestSpec(entries, req, hasTsConfig);
      r.originalTotal == SizeSum(r.tree) && r.displayTotal == CappedSizeSum(r.tree)
  {
    if entries != [] {
      var n := |entries| - 1;
      var front := entries[..n];
      var e := entries[n];
      TotalsAreRecordSums(front, req, hasTsConfig);
      var prev := IngestSpec(front, req, hasTsConfig);
      assert IngestSpec(entries, req, hasTsConfig) == Step(prev, e, req, hasTsConfig);
      if Kept(e, req, hasTsConfig) {
        FreshKey(entries, req, hasTsConfig);
        KeysAreKeptPaths(front, req, hasTsConfig);
      }
      StepKeepsSums(prev, e, req, hasTsConfig);
    }
  }

  /** One step keeps the totals equal to the record sums when it adds a fresh key. */
  lemma StepKeepsSums(acc: Ingested, e: Entry, req: Request, hasTsConfig: bool)
    requires acc.originalTotal == SizeSum(acc.tree) && acc.displayTotal == CappedSizeSum(acc.tree)
    requires Kept(e, req, hasTsConfig) ==> RelativePath(e, req) !in Keys(acc.tree)
    ensures var r := Step(acc, e, req, hasTsConfig);
      r.originalTotal == SizeSum(r.tree) && r.displayTotal == CappedSizeSum(r.tree)
  {
    if Kept(e, req, hasTsConfig) {
      var k, v := RelativePath(e, req), RecordOf(e, req);
      var r := Step(acc, e, req, hasTsConfig);
      assert r.tree == Put(acc.tree, k, v);
      assert r.originalTotal == acc.originalTotal + v.size;
      assert r.displayTotal == acc.displayTotal + Truncation.Min(v.size, Truncation.MaxDisplayFileSize);
      AppendNew(acc.tree, k, v);
    }
  }

  /** A single-file request keeps at most one record, under the requested path. */
  lemma {:induction false} SingleFileTree(entries: seq<Entry>, req: Request, hasTsConfig: bool)
    requires req.targetFile != ""
    ensures var t := IngestSpec(entries, req, hasTsConfig).tree;
      |t| <= 1 && forall i :: 0 <= i < |t| ==> t[i].0 == req.targetFile
  {
    if entries != [] {
      SingleFileTree(entries[..|entries| - 1], req, hasTsConfig);
    }
  }
}
