/**
  Document assembly: after ingestion the handler answers a single-file
  request with that file's text (or "not found"), and otherwise renders
  either the tree-mode document (tree without sizes plus the README
  files) or the full document (tree with sizes, the two totals, and one
  fenced block per record in insertion order).
*/
module Document {
  import opened Strings
  import opened FileTree
  import opened TreeDisplay
  import opened Ingestion
  import Filters

  datatype Response = NotFound(path: string) | SingleFile(body: string) | TreeDoc(text: string) | FullDoc(text: string)

  /** `## {path}\n\n{content}\n\n`. */
  function ReadmeBlock(path: string, content: string): string {
    "## " + path + "\n\n" + content + "\n\n"
  }

  /** `` ```{path}\n{content}\n```\n\n ``. */
  function FileBlock(path: string, content: string): string {
    "```" + path + "\n" + content + "\n```\n\n"
  }

  /** The records the README section shows: README paths with non-empty content, in order. */
  function ReadmeRecords(t: Tree): Tree {
    if t == [] then []
    else
      var last := t[|t| - 1];
      ReadmeRecords(t[..|t| - 1])
      + if Filters.IsReadme(last.0) && last.1.content != "" then [last] else []
  }

  function ReadmeSection(rs: Tree): string {
    if rs == [] then "" else ReadmeSection(rs[..|rs| - 1]) + ReadmeBlock(rs[|rs| - 1].0, rs[|rs| - 1].1.content)
  }

  function FileBlocks(t: Tree): string {
    if t == [] then "" else FileBlocks(t[..|t| - 1]) + FileBlock(t[|t| - 1].0, t[|t| - 1].1.content)
  }

  const TreeHeader := "# Directory Structure\n\n"
  const ReadmeHeader := "\n# README Files\n\n"
  const FullHeader := "# 📁 File Tree\n\n"

  /** The heading over the file blocks, with both totals in KiB. */
  function TotalsHeading(originalTotal: nat, displayTotal: nat): string {
    "\n# 📝 Files (Total: " + FormatKiB(originalTotal) + " KB→" + FormatKiB(displayTotal) + " KB)\n\n"
  }

  /** The tree-mode document. */
  function TreeDocText(t: Tree): string {
    TreeHeader + TreeText(t, false) + ReadmeAppendix(ReadmeRecords(t))
  }

  /** The README part of the tree-mode document: nothing when there are no README records. */
  function ReadmeAppendix(rs: Tree): string {
    if rs != [] then ReadmeHeader + ReadmeSection(rs) else ""
  }

  /** The full document. */
  function FullDocText(t: Tree, originalTotal: nat, displayTotal: nat): string {
    FullDocHead(t, originalTotal, displayTotal) + FileBlocks(t)
  }

  /** What precedes the file blocks: header, tree with sizes and the totals heading. */
  function FullDocHead(t: Tree, originalTotal: nat, displayTotal: nat): string {
    FullHeader + TreeText(t, true) + TotalsHeading(originalTotal, displayTotal)
  }

  /** What the handler answers once the archive has been ingested. */
  function Assemble(ing: Ingested, req: Request): Response {
    if req.targetFile != "" then
      match Get(ing.tree, req.targetFile)
      case None => NotFound(req.targetFile)
      case Some(info) => SingleFile(info.content)
    else if req.treeMode then TreeDoc(TreeDocText(ing.tree))
    else FullDoc(FullDocText(ing.tree, ing.originalTotal, ing.displayTotal))
  }

  /** The `tsconfig.json` test over the archive's member names. */
  function ArchiveHasTsConfig(entries: seq<Entry>, req: Request): bool {
    Filters.HasTsConfig(Names(entries), req.rootPrefix)
  }

  /** The handler from the archive's members to the response. */
  function Respond(entries: seq<Entry>, req: Request): Response {
    Assemble(IngestSpec(entries, req, ArchiveHasTsConfig(entries, req)), req)
  }

  // ---------------------------------------------------------------------
  // The handler's imperative tail

  /** The handler after the archive is loaded: ingest, then answer. */
  method Handle(entries: seq<Entry>, req: Request) returns (resp: Response)
    ensures resp == Respond(entries, req)
  {
    var hasTsConfig := Filters.HasTsConfig(Names(entries), req.rootPrefix);
    var fileTree, originalTotalSize, displayTotalSize := Ingest(entries, req, hasTsConfig);
    if req.targetFile != "" {
      var fileEntry := Get(fileTree, req.targetFile);
      if fileEntry.None? {
        return NotFound(req.targetFile);
      }
      return SingleFile(fileEntry.value.content);
    }
    if req.treeMode {
      var resultText := BuildTreeDoc(fileTree);
      resp := TreeDoc(resultText);
    } else {
      var resultText := BuildFullDoc(fileTree, originalTotalSize, displayTotalSize);
      resp := FullDoc(resultText);
    }
  }

  /** The tree-mode branch: header, tree without sizes, then the README files if any. */
  method BuildTreeDoc(fileTree: Tree) returns (resultText: string)
    ensures resultText == TreeDocText(fileTree)
  {
    resultText := TreeHeader;
    var tree := CreateTreeDisplay(fileTree, false);
    resultText := resultText + tree;
    ghost var head := resultText;
    var readmeFiles := ReadmeRecords(fileTree);
    if |readmeFiles| > 0 {
      resultText := resultText + ReadmeHeader;
      ghost var before := resultText;
      for i := 0 to |readmeFiles|
        invariant resultText == before + ReadmeSection(readmeFiles[..i])
      {
        var block := ReadmeBlock(readmeFiles[i].0, readmeFiles[i].1.content);
        ReadmeSectionSnoc(readmeFiles, i);
        Associative(before, ReadmeSection(readmeFiles[..i]), block);
        resultText := resultText + block;
      }
      assert readmeFiles[..|readmeFiles|] == readmeFiles;
      Associative(head, ReadmeHeader, ReadmeSection(readmeFiles));
    }
    assert resultText == head + ReadmeAppendix(readmeFiles);
  }

  /** The full-mode branch: header, tree with sizes, totals, one block per record. */
  method BuildFullDoc(fileTree: Tree, originalTotalSize: nat, displayTotalSize: nat) returns (resultText: string)
    ensures resultText == FullDocText(fileTree, originalTotalSize, displayTotalSize)
  {
    resultText := FullHeader;
    var tree := CreateTreeDisplay(fileTree, true);
    resultText := resultText + tree;
    resultText := resultText + TotalsHeading(originalTotalSize, displayTotalSize);
    assert resultText == FullDocHead(fileTree, originalTotalSize, displayTotalSize);
    ghost var before := resultText;
    for i := 0 to |fileTree|
      invariant resultText == before + FileBlocks(fileTree[..i])
    {
      var block := FileBlock(fileTree[i].0, fileTree[i].1.content);
      FileBlocksSnoc(fileTree, i);
      Associative(before, FileBlocks(fileTree[..i]), block);
      resultText := resultText + block;
    }
    assert fileTree[..|fileTree|] == fileTree;
  }

  /** String concatenation regroups freely. */
  lemma Associative(a: string, b: string, c: string)
    ensures a + b + c == a + (b + c)
  {
  }

  /** One more README record adds its block at the end. */
  lemma ReadmeSectionSnoc(rs: Tree, i: nat)
    requires i < |rs|
    ensures ReadmeSection(rs[..i + 1]) == ReadmeSection(rs[..i]) + ReadmeBlock(rs[i].0, rs[i].1.content)
  {
    assert rs[..i + 1][..i] == rs[..i];
  }

  /** One more record adds its fenced block at the end. */
  lemma FileBlocksSnoc(t: Tree, i: nat)
    requires i < |t|
    ensures FileBlocks(t[..i + 1]) == FileBlocks(t[..i]) + FileBlock(t[i].0, t[i].1.content)
  {
    assert t[..i + 1][..i] == t[..i];
  }

  // ---------------------------------------------------------------------
  // Single-file requests

  /**
    Without a single-file request the answer is the tree-mode document of
    the ingested tree in tree mode, and the full document of the tree and
    its totals otherwise.
  */
  lemma NoTargetMeansDocument(entries: seq<Entry>, req: Request)
    requires req.targetFile == ""
    ensures var ing := IngestSpec(entries, req, ArchiveHasTsConfig(entries, req));
      && (req.treeMode ==> Respond(entries, req) == TreeDoc(TreeDocText(ing.tree)))
      && (!req.treeMode ==> Respond(entries, req) == FullDoc(FullDocText(ing.tree, ing.originalTotal, ing.displayTotal)))
  {
  }

  /**
    A single-file request is answered "not found" exactly when no member
    of the archive is kept under the requested path.
  */
  lemma NotFoundIff(entries: seq<Entry>, req: Request)
    requires req.targetFile != ""
    ensures var h := ArchiveHasTsConfig(entries, req);
      Respond(entries, req) == NotFound(req.targetFile) <==>
      !exists j :: 0 <= j < |entries| && Kept(entries[j], req, h) && RelativePath(entries[j], req) == req.targetFile
  {
    var h := ArchiveHasTsConfig(entries, req);
    var t := IngestSpec(entries, req, h).tree;
    KeysAreKeptPaths(entries, req, h);
    if exists j :: 0 <= j < |entries| && Kept(entries[j], req, h) && RelativePath(entries[j], req) == req.targetFile {
      var j :| 0 <= j < |entries| && Kept(entries[j], req, h) && RelativePath(entries[j], req) == req.targetFile;
      KeptMemberHasPath(entries, req, h, j);
      assert Get(t, req.targetFile).Some?;
    }
    if Get(t, req.targetFile).Some? {
      KeptPathHasMember(entries, req, h, req.targetFile);
    }
  }

  /**
    When the requested member is kept, the body is its record's content
    with no framing: in tree mode a non-README file is a placeholder, so
    the body is empty.
  */
  lemma SingleFileBody(entries: seq<Entry>, req: Request, j: nat)
    requires DistinctNames(entries) && req.targetFile != ""
    requires j < |entries| && Kept(entries[j], req, ArchiveHasTsConfig(entries, req))
    requires RelativePath(entries[j], req) == req.targetFile
    ensures Respond(entries, req) == SingleFile(RecordOf(entries[j], req).content)
    ensures req.treeMode && !Filters.IsReadme(req.targetFile) ==> Respond(entries, req) == SingleFile("")
  {
    var h := ArchiveHasTsConfig(entries, req);
    RecordsOfKeptMembers(entries, req, h, j);
  }

  // ---------------------------------------------------------------------
  // Tree mode

  /** The README section lists exactly the README records with non-empty content. */
  lemma {:induction false} ReadmeRecordsMembers(t: Tree, p: string, v: FileInfo)
    ensures (p, v) in ReadmeRecords(t) <==> (p, v) in t && Filters.IsReadme(p) && v.content != ""
  {
    if t != [] {
      var front := t[..|t| - 1];
      ReadmeRecordsMembers(front, p, v);
      assert t == front + [t[|t| - 1]];
    }
  }

  /** The handler's README section lists its README records once each, in the order the archive set them. */
  lemma HandlerReadmeOrder(entries: seq<Entry>, req: Request)
    ensures var rs := ReadmeRecords(IngestSpec(entries, req, ArchiveHasTsConfig(entries, req)).tree);
      && DistinctKeys(rs)
      && forall i, j :: 0 <= i < j < |rs| ==>
        IndexOf(IngestSpec(entries, req, ArchiveHasTsConfig(entries, req)).tree, rs[i].0)
        < IndexOf(IngestSpec(entries, req, ArchiveHasTsConfig(entries, req)).tree, rs[j].0)
  {
    var t := IngestSpec(entries, req, ArchiveHasTsConfig(entries, req)).tree;
    IngestedKeysDistinct(entries, req, ArchiveHasTsConfig(entries, req));
    ReadmeRecordsOrdered(t);
  }

  /**
    The README records keep the tree's order: with distinct keys, a record
    listed before another stands before it in the tree.
  */
  lemma {:induction false} ReadmeRecordsOrdered(t: Tree)
    ensures |ReadmeRecords(t)| <= |t|
    ensures DistinctKeys(t) ==> DistinctKeys(ReadmeRecords(t))
    ensures var rs := ReadmeRecords(t);
      DistinctKeys(t) ==> forall i, j :: 0 <= i < j < |rs| ==> IndexOf(t, rs[i].0) < IndexOf(t, rs[j].0)
  {
    if t != [] {
      var front := t[..|t| - 1];
      var last := t[|t| - 1];
      assert t == front + [last];
      ReadmeRecordsOrdered(front);
      if DistinctKeys(t) {
        assert DistinctKeys(front);
        var rs := ReadmeRecords(front);
        forall i | 0 <= i < |rs|
          ensures rs[i].0 != last.0 && IndexOf(t, rs[i].0) == IndexOf(front, rs[i].0) < |front|
        {
          ReadmeRecordsMembers(front, rs[i].0, rs[i].1);
          var k :| 0 <= k < |front| && front[k] == rs[i];
          IndexOfUnique(front, rs[i].0, k);
          IndexOfUnique(t, rs[i].0, k);
        }
        if Filters.IsReadme(last.0) && last.1.content != "" {
          var all := rs + [last];
          assert ReadmeRecords(t) == all;
          IndexOfUnique(t, last.0, |front|);
          forall i, j | 0 <= i < j < |all|
            ensures IndexOf(t, all[i].0) < IndexOf(t, all[j].0) && all[i].0 != all[j].0
          {
            if j < |rs| {
              assert all[i] == rs[i] && all[j] == rs[j];
            } else {
              assert all[i] == rs[i];
            }
          }
        } else {
          assert ReadmeRecords(t) == rs;
        }
      }
    }
  }

  /** The README heading appears iff some README record has non-empty content. */
  lemma ReadmeSectionIff(t: Tree)
    ensures ReadmeRecords(t) != [] <==>
      exists i :: 0 <= i < |t| && Filters.IsReadme(t[i].0) && t[i].1.content != ""
    ensures ReadmeRecords(t) == [] ==> TreeDocText(t) == TreeHeader + TreeText(t, false)
  {
    var rs := ReadmeRecords(t);
    if rs != [] {
      ReadmeRecordsMembers(t, rs[0].0, rs[0].1);
      var i :| 0 <= i < |t| && t[i] == rs[0];
    }
    if exists i :: 0 <= i < |t| && Filters.IsReadme(t[i].0) && t[i].1.content != "" {
      var i :| 0 <= i < |t| && Filters.IsReadme(t[i].0) && t[i].1.content != "";
      ReadmeRecordsMembers(t, t[i].0, t[i].1);
    }
  }

  // ---------------------------------------------------------------------
  // Full mode

  /** The blocks of two runs of records are the blocks of each, in order. */
  lemma {:induction false} FileBlocksAppend(a: Tree, b: Tree)
    ensures FileBlocks(a + b) == FileBlocks(a) + FileBlocks(b)
  {
    if b != [] {
      var front, last := b[..|b| - 1], b[|b| - 1];
      var ab := a + b;
      assert ab[..|ab| - 1] == a + front;
      assert ab[|ab| - 1] == last;
      var block := FileBlock(last.0, last.1.content);
      assert FileBlocks(ab) == FileBlocks(a + front) + block;
      FileBlocksAppend(a, front);
      assert FileBlocks(b) == FileBlocks(front) + block;
      Associative(FileBlocks(a), FileBlocks(front), block);
    } else {
      assert a + b == a;
    }
  }

  /** Record `i` has its block between the blocks of the records before and after it. */
  lemma FileBlockAt(t: Tree, i: nat)
    requires i < |t|
    ensures FileBlocks(t) == FileBlocks(t[..i]) + FileBlock(t[i].0, t[i].1.content) + FileBlocks(t[i + 1..])
  {
    var block := FileBlock(t[i].0, t[i].1.content);
    assert t == t[..i + 1] + t[i + 1..];
    FileBlocksAppend(t[..i + 1], t[i + 1..]);
    FileBlocksSnoc(t, i);
  }

  /**
    The full document is the head, the blocks of the records before `i`,
    record `i`'s fenced block, and the blocks of the records after it.
  */
  lemma FullDocContainsRecord(t: Tree, originalTotal: nat, displayTotal: nat, i: nat)
    requires i < |t|
    ensures FullDocText(t, originalTotal, displayTotal)
      == FullDocHead(t, originalTotal, displayTotal) + FileBlocks(t[..i]) + FileBlock(t[i].0, t[i].1.content) + FileBlocks(t[i + 1..])
  {
    var head := FullDocHead(t, originalTotal, displayTotal);
    var front, block, rest := FileBlocks(t[..i]), FileBlock(t[i].0, t[i].1.content), FileBlocks(t[i + 1..]);
    FileBlockAt(t, i);
    Associative(head, front + block, rest);
    Associative(head, front, block);
  }
}
