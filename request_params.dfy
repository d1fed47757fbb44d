/**
  The handler's request parameters: the comma-separated `dir` and `ext`
  lists, the trimmed `branch` and `file` values, the repository's owner,
  name and branch taken from the URL's path segments, and the archive's
  root folder `"{repo}-{branch}/"`.
*/
module RequestParams {
  import opened Strings
  import opened FileTree
  import Ingestion

  /** A query string as its `(name, value)` pairs, in order. */
  type Params = seq<(string, string)>

  /** `URLSearchParams.get`: the value of the first pair named `key`. */
  function Lookup(params: Params, key: string): Option<string> {
    if params == [] then None
    else if params[0].0 == key then Some(params[0].1)
    else Lookup(params[1..], key)
  }

  /** Trim each piece, lowercase it when asked, and drop the empty ones. */
  function CleanItems(pieces: seq<string>, lower: bool): seq<string> {
    if pieces == [] then []
    else
      var item := Clean(pieces[0], lower);
      (if item != "" then [item] else []) + CleanItems(pieces[1..], lower)
  }

  /** One piece trimmed, and lowercased when asked. */
  function Clean(piece: string, lower: bool): string {
    if lower then Lower(Trim(piece)) else Trim(piece)
  }

  /** `params.get(name)?.split(",").map(trim[, toLowerCase]) || []`, then `.filter(x => x)`. */
  function ParseList(value: Option<string>, lower: bool): seq<string> {
    if value.None? then [] else CleanItems(Split(value.value, ','), lower)
  }

  /** `params.get(name)?.trim()`, an absent value read as `""` (both are falsy). */
  function TrimmedParam(value: Option<string>): string {
    if value.None? then "" else Trim(value.value)
  }

  /** The non-empty strings of `xs`, in order: `.filter(Boolean)`. */
  function NonEmpty(xs: seq<string>): seq<string> {
    if xs == [] then [] else (if xs[0] != "" then [xs[0]] else []) + NonEmpty(xs[1..])
  }

  /** `parsed.pathname.split("/").filter(Boolean)`. */
  function PathSegments(pathname: string): seq<string> {
    NonEmpty(Split(pathname, '/'))
  }

  /**
    The branch as the code derives it: `segments[3..]` joined by "/" for a
    `/owner/repo/tree/...` path when no branch parameter was supplied, and
    "main" in every other case, a supplied parameter included.
  */
  function DeriveBranch(paramBranch: string, segments: seq<string>): string {
    if paramBranch == "" && |segments| > 3 && segments[2] == "tree" then Join(segments[3..], '/')
    else "main"
  }

  /**
    The branch as evidently intended: a supplied parameter wins. `Locate`
    keeps the code's own derivation; this is the corrected one.
  */
  function IntendedBranch(paramBranch: string, segments: seq<string>): string {
    if paramBranch != "" then paramBranch
    else if |segments| > 3 && segments[2] == "tree" then Join(segments[3..], '/')
    else "main"
  }

  /** The archive's root folder. */
  function RootPrefix(repo: string, branch: string): string {
    repo + "-" + branch + "/"
  }

  datatype Location = InvalidUrl(message: string) | Repository(owner: string, repo: string, branch: string)

  /** Owner, repository and branch from the path segments; fewer than two segments is a 400. */
  function Locate(segments: seq<string>, paramBranch: string): (loc: Location)
    ensures loc.InvalidUrl? <==> |segments| < 2
    ensures loc.Repository? ==>
      && loc.owner == segments[0] && loc.repo == segments[1]
      && loc.branch == DeriveBranch(paramBranch, segments)
  {
    if |segments| < 2 then InvalidUrl("Invalid GitHub repository URL format")
    else Repository(segments[0], segments[1], DeriveBranch(paramBranch, segments))
  }

  /**
    The ingestion request the handler's parameters and the located
    repository describe: the directory scopes are the trimmed non-empty
    comma pieces of `dir`, the extensions those of `ext` lower-cased, tree
    mode is `mode=tree` exactly, the requested file is the trimmed `file`,
    and the root folder is `"{repo}-{branch}/"`.
  */
  function RequestOf(params: Params, loc: Location): (r: Ingestion.Request)
    requires loc.Repository?
    ensures forall x :: x in r.targetDirs <==>
      Lookup(params, "dir").Some? && x != "" && exists p :: p in Split(Lookup(params, "dir").value, ',') && x == Trim(p)
    ensures forall x :: x in r.targetExts <==>
      Lookup(params, "ext").Some? && x != "" && exists p :: p in Split(Lookup(params, "ext").value, ',') && x == Lower(Trim(p))
    ensures forall k :: 0 <= k < |r.targetDirs| ==> r.targetDirs[k] != ""
    ensures forall k :: 0 <= k < |r.targetExts| ==> r.targetExts[k] != "" && Lower(r.targetExts[k]) == r.targetExts[k]
    ensures r.treeMode <==> Lookup(params, "mode") == Some("tree")
    ensures r.targetFile == TrimmedParam(Lookup(params, "file"))
    ensures r.rootPrefix == loc.repo + "-" + loc.branch + "/"
    ensures StartsWith(r.rootPrefix, loc.repo + "-") && EndsWith(r.rootPrefix, "/")
    ensures |r.rootPrefix| == |loc.repo| + |loc.branch| + 2
  {
    ParsedItems(Lookup(params, "dir"), false);
    ParsedItems(Lookup(params, "ext"), true);
    ParseListMembers(Lookup(params, "dir"), false);
    ParseListMembers(Lookup(params, "ext"), true);
    RootPrefixShape(loc.repo, loc.branch);
    Ingestion.Request(
      ParseList(Lookup(params, "dir"), false),
      ParseList(Lookup(params, "ext"), true),
      Lookup(params, "mode") == Some("tree"),
      TrimmedParam(Lookup(params, "file")),
      RootPrefix(loc.repo, loc.branch))
  }

  /**
    The repository the handler locates for a pathname and a query string:
    the segments of the path, with the trimmed `branch` parameter.
  */
  function LocateFrom(params: Params, pathname: string): (loc: Location)
    ensures loc.InvalidUrl? <==> |PathSegments(pathname)| < 2
    ensures loc.Repository? ==> loc.branch == DeriveBranch(TrimmedParam(Lookup(params, "branch")), PathSegments(pathname))
  {
    Locate(PathSegments(pathname), TrimmedParam(Lookup(params, "branch")))
  }

  // ---------------------------------------------------------------------
  // Properties

  /** `get` finds a value iff some pair has the name, and then it is the first such pair's. */
  lemma {:induction false} LookupFirst(params: Params, key: string)
    ensures Lookup(params, key).Some? <==> exists i :: 0 <= i < |params| && params[i].0 == key
    ensures Lookup(params, key).Some? ==>
      exists i :: 0 <= i < |params| && params[i] == (key, Lookup(params, key).value)
        && forall j :: 0 <= j < i ==> params[j].0 != key
  {
    if params != [] && params[0].0 != key {
      LookupFirst(params[1..], key);
      if exists i :: 0 <= i < |params| && params[i].0 == key {
        var i :| 0 <= i < |params| && params[i].0 == key;
        assert params[1..][i - 1].0 == key;
      }
      if Lookup(params, key).Some? {
        var i :| 0 <= i < |params[1..]| && params[1..][i] == (key, Lookup(params, key).value)
          && forall j :: 0 <= j < i ==> params[1..][j].0 != key;
        assert params[i + 1] == (key, Lookup(params, key).value);
        forall j | 0 <= j < i + 1
          ensures params[j].0 != key
        {
          if j > 0 { assert params[j] == params[1..][j - 1]; }
        }
      }
    }
  }

  /** A listed item is a cleaned, non-empty piece of the comma-split value, and every such piece is listed. */
  lemma {:induction false} CleanItemsMembers(pieces: seq<string>, lower: bool, x: string)
    ensures x in CleanItems(pieces, lower) <==>
      x != "" && exists i :: 0 <= i < |pieces| && x == Clean(pieces[i], lower)
  {
    if pieces != [] {
      var item, rest := Clean(pieces[0], lower), CleanItems(pieces[1..], lower);
      assert CleanItems(pieces, lower) == (if item != "" then [item] else []) + rest;
      assert x in CleanItems(pieces, lower) <==> (x == item && item != "") || x in rest;
      CleanItemsMembers(pieces[1..], lower, x);
      if exists i :: 0 <= i < |pieces| && x == Clean(pieces[i], lower) {
        var i :| 0 <= i < |pieces| && x == Clean(pieces[i], lower);
        if i > 0 { assert pieces[1..][i - 1] == pieces[i]; }
      }
      if x in CleanItems(pieces[1..], lower) {
        var i :| 0 <= i < |pieces[1..]| && x == Clean(pieces[1..][i], lower);
        assert pieces[i + 1] == pieces[1..][i];
      }
    }
  }

  /** Already clean items pass through unchanged. */
  lemma {:induction false} CleanItemsIdentity(items: seq<string>)
    requires forall k :: 0 <= k < |items| ==> items[k] != "" && Trim(items[k]) == items[k]
    ensures CleanItems(items, false) == items
  {
    if items != [] {
      CleanItemsIdentity(items[1..]);
      assert [items[0]] + items[1..] == items;
    }
  }

  /**
    Round trip: a list of trimmed, non-empty items without commas, joined
    by commas, parses back to itself.
  */
  lemma ParseListJoin(items: seq<string>)
    requires forall k :: 0 <= k < |items| ==> items[k] != "" && Trim(items[k]) == items[k] && ',' !in items[k]
    ensures ParseList(Some(Join(items, ',')), false) == items
  {
    if items == [] {
      SplitFree("", ',');
      assert Trim("") == "";
    } else {
      SplitJoin(items, ',');
      CleanItemsIdentity(items);
    }
  }

  /** Dropping the empty strings leaves a list without empty strings alone. */
  lemma {:induction false} NonEmptyIdentity(xs: seq<string>)
    requires forall k :: 0 <= k < |xs| ==> xs[k] != ""
    ensures NonEmpty(xs) == xs
  {
    if xs != [] {
      NonEmptyIdentity(xs[1..]);
      assert [xs[0]] + xs[1..] == xs;
    }
  }

  /** The segments of a path written from non-empty, slash-free names are those names. */
  lemma SegmentsOfJoin(names: seq<string>)
    requires names != []
    requires forall k :: 0 <= k < |names| ==> names[k] != "" && '/' !in names[k]
    ensures PathSegments(Join(names, '/')) == names
  {
    SplitJoin(names, '/');
    NonEmptyIdentity(names);
  }

  /**
    A `/owner/repo/tree/b1/.../bn` path without a branch parameter yields
    the branch `b1/.../bn`, whose own segments are the names written.
  */
  lemma BranchFromTreePath(names: seq<string>)
    requires |names| > 3 && names[2] == "tree"
    requires forall k :: 0 <= k < |names| ==> names[k] != "" && '/' !in names[k]
    ensures var segments := PathSegments(Join(names, '/'));
      && DeriveBranch("", segments) == Join(names[3..], '/')
      && IntendedBranch("", segments) == Join(names[3..], '/')
      && Split(DeriveBranch("", segments), '/') == names[3..]
  {
    SegmentsOfJoin(names);
    var branchNames := names[3..];
    forall p | p in branchNames
      ensures '/' !in p
    {
      var k :| 0 <= k < |branchNames| && branchNames[k] == p;
      assert p == names[k + 3];
    }
    SplitJoin(branchNames, '/');
  }

  /** As written, a supplied branch parameter is always overridden by "main". */
  lemma SuppliedBranchIgnored(paramBranch: string, segments: seq<string>)
    requires paramBranch != ""
    ensures DeriveBranch(paramBranch, segments) == "main"
  {
  }

  /** The input that shows it: `?branch=dev` on `/owner/repo` fetches "main". */
  lemma SuppliedBranchCounterexample()
    ensures DeriveBranch("dev", ["owner", "repo"]) == "main"
    ensures IntendedBranch("dev", ["owner", "repo"]) == "dev"
  {
  }

  /** The corrected derivation honours the parameter and otherwise agrees with the code. */
  lemma IntendedBranchHonoursParam(paramBranch: string, segments: seq<string>)
    ensures paramBranch != "" ==> IntendedBranch(paramBranch, segments) == paramBranch
    ensures paramBranch == "" ==> IntendedBranch(paramBranch, segments) == DeriveBranch(paramBranch, segments)
    ensures (forall k :: 0 <= k < |segments| ==> segments[k] != "") ==> IntendedBranch(paramBranch, segments) != ""
  {
    if paramBranch == "" && |segments| > 3 && segments[2] == "tree" {
      JoinNonEmpty(segments[3..], segments[3]);
    }
  }

  /** A join that includes a non-empty first name is non-empty. */
  lemma JoinNonEmpty(xs: seq<string>, first: string)
    requires xs != [] && xs[0] == first
    ensures |Join(xs, '/')| >= |first|
  {
    if |xs| > 1 {
      JoinAppend([xs[0]], xs[1..], '/');
      assert [xs[0]] + xs[1..] == xs;
    }
  }

  /** The root folder starts with the repository's name and a `-`, and ends in "/". */
  lemma RootPrefixShape(repo: string, branch: string)
    ensures var p := RootPrefix(repo, branch);
      StartsWith(p, repo + "-") && EndsWith(p, "/") && |p| == |repo| + |branch| + 2
  {
    var p := RootPrefix(repo, branch);
    assert p[..|repo + "-"|] == repo + "-";
    assert p[|p| - 1..] == "/";
  }

  /** An item is listed iff it is a cleaned, non-empty comma piece of a present value. */
  lemma ParseListMembers(value: Option<string>, lower: bool)
    ensures forall x :: x in ParseList(value, lower) <==>
      value.Some? && x != "" && exists p :: p in Split(value.value, ',') && x == Clean(p, lower)
  {
    forall x
      ensures x in ParseList(value, lower) <==>
        value.Some? && x != "" && exists p :: p in Split(value.value, ',') && x == Clean(p, lower)
    {
      if value.Some? {
        var pieces := Split(value.value, ',');
        CleanItemsMembers(pieces, lower, x);
        PieceIndex(pieces, lower, x);
      }
    }
  }

  /** A cleaned piece found by index is one found by membership, and back. */
  lemma PieceIndex(pieces: seq<string>, lower: bool, x: string)
    ensures (exists i :: 0 <= i < |pieces| && x == Clean(pieces[i], lower)) <==>
      exists p :: p in pieces && x == Clean(p, lower)
  {
  }

  /**
    The branch Finding from the query string on: a non-empty `branch`
    parameter on any repository path still locates the branch "main".
  */
  lemma SuppliedBranchParamIgnored(params: Params, pathname: string)
    requires TrimmedParam(Lookup(params, "branch")) != ""
    requires |PathSegments(pathname)| >= 2
    ensures LocateFrom(params, pathname) == Repository(PathSegments(pathname)[0], PathSegments(pathname)[1], "main")
  {
    SuppliedBranchIgnored(TrimmedParam(Lookup(params, "branch")), PathSegments(pathname));
  }

  /** Every parsed item is non-empty, and every parsed extension is already lower-case. */
  lemma ParsedItems(value: Option<string>, lower: bool)
    ensures var xs := ParseList(value, lower);
      forall k :: 0 <= k < |xs| ==> xs[k] != "" && (lower ==> Lower(xs[k]) == xs[k])
  {
    var xs := ParseList(value, lower);
    forall k | 0 <= k < |xs|
      ensures xs[k] != "" && (lower ==> Lower(xs[k]) == xs[k])
    {
      if value.Some? {
        var pieces := Split(value.value, ',');
        CleanItemsMembers(pieces, lower, xs[k]);
        var i :| 0 <= i < |pieces| && xs[k] == Clean(pieces[i], lower);
        LowerIdempotent(Trim(pieces[i]));
      }
    }
  }

  lemma LowerIdempotent(s: string)
    ensures Lower(Lower(s)) == Lower(s)
  {
  }
}
