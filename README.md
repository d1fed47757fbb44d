# pera1: GitHub repository archive to one text document

This project models the core of the pera1 worker in Dafny. The worker
takes a GitHub repository URL and answers with a single text document.
It holds the repository's directory tree followed by the contents of its
text files, or, in tree mode, the tree followed by its README files. It
can also answer with the raw text of one file.

The model starts from the archive's members, given as a sequence of
`(name, isDir, content)` entries, and follows the request handler
through five stages:

- **Request parameters** (`RequestParams`): the `dir` and `ext` lists,
  the trimmed `branch` and `file` values, owner/repository/branch from the
  URL's path segments, and the root folder `"{repo}-{branch}/"`.
- **Filters** (`Filters`, `Classifier`): `shouldIncludeFile` (directory
  and extension scopes), `shouldSkipFile` (lock files, image and binary
  extensions, compiled JavaScript in a TypeScript project, the 500 KiB
  size limit, binary content), and `isBinaryContent` (more than 5% control
  characters in the first 1000 code units). Also the README test and the
  `tsconfig.json` test.
- **Ingestion** (`Ingestion`, `Truncation`, `FileTree`):
  - One pass over the members fills an insertion-ordered map
    (`FileTree`), with JavaScript `Map.set` semantics, and two running
    totals: original UTF-8 bytes and displayed bytes.
  - Files over 30 KiB are cut to 30720 code units, followed by a notice.
  - In tree mode only README files are read; every other file is
    registered as an empty placeholder.
- **Tree display** (`TreeDisplay`): `createTreeDisplay`.
  - Every key and every path-prefix of a key becomes a member.
  - The members are sorted by code units, and each gets one line.
  - A line holds two spaces per depth level, a folder or file icon, the
    last path piece and, with sizes shown, the file's size in KiB.
- **Document assembly** (`Document`): the single-file answer
  (`NotFound` or the record's content), the tree-mode document and the
  full document.

Where the handler is written as loops over mutable state, the model is
imperative, and each method is proved equal to a function:

| method | loop it models | function it is proved equal to |
|---|---|---|
| `Ingestion.Ingest` | the ingestion loop | `IngestSpec` |
| `TreeDisplay.CreateTreeDisplay` | the output loop of `createTreeDisplay` | `TreeText` |
| `TreeDisplay.CollectMembers` | the member collection loop | `CollectDirs` |
| `Document.BuildTreeDoc` | the tree-mode append loop | `TreeDocText` |
| `Document.BuildFullDoc` | the full-mode append loop | `FullDocText` |
| `Classifier.IsBinaryContent` | the counting loop | `IsBinary` |

The properties the handler promises are lemmas about those functions.

Conventions:
- Strings are `seq<char>`; one `char` is one code point, which is one
  UTF-16 code unit on the Basic Multilingual Plane.
- The `size` of a file is `Utf8Length(content)`, the byte count of its
  UTF-8 encoding, which is what the code measures with `TextEncoder`.
- `(bytes / 1024).toFixed(2)` is computed exactly in integers.
  `bytes / 1024` is always exactly representable, so the rounded
  hundredths are `(bytes * 100 + 512) div 1024`. Ties round up, as
  section 21.1.3.3 of ECMA-262 (`Number.prototype.toFixed`) specifies.
- "No single-file request" is `targetFile == ""`. The code tests the
  value's truthiness, where `undefined` and `""` behave the same.

Three details of the code's behaviour that the model keeps:
- The truncation notice ends in `…{n}KB remaining.`, with no space
  between the number and `KB`.
- A file's line in the tree shows `fileInfo.size`, the original size,
  even when the file was truncated.
- The lock-file test runs on the whole relative path and is
  case-sensitive.

## Model

| member | source | states |
|---|---|---|
| Classifier.IsBinaryContent | src/index.ts:282-292 | the loop's answer is `IsBinary`: over the first min(length, 1000) code units, the count of units below 32 other than tab, LF and CR, times 20, exceeds the sample size; binary text is never empty |
| Classifier.PrintableSampleIsText | src/index.ts:282-292 | a sample without control characters is never binary |
| Classifier.FivePercentBoundary | src/index.ts:291 | on a full 1000-unit sample, 50 control units (exactly 5%) is text and 51 is binary |
| Filters.SkipIsDisjunction | src/index.ts:295-360 | a file is skipped iff it is over 500 KiB, or has binary non-empty content, or is `.js`/`.mjs` in a TypeScript project, or has an image/binary extension, or matches the lock pattern; the early returns' order does not matter |
| Filters.IncludeIff | src/index.ts:363-384 | a file is included iff (no directory scope, or it starts with some scope with `/` appended when missing) and (no extension scope, or its lower-cased last `.`-piece is listed) |
| Filters.SomeDirMatchesIff | src/index.ts:370-373 | `targetDirs.some(...)` holds iff some normalised scope is a prefix of the path |
| Filters.NormalizeDir | src/index.ts:371 | the normalised scope ends with `/`; it is the scope itself exactly when the scope already ends with `/`, and the scope plus `/` otherwise |
| Filters.DirScopeIsDirectory | src/index.ts:371-372 | a scope written without `/` admits only paths that continue with `/` right after it |
| Filters.DirScopeExamples | src/index.ts:369-375 | scope "src" admits "src/index.ts" and rejects "srcfoo/index.ts" and "src" |
| Filters.ExtensionsAgree | src/index.ts:340-379 | lower-casing before splitting on `.` (skip test) and after (include test) give the same extension |
| Filters.ExtensionIsLastPiece | src/index.ts:379 | the extension has no `.`, is a suffix of the lower-cased path that is either the whole path or starts right after a `.`, and is the whole lower-cased path when there is no `.` |
| Filters.HasTsConfigIff | src/index.ts:467-469 | the project counts as TypeScript iff some member name starts with the root folder and ends with `tsconfig.json` |
| Truncation.Truncate | src/index.ts:507-521 | truncated iff size > 30720; displayed size is min(size, 30720); untruncated content is unchanged; truncated content is the first min(length, 30720) units followed by the notice with (size - 30720) bytes in KiB |
| Truncation.DisplayedWithinOriginal | src/index.ts:509-520 | the displayed size never exceeds the original size or 30720 |
| Truncation.SmallFileFitsInCap | src/index.ts:511 | a file within 30720 UTF-8 bytes is within 30720 code units and passes through unchanged |
| Truncation.Truncate40KiB | src/index.ts:511-520 | a 40960-byte ASCII file keeps its first 30720 units and reports "10.00KB remaining" |
| Strings.FormatKiBReadsBack | src/index.ts:264 | the `toFixed(2)` text is digits, a point and two digits, and reads back as the rounded hundredths of KiB |
| Strings.KiBHundredths | src/index.ts:264 | the hundredths are within half a hundredth of bytes / 1024 |
| Strings.Utf8Length | src/index.ts:499 | the UTF-8 byte count is between one and four bytes per character, and one per character for ASCII |
| FileTree.Put | src/index.ts:528-532 | `Map.set`: the key order is unchanged for an existing key and gets the key appended for a new one; the key now maps to the value; every other key keeps its value; distinct keys stay distinct |
| FileTree.Get | src/index.ts:538 | a value is found iff the key is present, and the pair is in the map |
| FileTree.GetDistinct | src/index.ts:262 | with distinct keys, looking up a pair's key gives that pair's value |
| Ingestion.Ingest | src/index.ts:471-534 | the loop's map and totals equal `IngestSpec`, the fold of the per-member step over the archive |
| Ingestion.IngestEntry | src/index.ts:476-489 | one pass of the body, with its `continue`s (directory, outside the root, not the requested file, out of scope), equals the step |
| Ingestion.StoreAdmitted | src/index.ts:491-533 | for a member past the filters, a tree-mode non-README is set as an empty placeholder with totals unchanged; otherwise the read branch runs; equals the step |
| Ingestion.StoreRead | src/index.ts:498-532 | a skipped file leaves map and totals unchanged; otherwise the capped record is set under the path, and the totals grow by the size and the displayed size |
| Ingestion.CapForDisplay | src/index.ts:507-521 | the loop's truncation block computes `Truncate` |
| Ingestion.PlaceholderStep | src/index.ts:492-495 | a tree-mode non-README member past the filters is set as an empty record of size 0 and leaves both totals unchanged |
| Ingestion.SkipStep | src/index.ts:502-504 | a read member that `shouldSkipFile` rejects leaves the state unchanged |
| Ingestion.ReadStep | src/index.ts:507-532 | a read member that is not skipped adds its capped record and both sizes |
| Ingestion.IngestedKeysDistinct | src/index.ts:471-534 | the ingested map never holds a key twice, as `Map.set` guarantees |
| Ingestion.KeysAreKeptPaths | src/index.ts:475-534 | the map's keys are, as a set, the relative paths of the kept members |
| Ingestion.KeysInArchiveOrder | src/index.ts:475-534 | with distinct member names, the keys are the kept paths in archive order, without repetition |
| Ingestion.KeptPathHasMember | src/index.ts:475-534 | every key comes from some kept member |
| Ingestion.KeptMemberHasPath | src/index.ts:475-534 | every kept member's path is a key |
| Ingestion.RelativeInjective | src/index.ts:479 | two members under the root with the same relative path have the same name |
| Ingestion.FreshKey | src/index.ts:475-479 | with distinct member names, a member's path is not the path of an earlier kept member |
| Ingestion.RecordsOfKeptMembers | src/index.ts:493-532 | with distinct member names, each kept member's path maps to that member's record: the placeholder in tree mode for a non-README, else the capped content with the original size |
| Ingestion.RecordShape | src/index.ts:493-532 | a placeholder is size 0 with no content; a read record is truncated iff over 30720 bytes and holds the unchanged content when within the cap |
| Ingestion.DisplayTotalWithinOriginal | src/index.ts:524-526 | the displayed total never exceeds the original total |
| Ingestion.TotalsAreRecordSums | src/index.ts:524-532 | with distinct member names, the original total is the sum of the records' sizes and the displayed total the sum of their capped sizes |
| Ingestion.StepKeepsSums | src/index.ts:524-532 | one step with a fresh key keeps the totals equal to the record sums |
| Ingestion.AppendNew | src/index.ts:528 | setting a new key appends it and adds its size and capped size to the sums |
| Ingestion.SingleFileTree | src/index.ts:482-484 | with a single-file request the map holds at most one record, under the requested path |
| TreeDisplay.CollectMembers | src/index.ts:243-250 | the collection loop yields `CollectDirs` of the keys |
| TreeDisplay.DirsAreClosure | src/index.ts:243-250 | the members are distinct and are exactly the keys and their `/`-prefixes |
| TreeDisplay.PathPrefixesOfPath | src/index.ts:246-248 | `parts.slice(0, i).join("/")` for some i is exactly the path or a prefix ending just before a `/` |
| TreeDisplay.SortedMembers | src/index.ts:252 | the sorted members are distinct, in code-unit order, and are exactly the closure of the keys |
| TreeDisplay.CreateTreeDisplay | src/index.ts:239-279 | the output loop yields one `Line` per sorted member, in order |
| TreeDisplay.FormatLine | src/index.ts:256-275 | each of the five templates of the loop body is the member's `Line` |
| TreeDisplay.LineHeadParts | src/index.ts:256-274 | a line starts with two spaces per `/` in the member, the icon (📂 iff some member extends it by `/`), a space and the last path piece, which has no `/` and ends the member |
| TreeDisplay.LineLayout | src/index.ts:266-274 | every line starts with its head and ends with a newline |
| TreeDisplay.LeafIffNoKeyBelow | src/index.ts:259 | a member is a file iff no key lies below it, and a file member is itself a key |
| TreeDisplay.LeafHasRecord | src/index.ts:262-272 | every file member has a record, so the "(0.00 KB)" branch is never taken |
| TreeDisplay.PrefixChain | src/index.ts:259 | below-of is transitive |
| TreeDisplay.FileSizeNote | src/index.ts:261-269 | a file line's note is empty without sizes, and otherwise " (K KB)" or " (K KB→30KB truncated)" with the original size in KiB |
| TreeDisplay.SingleFileTree | src/index.ts:239-279 | a tree of one top-level file is the single line "📄 name" with the size note the mode asks for |
| TreeDisplay.TopLevelFileLine | src/index.ts:256-274 | a top-level file's line has no indent and the file icon |
| Document.Handle | src/index.ts:536-575 | the handler's answer after ingestion is `Respond`: not found or the record's content for a single-file request, else the tree-mode or full document |
| Document.BuildTreeDoc | src/index.ts:547-563 | the tree-mode append loop yields the header, the tree without sizes, and the README section only when README records exist |
| Document.BuildFullDoc | src/index.ts:564-574 | the full-mode append loop yields the header, the tree with sizes, the totals heading and one fenced block per record in insertion order |
| Document.NotFoundIff | src/index.ts:537-541 | a single-file request is answered "not found" iff no member is kept under the requested path |
| Document.SingleFileBody | src/index.ts:537-543 | a kept requested file is answered with exactly its record's content, which is empty for a non-README in tree mode |
| Document.NoTargetMeansDocument | src/index.ts:547-575 | without a single-file request the answer is exactly `TreeDoc(TreeDocText(tree))` of the ingested tree in tree mode, and `FullDoc(FullDocText(tree, originalTotal, displayTotal))` otherwise |
| Document.ReadmeRecordsMembers | src/index.ts:553-554 | a record is in the README section iff it is in the map, its path ends in `readme.md` (any case) and its content is non-empty |
| Document.HandlerReadmeOrder | src/index.ts:553-559 | the handler's README section lists each README record once, in the order the archive set them |
| Document.ReadmeRecordsOrdered | src/index.ts:553-559 | the README records are no more than the records; with distinct keys they stay distinct and keep insertion order: a record listed before another stands earlier in the tree |
| Document.ReadmeSectionIff | src/index.ts:556-561 | the README heading appears iff some README record has content; without one the document is header plus tree |
| Document.FileBlocksAppend | src/index.ts:570-572 | the blocks of two runs of records are the blocks of the first followed by those of the second |
| Document.FileBlockAt | src/index.ts:570-572 | record i's fenced block sits between the blocks of the records before and after it |
| Document.FullDocContainsRecord | src/index.ts:566-572 | the full document is its head, the blocks before record i, record i's block, and the blocks after it |
| RequestParams.LookupFirst | src/index.ts:393-407 | `get` finds a value iff the name occurs, and returns the first occurrence's value |
| RequestParams.CleanItemsMembers | src/index.ts:393-404 | a list item is a trimmed (for `ext`, lower-cased) non-empty piece of the comma-split value, and every such piece is listed |
| RequestParams.ParseListJoin | src/index.ts:393-398 | trimmed, non-empty, comma-free items joined by commas parse back to themselves |
| RequestParams.ParsedItems | src/index.ts:393-404 | every parsed list item is non-empty, and every parsed extension is lower-case |
| RequestParams.SegmentsOfJoin | src/index.ts:423 | a path made of non-empty, slash-free names splits back into those names |
| RequestParams.BranchFromTreePath | src/index.ts:438-440 | `/owner/repo/tree/b1/.../bn` without a branch parameter yields branch `b1/.../bn`, whose segments are the names written |
| RequestParams.SuppliedBranchIgnored | src/index.ts:437-443 | as written, any supplied branch parameter ends up as "main" |
| RequestParams.SuppliedBranchCounterexample | src/index.ts:437-443 | `?branch=dev` on `/owner/repo` gives "main" as written and "dev" as intended |
| RequestParams.IntendedBranchHonoursParam | src/index.ts:436-443 | the corrected derivation returns a supplied parameter, agrees with the code when there is none, and never yields an empty branch from non-empty segments |
| RequestParams.RootPrefixShape | src/index.ts:464 | the root folder starts with `{repo}-`, ends with `/`, and is two characters longer than repository and branch together |
| RequestParams.Locate | src/index.ts:423-443 | fewer than two segments is the "Invalid GitHub repository URL format" error; otherwise the owner and repository are the first two segments and the branch is the code's own derivation `DeriveBranch` (a supplied parameter included) |
| RequestParams.RequestOf | src/index.ts:393-407 | a directory scope is exactly a trimmed non-empty comma piece of `dir`, an extension exactly a trimmed, lower-cased non-empty comma piece of `ext` (none when the parameter is absent); tree mode holds iff `mode` is exactly `tree`; the requested file is the trimmed `file`; the root folder is `{repo}-{branch}/` |
| RequestParams.LocateFrom | src/index.ts:406-443 | from the pathname and query string: fewer than two segments is the error, otherwise the branch is `DeriveBranch` of the trimmed `branch` parameter and the segments |
| RequestParams.ParseListMembers | src/index.ts:393-404 | an item is listed iff the parameter is present and the item is a non-empty cleaned comma piece of its value |
| RequestParams.SuppliedBranchParamIgnored | src/index.ts:406-443 | a non-empty `branch` query parameter on any repository path locates that repository's branch "main" |

## Left out

- Network and framework plumbing is not modelled: the Hono app and its
  routing, the catch-all 500, `fetchZip`, and the `main`→`master` retry
  on a failed download. The archive's members are an input.
- `createErrorResponse` and its HTML page are not modelled. The error
  answers the model does give are `NotFound` for a missing single file
  and `InvalidUrl` for fewer than two path segments.
- `new URL(...)` is not modelled; the model starts from the path
  segments. The 400 for an empty path and for an unparsable URL is not
  modelled either.
- JSZip decoding is not modelled. A member's decoded text is an input,
  and its size is computed by `Utf8Length`.
- `console.log` and `console.error` are not modelled.
- `Strings.Lower`: lower-cases only ASCII letters, while JavaScript's
  `toLowerCase` also folds non-ASCII letters. This affects the extension
  tests and the `ext` list, not `Filters.IsReadme`. Without the `u` flag,
  `/i` never matches a non-ASCII character against an ASCII letter of
  `readme.md`, so the README test is exact.
- `Truncation.Truncate`, `Classifier.IsBinary`: one `char` is one code
  point, while JavaScript counts two code units for a character outside
  the Basic Multilingual Plane. The cut at 30720 units and the 1000-unit
  sample can differ there. `Strings.Utf8Length` still counts 4 bytes for
  such a character, as `TextEncoder` does.
- `Strings.Sort`: compares chars, which matches JavaScript's code-unit
  order on the Basic Multilingual Plane. It can differ for astral
  characters.
- `Strings.FormatKiB`: renders every size in fixed-point. `toFixed`
  switches to exponent form only from 10^21, far above any size here.
- `Ingestion.RecordsOfKeptMembers`, `Ingestion.KeysInArchiveOrder`,
  `Ingestion.TotalsAreRecordSums`, `Document.SingleFileBody`: assume
  distinct member names, as archive members are keys of one object.

## Findings

| source | as written | input that shows it | evidently intended | confidence | as-written member | corrected member |
|---|---|---|---|---|---|---|
| src/index.ts:437-443 | `if (!branch && segments.length > 3 && segments[2] === "tree") { ... } else { branch = "main"; }` overwrites a supplied `branch` parameter with "main" | `?branch=dev` on `/owner/repo` fetches branch "main" | a supplied branch parameter is used; only when it is absent does the path, or else "main", decide | not executed | RequestParams.DeriveBranch (RequestParams.SuppliedBranchCounterexample, RequestParams.SuppliedBranchIgnored, RequestParams.SuppliedBranchParamIgnored) | RequestParams.IntendedBranch (RequestParams.IntendedBranchHonoursParam) |
