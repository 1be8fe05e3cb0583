# wolfictl core, modelled in Dafny

wolfictl is a command-line tool for maintaining the Wolfi distribution. This
project models four of its parts and proves properties about them:

- **Advisory mutation.** Each package has one advisory document, named
  `<package>.advisories.yaml`. The document holds advisories sorted by
  vulnerability ID. Each advisory has aliases and an append-only list of
  events.
  - `Create` either creates the document or appends a new advisory to it.
  - `Update` appends an event to an existing advisory.
  - Both re-sort the advisories and upgrade the document's schema version.
  - Both keep the index invariant: at most one document per package name,
    and in each document unique advisory IDs sorted by ID.
  - The index of documents is a class that holds a map from file name to
    document. Selecting documents by package name, and applying a section
    updater to the selection, are methods on that class.
- **Security-database export.** `BuildSecurityDatabase` visits every
  advisory of every document in every index and files the advisory's ID
  under a key decided by its latest event:
  - a fix files it under the fixed version;
  - a false-positive determination files it under the NAK key;
  - any other event files it nowhere.

  The result is an Alpine-style `secdb` database value.
- **The `scan` command.** The modelled parts are:
  - the consistency rules on its options;
  - the APK paths derived from a package build log;
  - the list of inputs kept for `--require-zero`;
  - grouping findings into a tree by location and package ID;
  - the order in which the outline rendering prints that tree.
- **The linter.** The modelled parts are:
  - deciding which rules run on which package file;
  - the message each failing rule yields;
  - which files end up in the result;
  - whether "No linting issues found!" is printed.

Modules, in dependency order:

- `Results`: the `Option` and `Result` types.
- `Text`: Go's byte-wise string order and its lemmas.
- `Sorting`: a stable insertion sort by a string key. It is proved to sort,
  to permute, to be stable, and to be strict on distinct keys.
- `AdvisoryData`: the v2 document types and the helpers they offer.
- `AdvisoryIndex`: the document index.
- `AdvisoryCreate`: the `Create` operation.
- `AdvisoryUpdate`: the `Update` operation.
- `SecDb`: the security-database export.
- `ScanCommand`: the `scan` command parts listed above.
- `Linter`: the linter parts listed above.

Where the source updates state step by step, the model does too. The index
is a class whose methods modify its map. The export, tree-building, render
and lint loops are methods with loop invariants. Each such method is proved
against a specification function, and the properties are proved as lemmas
about those functions.

## Model

| member | source | states |
|---|---|---|
| AdvisoryData.Validate | pkg/advisory/create.go:20-23 | A request is accepted exactly when it names a package and a vulnerability ID. Otherwise the error names the first missing field. |
| AdvisoryData.Find | pkg/advisory/update.go:30 | Returns the first position holding the ID, or none exactly when no advisory has it. |
| AdvisoryData.Get | pkg/advisory/update.go:30-33 | Finds an advisory exactly when one with the ID exists. The advisory found is in the list and has that ID. |
| AdvisoryData.Replace | pkg/advisory/update.go:36 | Replaces the first advisory with the ID. Nothing else changes, and the length is kept. |
| AdvisoryData.SortedEventsSortsAndPermutes | pkg/advisory/secdb.go:49 | Sorted events are in ascending timestamp order and are a permutation of the events. |
| AdvisoryData.LatestIsNewest | pkg/advisory/secdb.go:49-51 | The latest event has the greatest timestamp. Among events with that timestamp, it is the one recorded last. |
| AdvisoryData.AppendedNewestIsLatest | pkg/advisory/update.go:35 | An event appended with a timestamp no earlier than any recorded one becomes the advisory's latest event. |
| AdvisoryIndex.ApplySection | pkg/advisory/create.go:37-61 | A section updater keeps the package. The schema updater changes only the schema version and never fails. |
| AdvisoryIndex.Matching | pkg/advisory/create.go:25-26 | The selection is exactly the file names whose document has the package name. |
| AdvisoryIndex.Index.Create | pkg/advisory/create.go:80-89 | Adds the document under a new file name. An existing file name is an error and leaves the index unchanged. |
| AdvisoryIndex.Index.Update | pkg/advisory/create.go:55-58 | The update is all or nothing. An empty selection or any updater error leaves the index unchanged. Otherwise every selected document is rewritten, and every other document and every key are kept. |
| AdvisoryCreate.NewDocument | pkg/advisory/create.go:72-86 | The new document has the current schema version, the package name, and one advisory with the request's ID, aliases and event. Its latest event is the request's event. |
| AdvisoryCreate.AppendAdvisory | pkg/advisory/create.go:37-54 | Fails with `AdvisoryExists` exactly when the ID is already present. Otherwise the result is the old advisories plus the new one, sorted by ID. |
| AdvisoryCreate.AppendAdvisoryAddsOne | pkg/advisory/create.go:42-51 | A successful append grows the list by one. The result is a permutation of the old list plus the new advisory, sorted by ID. Every old advisory is present unchanged. |
| AdvisoryCreate.AppendAdvisoryKeepsUniqueIDs | pkg/advisory/create.go:38-51 | Unique IDs stay unique, so after an append the IDs are strictly ascending. |
| AdvisoryCreate.CreateAdvisoryConfig | pkg/advisory/create.go:72-92 | Creates `<package>.advisories.yaml` holding the new document. The index's error for an existing file is returned as is. |
| AdvisoryIndex.ReplaceKeepsInvariant | pkg/advisory/create.go:55-64 | Rewriting one document's sections keeps the index invariant when the document keeps its package and its new advisories have unique IDs sorted by ID. |
| AdvisoryIndex.AddKeepsInvariant | pkg/advisory/create.go:80-86 | Adding a document under a new file name keeps the index invariant when no document has its package and its advisories have unique IDs sorted by ID. |
| AdvisoryCreate.NewDocumentKeepsInvariant | pkg/advisory/create.go:28-31 | When no document has the package and its file name is free, the created document keeps the index invariant. |
| AdvisoryCreate.AppendKeepsInvariant | pkg/advisory/create.go:37-64 | Appending the new advisory, sorting, and then setting the schema version keeps the index invariant. |
| AdvisoryCreate.Create | pkg/advisory/create.go:19-70 | An invalid request returns the validation error and changes nothing. 0 matching documents: creates the document. 1: appends the advisory, then sets the schema version; an append failure is wrapped and changes nothing. More than 1: a count error and no change. A valid index stays valid: one document per package name, unique advisory IDs sorted by ID. |
| AdvisoryUpdate.WithEvent | pkg/advisory/update.go:35 | The ID and aliases are kept. The events are the old events followed by the new one. |
| AdvisoryUpdate.AddEvent | pkg/advisory/update.go:27-42 | Fails with `AdvisoryDoesNotExist` exactly when no advisory has the ID. Otherwise the target advisory gets the event, and the list is re-sorted by ID. |
| AdvisoryUpdate.AddEventKeepsOthers | pkg/advisory/update.go:35-39 | A successful update keeps the advisory count. The result is sorted by ID and holds the extended target. Every advisory with another ID is present unchanged. |
| AdvisoryUpdate.AddEventAppendsToTarget | pkg/advisory/update.go:30-36 | With unique IDs, the IDs stay unique. The advisory with the ID keeps its aliases, and its events are its old events plus the request's event. |
| AdvisoryUpdate.AddEventKeepsInvariant | pkg/advisory/update.go:27-52 | Appending an event to an advisory, sorting, and then setting the schema version keeps the index invariant. |
| AdvisoryUpdate.Update | pkg/advisory/update.go:19-55 | Not exactly 1 matching document: a count error and no change. The request is not validated. A missing advisory gives a wrapped error and no change. Otherwise the event is appended and then the schema version set. A valid index stays valid: one document per package name, unique advisory IDs sorted by ID. |
| Sorting.SortBySortsAndPermutes | pkg/advisory/create.go:50-51 | Sorting yields a permutation of the input in ascending key order. |
| Sorting.SortByIsStable | pkg/cli/scan.go:410-412 | Elements with equal keys keep their relative order. |
| Sorting.SortByDistinctIsStrict | pkg/cli/scan.go:388-389 | Sorting distinct keys yields strictly ascending keys. |
| SecDb.SecfixesKey | pkg/advisory/secdb.go:54-60 | A fixed event files under its fixed version and a false-positive determination under NAK. Every other event type files nowhere. |
| SecDb.SecfixesOf | pkg/advisory/secdb.go:38-61 | No key of the secfixes maps to an empty list. |
| SecDb.AddAdvisoryMembership | pkg/advisory/secdb.go:54-60 | Filing one advisory adds its ID under its key and changes nothing else. |
| SecDb.SecfixesMembership | pkg/advisory/secdb.go:44-61 | An ID is listed under a key exactly when some advisory with that ID has a latest event that maps to the key. |
| SecDb.SecfixesAscending | pkg/advisory/secdb.go:40-59 | Advisories visited in strictly ascending ID order give strictly ascending lists. |
| SecDb.SecfixesAtMostOnce | pkg/advisory/secdb.go:44-61 | With unique IDs, an ID is filed under at most one key. |
| SecDb.PackageEntryShape | pkg/advisory/secdb.go:63-72 | An emitted entry carries the document's package name and non-empty secfixes. With unique IDs, each list is strictly ascending and each ID sits under one key. |
| SecDb.PackageEntryMembership | pkg/advisory/secdb.go:33-75 | A document's entry lists an ID under a key exactly when one of its advisories has that ID and a latest event that maps to the key. |
| SecDb.NewestEventDecides | pkg/advisory/secdb.go:49-60 | Appending an event at least as recent as every other decides where the advisory is filed. Earlier events are ignored. |
| SecDb.AllEntriesSpec | pkg/advisory/secdb.go:30-83 | The build fails with `NoPackageSecurityData` exactly when some index contributes no entry. Otherwise the entries are each index's entries concatenated in index order. |
| SecDb.BuildDatabaseSpec | pkg/advisory/secdb.go:77-91 | The database copies the APK URL template, the architectures, the repository and the URL prefix. Its packages are all entries in index order, or the build fails as above. |
| SecDb.FoldSecfixes | pkg/advisory/secdb.go:44-61 | The advisory loop computes the secfixes of the advisories visited in order. |
| SecDb.IndexPackageEntries | pkg/advisory/secdb.go:33-75 | The document loop computes each document's entry in document order. Documents without advisories or without secfixes are skipped. |
| SecDb.BuildSecurityDatabase | pkg/advisory/secdb.go:27-94 | The whole build loop computes the database value described by `BuildDatabaseSpec`. |
| ScanCommand.ValidateParams | pkg/cli/scan.go:36-81 | Accepts exactly the consistent options: a format of outline or json (empty means outline); a filter set only from the valid sets and only with advisories directories, and directories only with a filter set; and not both `--sbom` and `--build-log`. The checks run in the source's order. |
| ScanCommand.ApkPaths | pkg/cli/scan.go:248-253 | One path per build-log entry, in order, each the joined APK path of that entry. |
| ScanCommand.ApkPathShape | pkg/cli/scan.go:250-251 | With a base directory and an architecture, the path is `<base>/packages/<arch>/<package>-<version>.apk`. |
| ScanCommand.PathsWithFindingsMembers | pkg/cli/scan.go:146-149 | A path is kept exactly when its scan had findings. |
| ScanCommand.RequireZeroFindings | pkg/cli/scan.go:146-162 | With `--require-zero`, the command fails exactly when some scan had findings. The error lists those paths in scan order. |
| ScanCommand.NewFindingsTree | pkg/cli/scan.go:365-385 | A location and a package ID are keys exactly when some finding has them. Each bucket is that location's and package's findings in input order. `packagesByID` holds each ID's last package. |
| ScanCommand.BucketCounts | pkg/cli/scan.go:369-379 | Each finding occurrence lands in the bucket of its own location and package ID, exactly once, and in no other bucket. |
| ScanCommand.LastPackageIsLast | pkg/cli/scan.go:372 | The recorded package belongs to a finding with that ID, and no later finding has the ID. |
| ScanCommand.LastPackageNone | pkg/cli/scan.go:372 | An ID is unrecorded exactly when no finding carries it. |
| ScanCommand.FirstCVEAlias | pkg/cli/scan.go:467-472 | Returns the position of the first alias starting with `CVE-`, or none when no alias does. |
| ScanCommand.RenderVulnerabilityID | pkg/cli/scan.go:464-484 | The alias loop with its early exit prints the first CVE alias and then the ID, or the ID alone. |
| ScanCommand.VulnerabilityLabelPrefersCVE | pkg/cli/scan.go:467-476 | If any alias is a CVE ID, the label begins with a CVE alias no later than it. |
| ScanCommand.RenderFixedIn | pkg/cli/scan.go:504-510 | The text is empty exactly when there is no fixed version. Otherwise it is ` fixed in ` followed by the version. |
| ScanCommand.KeysOf | pkg/cli/scan.go:388 | Lists every key of the map exactly once, in an unspecified order. |
| ScanCommand.SortLocations | pkg/cli/scan.go:388-389 | The sorted location keys are all the keys, each once, strictly ascending. |
| ScanCommand.RenderPackage | pkg/cli/scan.go:414-438 | A package line, followed by its findings in vulnerability-ID order. |
| ScanCommand.RenderFindings | pkg/cli/scan.go:429-437 | One line per finding, in the order given. Each line holds the vertical line, the indentation, the severity, the vulnerability label and the fixed-in suffix. |
| ScanCommand.RenderLocation | pkg/cli/scan.go:393-441 | Prints a location header with its stem, then its packages by name, then the closing vertical line. The package IDs are enumerated once each. The lines always open with the header and close with the vertical line. |
| ScanCommand.Render | pkg/cli/scan.go:387-445 | Locations appear in strictly ascending order, every location once. Each gets its block, the last with the closing stem. The blocks' lines are joined by newlines. The outline is empty exactly when there is no location. |
| ScanCommand.RenderedEmptyExactly | pkg/cli/scan.go:387-445 | Joined location blocks are empty exactly when the tree has no location, because every block opens with a non-empty header. |
| ScanCommand.LocationBlockShape | pkg/cli/scan.go:393-402 | A block opens with its header and closes with its vertical line. The header uses `└── ` exactly when the location is the last. |
| ScanCommand.SortedPackagesOrder | pkg/cli/scan.go:405-412 | A location's packages are a permutation of the looked-up packages, sorted by name. Packages with the same name keep their enumeration order. |
| ScanCommand.RenderedFindingsAreBucket | pkg/cli/scan.go:424-427 | For a tree built from some findings, the findings printed under a package are a permutation of that bucket, sorted by vulnerability ID. Equal IDs keep their input order. |
| ScanCommand.LookupPackageMatches | pkg/cli/scan.go:405-408 | For a built tree, every package ID under a location has a recorded package, and that package carries the same ID. |
| Linter.ShouldEvaluate | pkg/lint/linter.go:50-58 | A rule is to be evaluated exactly when all its conditions hold. Evaluation stops at the first false condition. |
| Linter.Message | pkg/lint/linter.go:85-88 | The message is `[name]: error (severity)` and starts with `[name]: error`. |
| Linter.FailedRulesExactly | pkg/lint/linter.go:48-95 | Every reported error comes from an evaluated failing rule and carries that rule's message. Every evaluated failing rule is reported. |
| Linter.SkippedRuleNeverReported | pkg/lint/linter.go:68-81 | A rule listed in the skip option or in the file's nolint list never yields an error. |
| Linter.FormatNoOperandsPlain | pkg/lint/linter.go:92 | Text without `%`, formatted as a format string with no operands, comes out unchanged. |
| Linter.MissingVerb | pkg/lint/linter.go:92 | `%`, a two-digit width and a verb, formatted with no operand, print as `%!` + verb + `(MISSING)`. |
| Linter.StoredMessageIsMessage | pkg/lint/linter.go:85-93 | The stored error text is the message when the rule name, the error text, the severity and, in verbose mode, the description hold no `%`. |
| Linter.StoredMessageGarbled | pkg/lint/linter.go:85-93 | A lint error holding a directive such as `%20b` is stored as the message of the error with `%!b(MISSING)` in its place. So the stored text is not the message. |
| Linter.LintFileRules | pkg/lint/linter.go:47-95 | The rule loop yields the errors of the failing evaluated rules, in rule order. |
| Linter.Lint | pkg/lint/linter.go:37-106 | A read failure is returned with an empty result. Otherwise each file with errors appears exactly once with its errors, and no other file appears. |
| Linter.Print | pkg/lint/linter.go:109-120 | Reports each file that has errors, in order. Prints the no-issues line exactly when no entry has errors. |
| Linter.NoIssuesExactly | pkg/lint/linter.go:97-119 | After linting, "No linting issues found!" is printed exactly when no evaluated rule fails on any file. |

## Left out

- The on-disk storage of the index is left out: YAML files, re-reads and
  atomic writes. The index is an in-memory map.
- AdvisoryIndex.Index.Update: the model assumes an all-or-nothing
  update. It is not modelled whether a failing updater can leave earlier
  documents of the selection rewritten.
- AdvisoryData.SchemaVersion: the value of the current schema version
  constant is not part of this model. It stands in as `"2"`.
- SecDb.NAK: the value of the NAK key is not part of this model. It stands
  in as `"0"`, Alpine's convention.
- AdvisoryData.Validate: the body of `Request.Validate` is not part of this
  model. It stands in as "package and vulnerability ID are non-empty". Only
  the fact that `Create` validates and `Update` does not is faithful.
- The sort order of `v2.Advisories` is not part of this model. It is taken
  to be ascending by ID, the key the export also uses.
- `sort.Sort` and `sort.Slice` are not stable, but the model sorts with a
  stable sort. With unique advisory IDs both give the same order.
- `Advisory.SortedEvents` is not part of this model. It stands in as a
  stable sort by timestamp.
- The failure branch of the schema-version update (create.go:62-64 and
  update.go:50-52) cannot happen in the model: a schema updater on a
  non-empty selection always succeeds.
- Error values are structured data, not the formatted error text. The
  lint errors' text is the exception, see Linter.LintFileRules below.
- BuildSecurityDatabase: `sort.Slice` sorts the document's advisories in
  place, which the caller can observe through the shared slice. The model
  sorts a copy. The JSON encoding of the database is left out; the result
  is the `Database` value.
- The `scan` command's work beyond its option checks is left out, because
  it is I/O and foreign engines:
  - loading the advisory indices;
  - the build-log argument count;
  - stat, open and parse of the build log;
  - reading input files (stdin, HTTPS, local paths);
  - SBOM generation, vulnerability matching and advisory filtering;
  - JSON output and all printing.

  `RequireZeroFindings` takes each scan's finding count as given.
- ScanCommand.JoinPath: `filepath.Join` also cleans the path, which
  resolves `..` and `.` and collapses repeated separators. The model joins
  the non-empty elements with `/` and does not clean.
- ScanCommand.Render: styles and hyperlinks are modelled as the identity,
  and `renderSeverity` prints the severity unchanged. The in-place sort of
  each bucket, which the tree's owner can observe, is not modelled.
- ScanCommand.NewFindingsTree: the total count across buckets is not
  stated as a sum over the nested maps. `BucketCounts` states instead that
  each finding occurrence is in exactly its own bucket.
- Linter.Lint: lint rules' bodies (`AllRules`) and their condition
  closures are given as inputs. Reading packages from the repository is
  given as a `Result`. The order of files in the result is deliberately
  unspecified, as Go's map order is.
- Linter.LintFileRules: the stored error text is the message itself. The
  source passes the message to `fmt.Errorf` as a format string. That
  gives the same text only when the message holds no `%`
  (`StoredMessageIsMessage`). See "Findings".
- Linter.FailedRules: as for `LintFileRules`, the message is kept verbatim.
- Linter.FormatNoOperands: an explicit argument index such as `%[1]d` is
  not modelled; its `[` is taken as the verb. Widths and precisions over
  a million, which `fmt` treats as a missing verb, are not modelled
  either.
- `EvalRuleErrors.WrapErrors` is not part of this model. "Non-nil" is
  modelled as "the error list is non-empty".
- The linter's verbose logging, `Print`'s formatted output, `PrintRules`,
  and the `New` options plumbing are left out.
- The command-line wiring for `advisory update` and `lint` is left out.
  It only gathers input and delegates to the modelled operations.

## Findings

| source | as written | input that shows it | evidently intended | confidence | as-written member | corrected member |
|---|---|---|---|---|---|---|
| pkg/lint/linter.go:85-93 | The rule's message is passed to `fmt.Errorf` as its format string, with no operands. | Rule `r` with severity `warning` whose check returns `bad URL a%20b`. The stored error reads `[r]: bad URL a%!b(MISSING) (warning)`. | The message is stored verbatim, as with `errors.New(msg)`. | medium, not executed | Linter.StoredMessageGarbled | Linter.FailedRulesExactly |
