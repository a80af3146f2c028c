# Gradle license-plugin readers of Solicitor

Solicitor reads the JSON report of the Gradle License Plugin through two readers:

- `GradleReader` is the legacy reader, of type `gradle`.
- `GradleReader2` is the current reader, of type `gradle2`.

Both readers normalise the report the same way:

1. Each element of the top-level JSON array is copied into a `Dependency` bean. Meanwhile two counters are kept: the number of components and the number of licenses.
2. The counters are reported once through `doLogging`.
3. Then one `ApplicationComponent` per record is requested from the model factory, filled in and attached to the application.
4. Each component gets one raw license row per listed license. A record with no licenses gets a single row whose name and url are both null.

The readers differ only in how a record's coordinate (groupId, artifactId, version) is resolved:

- The legacy reader copies `project`, `dependency` and `version` verbatim. Before doing anything else, it also calls the deprecation check; the model assumes the check returns normally.
- The current reader cuts `dependency` at `':'` with Java's `String.split`, and stops with an error unless exactly three parts come out.

The model is organised in these modules:

- `JavaSplit`: Java's `String.split` for a one-character separator with limit 0. It cuts at every separator, drops trailing empty strings, and a string without the separator is its own single part.
- `Inventory`: the decoded records, the produced components and license rows, and the two mutable collaborators, each modelled as a class:
  - `InventoryModel` covers the model factory, `addRawLicense` and `doLogging`.
  - `DeprecationChecker` records each call.
- `Coordinates`: the two resolution strategies.
- `InventoryMapper`: the decode loop, the license normaliser and the emission loop, all shared by both readers. Each is an imperative method proved against the specification functions `Dependencies`, `LicenseRows`, `Emission` and `Read`.
- `GradleLegacy` and `GradleCurrent`: the two reader classes and what a whole `readInventory` call does.

The model follows the code in three places where the code is stricter or looser than one might expect:

- `GradleReader2` only checks that the split has length 3. An empty groupId or artifactId (`":a:v"`, `"g::v"`) is accepted, and trailing colons (`"g:a:v:"`) are dropped before counting.
- `GradleReader2` is not all-or-nothing. When a record's coordinate is malformed, the components and license rows of all earlier records are already attached, and the statistics for the whole report have already been logged.
- `GradleReader2` calls the factory before the arity check. So when a record fails, one more component has been created than has been attached. `InventoryModel.created` counts the factory calls.

A missing `licenses` list (a null dereference in both readers) and a missing `dependency` field in the current reader are modelled as failures of their own, `NullLicenseList` and `NullDependency`. Neither is treated as an empty value.

## Model

| member | source | states |
|---|---|---|
| `GradleLegacy.SupportedTypes` | core/src/main/java/com/devonfw/tools/solicitor/reader/gradle/GradleReader.java:55-58 | the legacy reader answers to exactly one type, `gradle` |
| `GradleLegacy.GradleReader.ReadInventory` | core/src/main/java/com/devonfw/tools/solicitor/reader/gradle/GradleReader.java:61-121 | exactly one deprecation notice with flag `false` and the issue-58 message is filed on every call, including calls whose read fails; the model then changes exactly as `Read` with the verbatim strategy prescribes |
| `GradleLegacy.LegacyReadCompletes` | core/src/main/java/com/devonfw/tools/solicitor/reader/gradle/GradleReader.java:102-120 | once all license lists are present, the legacy read always completes with one factory call and one component per record, in record order; each component has groupId = `project`, artifactId = `dependency` unsplit, version = `version` and homepage = `url`, plus the caller's application, usage pattern and repoType; the license rows are those of each record in record order |
| `GradleCurrent.SupportedTypes` | core/src/main/java/com/devonfw/tools/solicitor/reader/gradle/GradleReader2.java:42-45 | the current reader answers to exactly one type, `gradle2` |
| `GradleCurrent.GradleReader2.ReadInventory` | core/src/main/java/com/devonfw/tools/solicitor/reader/gradle/GradleReader2.java:48-111 | the model changes exactly as `Read` with the split-into-three strategy prescribes, and the call's outcome is `Read`'s |
| `GradleCurrent.ResolvesIffWellFormed` | core/src/main/java/com/devonfw/tools/solicitor/reader/gradle/GradleReader2.java:89-93 | a record's coordinate resolves iff `dependency` is present and its split has exactly three parts |
| `GradleCurrent.CurrentReadCompletes` | core/src/main/java/com/devonfw/tools/solicitor/reader/gradle/GradleReader2.java:87-110 | a decoded report completes iff every record's coordinate is well formed; then there is one factory call and one component per record, in order, carrying split parts 0, 1 and 2 as groupId, artifactId and version, plus `url` and the caller's context, and the rows of every record in order |
| `GradleCurrent.CurrentReadStopsAtMalformed` | core/src/main/java/com/devonfw/tools/solicitor/reader/gradle/GradleReader2.java:87-93 | the first malformed record k raises either the null-dependency failure or the error quoting the raw `dependency`; by then the log holds the counts of the whole report, the k earlier components and their rows are attached, and k + 1 components were created |
| `Inventory.DeprecationChecker.Check` | core/src/main/java/com/devonfw/tools/solicitor/reader/gradle/GradleReader.java:65-66 | a check call is recorded as one notice carrying its flag and message; nothing else changes |
| `Inventory.InventoryModel.NewApplicationComponent` | core/src/main/java/com/devonfw/tools/solicitor/reader/gradle/GradleReader.java:103 | a factory call counts one more created component and attaches nothing |
| `Inventory.InventoryModel.AddComponent` | core/src/main/java/com/devonfw/tools/solicitor/reader/gradle/GradleReader.java:104-110 | a filled-in component is appended and its position returned; the rows, the log and the factory count are unchanged |
| `Inventory.InventoryModel.AddRawLicense` | core/src/main/java/com/devonfw/tools/solicitor/reader/gradle/GradleReader.java:113 | one row with the given component, name, url and source is appended; it may only name an attached component, which keeps every row pointing at an existing component |
| `Inventory.InventoryModel.DoLogging` | core/src/main/java/com/devonfw/tools/solicitor/reader/gradle/GradleReader.java:96 | one statistics entry with the source, application and both counters is appended; nothing else changes |
| `InventoryMapper.ToDependency` | core/src/main/java/com/devonfw/tools/solicitor/reader/gradle/GradleReader.java:77-93 | the bean built from one record carries every field but `year` unchanged: the record can be rebuilt from the bean plus its `year` |
| `InventoryMapper.DecodeRecords` | core/src/main/java/com/devonfw/tools/solicitor/reader/gradle/GradleReader.java:76-95 | the decode loop fails with the null-list failure iff some record lacks `licenses`; otherwise it yields one bean per record in order, `components` = number of records and `licenses` = the total length of all license lists |
| `InventoryMapper.LicenseRows` | core/src/main/java/com/devonfw/tools/solicitor/reader/gradle/GradleReader.java:111-119 | the rows for one component: at least one row, one per license when there are any, and each names that component and the source |
| `InventoryMapper.LicenseRowsShape` | core/src/main/java/com/devonfw/tools/solicitor/reader/gradle/GradleReader.java:111-119 | an empty license list yields exactly one row whose name and url are both absent; K > 0 licenses yield exactly K rows with `license`/`license_url` passed through in list order; every row names its component and the source |
| `InventoryMapper.AttachLicenses` | core/src/main/java/com/devonfw/tools/solicitor/reader/gradle/GradleReader2.java:101-109 | the fallback branch and the per-license loop append exactly `LicenseRows` to the raw licenses and change nothing else |
| `InventoryMapper.ComponentFor` | core/src/main/java/com/devonfw/tools/solicitor/reader/gradle/GradleReader.java:104-110 | the component built in one emission step: its groupId, artifactId and version are the resolved coordinate, its homepage is the dependency's `url`, and application, usage pattern and `repoType` come from the call |
| `InventoryMapper.Emission` | core/src/main/java/com/devonfw/tools/solicitor/reader/gradle/GradleReader2.java:87-110 | the emission loop over all dependencies: the factory was called once per attached component plus once for the failing dependency, if any, never more often than there are dependencies, and once per dependency when nothing failed |
| `InventoryMapper.Read` | core/src/main/java/com/devonfw/tools/solicitor/reader/gradle/GradleReader.java:67-120 | one whole `readInventory`: at most one log entry; with no log entry nothing is created or attached and the call raises; it completes iff the statistics are logged and emission did not fail, and then every requested component is attached |
| `InventoryMapper.RowsOfAllCount` | core/src/main/java/com/devonfw/tools/solicitor/reader/gradle/GradleReader.java:111-118 | all records together yield as many rows as there are listed licenses plus one per record without licenses |
| `InventoryMapper.RowsOfAllBounds` | core/src/main/java/com/devonfw/tools/solicitor/reader/gradle/GradleReader.java:102-118 | every row names a component emitted by this call, never an earlier or later one |
| `InventoryMapper.LicenseRowsComponent` | core/src/main/java/com/devonfw/tools/solicitor/reader/gradle/GradleReader2.java:103-106 | every row of one record's license rows names that record's component |
| `InventoryMapper.EmitOne` | core/src/main/java/com/devonfw/tools/solicitor/reader/gradle/GradleReader2.java:88-109 | one emission step always makes one factory call; if the coordinate fails it attaches nothing and returns the failure; otherwise it appends the component and exactly its license rows |
| `InventoryMapper.EmitComponents` | core/src/main/java/com/devonfw/tools/solicitor/reader/gradle/GradleReader2.java:87-110 | the emission loop adds exactly what `Emission` prescribes and returns its failure, and it keeps the rows-point-at-components invariant |
| `InventoryMapper.EmissionFailsIff` | core/src/main/java/com/devonfw/tools/solicitor/reader/gradle/GradleReader2.java:89-93 | emission ends without failure iff every dependency's resolved coordinate is a success |
| `InventoryMapper.EmissionComplete` | core/src/main/java/com/devonfw/tools/solicitor/reader/gradle/GradleReader.java:102-120 | when every coordinate resolves there is one factory call and one component per dependency, in order and built from that dependency, and the rows are the per-record rows concatenated in order |
| `InventoryMapper.EmissionAfterFailure` | core/src/main/java/com/devonfw/tools/solicitor/reader/gradle/GradleReader2.java:90-92 | once a failure is raised, later dependencies change nothing |
| `InventoryMapper.EmissionStopsAtFirstFailure` | core/src/main/java/com/devonfw/tools/solicitor/reader/gradle/GradleReader2.java:87-92 | the first dependency k whose coordinate fails stops the loop with its error; the k earlier components and their rows stay attached, and k + 1 factory calls were made |
| `InventoryMapper.FailedDecodeEmitsNothing` | core/src/main/java/com/devonfw/tools/solicitor/reader/gradle/GradleReader.java:84-100 | in two cases nothing is logged, created or attached: a read or decode error, which raises the error naming `sourceUrl`, and a missing license list, which raises the null-list failure |
| `InventoryMapper.DecodedReadLogsCounts` | core/src/main/java/com/devonfw/tools/solicitor/reader/gradle/GradleReader.java:96 | once decoding succeeds exactly one log entry is written, counting all records and all listed licenses, whatever the coordinates; the read completes iff every coordinate resolves |
| `InventoryMapper.CompletedReadRowCount` | core/src/main/java/com/devonfw/tools/solicitor/reader/gradle/GradleReader.java:83-92 | on completion the logged component count equals the number of attached components, and the row count is the logged license count plus the number of fallback rows, which are not counted |
| `InventoryMapper.ReadInventoryWith` | core/src/main/java/com/devonfw/tools/solicitor/reader/gradle/GradleReader.java:67-120 | the shared body of `readInventory` changes the log, components, rows and factory count exactly as `Read` prescribes and returns `Read`'s outcome |
| `Coordinates.SplitCoordinate` | core/src/main/java/com/devonfw/tools/solicitor/reader/gradle/GradleReader2.java:89-92 | `split(":")` plus the arity check: a rejection quotes the raw string; an accepted string yields three parts free of ':', the version non-empty |
| `Coordinates.Resolve` | core/src/main/java/com/devonfw/tools/solicitor/reader/gradle/GradleReader2.java:89-97 | the coordinate under either strategy: only the split strategy fails, with a null dereference exactly when `dependency` is absent; the legacy strategy (GradleReader.java:105-107) never fails and hands `dependency` on whole as artifactId; a split coordinate has a non-empty version |
| `Coordinates.VerbatimNeverSplits` | core/src/main/java/com/devonfw/tools/solicitor/reader/gradle/GradleReader.java:105-107 | the legacy strategy never fails: groupId = `project`, artifactId = `dependency` even when it contains ':', version = `version`. A helper; the read-level version is `GradleLegacy.LegacyReadCompletes` |
| `Coordinates.SplitNeedsDependency` | core/src/main/java/com/devonfw/tools/solicitor/reader/gradle/GradleReader2.java:89 | the split strategy fails on an absent `dependency` and otherwise cuts the string. A helper; the read-level version is `GradleCurrent.CurrentReadStopsAtMalformed` |
| `Coordinates.SplitCoordinateAccepts` | core/src/main/java/com/devonfw/tools/solicitor/reader/gradle/GradleReader2.java:89-93 | the arity check passes iff the string has at least three ':'-pieces, the third non-empty and all later ones empty; on rejection the error message quotes the raw string |
| `Coordinates.SplitCoordinateSound` | core/src/main/java/com/devonfw/tools/solicitor/reader/gradle/GradleReader2.java:89-97 | an accepted string yields three ':'-free parts with a non-empty version, and the string is "g:a:v" followed only by ':' |
| `Coordinates.ResolvesJoined` | core/src/main/java/com/devonfw/tools/solicitor/reader/gradle/GradleReader2.java:89-97 | round trip: "g:a:v", for ':'-free parts and a non-empty v, resolves to (g, a, v), and so does the same string with any number of trailing ':' |
| `Coordinates.AcceptedExample` | core/src/main/java/com/devonfw/tools/solicitor/reader/gradle/GradleReader2.java:89-97 | "com.acme:widget:1.2.3" resolves to groupId "com.acme", artifactId "widget" and version "1.2.3" |
| `Coordinates.TrailingColonAccepted` | core/src/main/java/com/devonfw/tools/solicitor/reader/gradle/GradleReader2.java:89-90 | "g:a:v:" passes the arity check and resolves to (g, a, v), because the split drops the trailing empty part |
| `Coordinates.EmptyPartExamples` | core/src/main/java/com/devonfw/tools/solicitor/reader/gradle/GradleReader2.java:89-90 | ":a:v" and "g::v" pass the arity check, with an empty groupId or artifactId |
| `Coordinates.TwoPartsRejected` | core/src/main/java/com/devonfw/tools/solicitor/reader/gradle/GradleReader2.java:90-92 | "bad:format" is rejected with the error quoting it |
| `Coordinates.EmptyVersionRejected` | core/src/main/java/com/devonfw/tools/solicitor/reader/gradle/GradleReader2.java:89-90 | "g:a:" is rejected, because the split drops its empty third part |
| `Coordinates.FourPartsRejected` | core/src/main/java/com/devonfw/tools/solicitor/reader/gradle/GradleReader2.java:89-90 | "g:a:v:x" is rejected |
| `JavaSplit.Split` | core/src/main/java/com/devonfw/tools/solicitor/reader/gradle/GradleReader2.java:89 | Java's `split` with limit 0: no part contains the separator; a string without the separator is its own single part; otherwise the last kept part, if any, is non-empty |
| `JavaSplit.JoinPieces` | core/src/main/java/com/devonfw/tools/solicitor/reader/gradle/GradleReader2.java:89 | the pieces the separator cuts out of a string glue back to that string |
| `JavaSplit.PiecesOfJoin` | core/src/main/java/com/devonfw/tools/solicitor/reader/gradle/GradleReader2.java:89 | cutting the separator-free parts glued with the separator gives back those parts |
| `JavaSplit.SplitKeepsLeadingPieces` | core/src/main/java/com/devonfw/tools/solicitor/reader/gradle/GradleReader2.java:89 | `split` keeps the pieces up to the last non-empty one and drops only empty trailing pieces; a string without the separator is its own single part |
| `JavaSplit.SplitHasThreeParts` | core/src/main/java/com/devonfw/tools/solicitor/reader/gradle/GradleReader2.java:89-90 | the split has length 3 iff there are at least three pieces, the third is non-empty and all later ones are empty |

## Left out

- JSON decoding with Jackson's `ObjectMapper.readValue` is not modelled. The decoded top-level array is a parameter: `Success(records)`, or `Failure(cause)` for an I/O or decode error.
- Stream acquisition through `inputStreamFactory.createInputStreamFor` is I/O and is folded into that same `Failure(cause)`.
- Spring wiring (`@Component`, `@Autowired`) is left out. The reader objects receive their collaborators in their constructors.
- The internals of `DeprecationChecker` are not part of this model. Its check is recorded as one notice, and the model assumes the check returns normally. Whether the real checker aborts instead depends on configuration outside the readers.
- `AbstractReader` (with `doLogging`, `getModelFactory` and `addRawLicense`) and the inventory model classes are not part of this model. Their calls are recorded as appends to the model's sequences.
- An `ApplicationComponent` is filled in through one setter per field. Here that sequence becomes one append of the finished value, so the model does not capture the object identity the rows share with the component. A row refers to its component by position instead.
- The `year` field is dropped, since it is copied into the bean but never used for output. The `LicenseSummary`/`License` beans are replaced by sequences.
- A `ClassCastException` on a non-string JSON value is not modelled: every field is a string or absent.
- The `type` and `configuration` parameters of `readInventory` are not modelled, because neither reader uses them.
- A JSON `null` as a whole element of the array, or as the whole array, is not modelled: elements are always records.
- A JSON `null` element inside a `licenses` array is not modelled: `LicenseRec` cannot express it. In Java it is a `NullPointerException` at GradleReader.java:88 and GradleReader2.java:73.
- `repoType`, `application` and `usagePattern` are modelled as non-null values. Java passes a `null` argument through to the component unchanged.
- The `components` and `licenses` counters are Java `int`s but are modelled as unbounded integers. Overflowing them would need more than 2^31 records or licenses.
