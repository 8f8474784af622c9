# mozilla-download: the orchestrator of `src/main.js`

This Dafny project models the entry point of mozilla-download, a tool that
fetches a pre-built gecko artifact (b2g-desktop, firefox, mulet) and unpacks it
into a destination directory. It covers:

- `getFolderForProduct`, the table from product names to the folder each one
  unpacks to.
- The control flow of `main`:
  - the destination check that skips all work when the product's folder is
    already there;
  - the fixed order of the stages: resolve the URL, download, build the
    extract options, extract;
  - the choice of filetype, from `--file-suffix` or from the build-info table;
  - the outer `catch` that reports any stage's error on the error stream
    instead of rethrowing it.

The collaborators `main` awaits are not modelled. These are `readdir`,
`detectURL`, `download`, `extract` and `buildinfo.archiveFiletype`. Each one is
a field of an environment (`Orchestrator.Env`): a total function from its
arguments to its outcome, either a value or a thrown error. `main`
(`Orchestrator.RunMain`) is an imperative method. It records every external
call, with its arguments, in a trace, and `console.error` is recorded there
too. Its postcondition ties the trace to `Orchestrator.Pipeline`. That is a
reference description of the run with one function per phase: checking the
destination, resolving, downloading, choosing the filetype, extracting. The
lemmas in `PipelineLemmas` prove what the run promises about that reference.

Modules:

- `Wrappers`: `Option` and the `Result` of an awaited call.
- `JsValues`: the small part of JavaScript the code relies on: property lookup
  on an object literal (prototype chain included), truthiness, `||`, and
  `Array.prototype.indexOf` with strict equality.
- `Strings`: `String.prototype.split` with a one-character separator, and the
  last segment it yields.
- `Products`: `getFolderForProduct`, as written and as intended.
- `Orchestrator`: the arguments, the environment, the trace, the reference run
  and `main`.
- `PipelineLemmas`: the properties of a run.

How the code behaves at the points where a reader might expect otherwise:

- On a failed stage `main` prints `error.toString()` on the error stream and
  sets no exit status; its promise resolves normally, whenever the thrown
  value renders to text (see "## Left out"). The model has no exit
  status: such a run simply ends with a `ConsoleError` entry.
- The early-return test also requires the listing to be non-null and
  non-empty. Both tests are modelled; `Orchestrator.SatisfiedMeans` shows
  that the non-empty test is redundant, since a listing that contains the
  folder is never empty.
- Every error of `readdir` is swallowed, "does not exist" and any other
  alike, and so it is in the model.
- With `--file-suffix` the filetype is the last dot-separated segment of the
  suffix, with no dot: `.tar.bz2` gives `bz2`. Without it, the filetype is
  whatever `archiveFiletype` returns, passed on verbatim; that value is the
  environment's to give.
- `main` uses `getFolderForProduct` as written, whose lookup also sees
  Object.prototype members (see "## Findings"). The model's run uses the
  intended lookup; `Orchestrator.AsWrittenSameTest` proves the early-return
  test, the only use of the folder, comes out the same either way.

## Model

| member | source | states |
|---|---|---|
| `Products.FolderForProduct` | src/main.js:51-59 | `b2g-desktop` maps to `b2g`; `firefox` and `mulet` map to `firefox`; every other product maps to null; the result is always a string or null |
| `Products.ProductFolderAsWritten` | src/main.js:58 | the lookup exactly as JavaScript evaluates it: table entries as listed; null only for a product that is neither in the table nor the name of an Object.prototype member; never undefined |
| `Products.AsWrittenAgrees` | src/main.js:58 | the as-written lookup equals the intended one except on Object.prototype member names, where it yields the inherited member |
| `Products.ConstructorFolderNotNull` | src/main.js:58 | for `"constructor"` the as-written lookup is not null, though the product has no folder |
| `Products.AsWrittenFindsTheSame` | src/main.js:68 | in any listing, `indexOf` finds the as-written lookup's value exactly when it finds the intended one's |
| `JsValues.Or` | src/main.js:58 | JavaScript's logical or yields one of its two operands, never a new value; when the left operand is falsy it yields the right one, so `undefined` or `null` gives `null`; its result is truthy exactly when either operand is; when the right operand is falsy, as the `null` of line 58 is, the result is fully determined: the left operand if truthy, else the right one |
| `JsValues.IndexOf` | src/main.js:68 | the result is -1 exactly when no element is strictly equal to the value; otherwise it is the first index whose element is strictly equal |
| `JsValues.IndexOfFound` | src/main.js:68 | `indexOf` finds something exactly when the value is a string that the array holds |
| `Strings.Split` | src/main.js:84 | `split` always yields at least one piece |
| `Strings.SplitJoinsBack` | src/main.js:84 | no piece of `s.split(sep)` contains `sep`, and joining the pieces with `sep` gives `s` back |
| `Strings.SplitJoin` | src/main.js:84 | for any non-empty list of separator-free pieces, splitting their join gives the same pieces, so the split is the only such decomposition |
| `Strings.LastSegment` | src/main.js:84-85 | the last piece of the split on `.` has no dot; it is a suffix of the input; it is either the whole input or preceded by a dot (the longest dot-free suffix) |
| `Strings.SegmentAfterLastDot` | src/main.js:84-85 | whatever precedes the last dot, the last segment is exactly the dot-free text after it |
| `Strings.SegmentWithoutDot` | src/main.js:84-85 | a suffix without a dot is its own filetype (`zip` gives `zip`) |
| `Strings.SuffixExamples` | src/main.js:84-85 | `.zip` gives `zip`, `.tar.bz2` gives `bz2`, `.dmg` gives `dmg`, `zip` gives `zip`, `foo.` gives the empty string |
| `Orchestrator.Satisfied` | src/main.js:66-68 | a definition with no contract of its own: the early-return test, an array listing that is non-empty and in which `indexOf` finds the folder; its meaning is fixed by `Orchestrator.SatisfiedMeans` |
| `Orchestrator.SuffixGiven` | src/main.js:83 | a definition with no contract of its own: `if (args.fileSuffix)`, a suffix that is present and not empty; its meaning is fixed by `PipelineLemmas.BuildInfoConsulted` and `PipelineLemmas.ExtractArguments` |
| `Orchestrator.SatisfiedMeans` | src/main.js:66-68 | the early-return test holds exactly when the listing is an array and one of its entries equals the folder |
| `Orchestrator.AsWrittenSameTest` | src/main.js:58-68 | for every listing and product, the early-return test gives the same answer with the folder from the lookup as written and from the intended one, so the modelled run is the run of the code as written |
| `Orchestrator.UnmappedNeverSatisfied` | src/main.js:66-68 | for a product outside the table, the early-return test fails for every listing, with either lookup |
| `Orchestrator.Pipeline` | src/main.js:62-95 | a definition with no contract of its own: the reference run, one phase function per stage (`FromResolving`, `FromDownloading`, `FromChoosing`, `FromExtracting`, with `Reported` for the outer catch); its meaning is fixed by `Orchestrator.RunMain` and the `PipelineLemmas` rows below |
| `Orchestrator.RunMain` | src/main.js:61-96 | `main` makes exactly the calls of the reference run, in its order, with its arguments; it ends normally whenever the thrown value renders to text |
| `PipelineLemmas.ShortCircuitExactly` | src/main.js:64-72 | the destination is listed first; the run stops right after that, with no resolve, download or extract call, exactly when the listing is an array containing the product's folder |
| `PipelineLemmas.ListingProblemsSwallowed` | src/main.js:64-77 | if the listing fails, is null or is empty, the error is ignored and the URL resolver is the next call |
| `PipelineLemmas.UnmappedProductAlwaysFetched` | src/main.js:64-77 | for a product with no folder, the URL resolver is always the next call, whatever the destination holds |
| `PipelineLemmas.StagesInOrder` | src/main.js:77-92 | calls occur strictly in the order listing, resolve, download, build-info lookup, extract, error report, so each occurs at most once |
| `PipelineLemmas.ResolverArguments` | src/main.js:77 | the resolver is called with the parsed arguments exactly when the destination check did not stop the run |
| `PipelineLemmas.DownloadArguments` | src/main.js:79 | `download(url, args)` is called exactly when the resolver succeeded with `url`, and with the parsed arguments |
| `PipelineLemmas.BuildInfoConsulted` | src/main.js:86-89 | `archiveFiletype(os, product)` is called, with the parsed platform and product, exactly when the download succeeded and no non-empty suffix was given |
| `PipelineLemmas.ExtractArguments` | src/main.js:81-92 | extract is called exactly when every earlier stage succeeded; its options hold the downloaded path, the destination and the product; the filetype is the last segment of a non-empty suffix, whatever the platform, and otherwise the build-info result |
| `PipelineLemmas.ErrorsReportedOnce` | src/main.js:62-95 | a call that throws is followed at once by the report of its error and then by nothing; every report follows the call that threw it |
| `PipelineLemmas.RunEndings` | src/main.js:61-96 | a run ends in one of three ways: stopped at the destination check, after an extraction that succeeded, or with an error report |
| `PipelineLemmas.FolderAlreadyPresent` | src/main.js:64-72 | for `firefox` with a `firefox` entry in the destination, the only call is the listing |
| `PipelineLemmas.ZipSuffixOnMac` | src/main.js:83-85 | when a run with suffix `.zip` on `mac64` reaches extract, the filetype is `zip` and the build-info table is not consulted |
| `PipelineLemmas.ResolverFails` | src/main.js:77-95 | when the resolver throws, nothing is downloaded, and its error is the one report |

## Left out

- Argument parsing and its defaults (src/main.js:12-49): `args` is an input
  record. That covers the `--product` and `--branch` defaults, the `--os`
  default from `detectOS()` (platform introspection), and `--debug`.
- `debug` logging (src/main.js:10, 70, 76, 78, 80): it has no effect on
  behaviour.
- The implementations of `detectURL`, `download`, `extract` and
  `moz_build_info.archiveFiletype`, and `mz/fs`'s `readdir`. They do network,
  streaming, archive and file-system I/O, and `src/detecturl.js`,
  `src/download.js`, `src/extract.js`, `src/moz_build_info.js` and
  `src/detectos.js` are not part of this model. Each is an environment
  function whose outcome is a value or a thrown error.
- `console.error`: it is a trace entry holding the error's text.
- `error.toString()`: an error is represented by the text it renders to.
  Values thrown that are not `Error` objects are not distinguished.
- Orchestrator.RunMain: a stage that rejects with `null` or `undefined`, or
  with an object whose `toString` throws, makes `console.error(error.toString())`
  at src/main.js:94 throw inside the `catch`, so `main`'s own promise rejects.
  Such a rejection escapes `main` and is not modelled, since `Result.Err`
  holds only rendered text.
- async/await scheduling: every stage is awaited before the next starts, so
  the stages are plain sequential calls. Nothing runs concurrently.
- Argument values of other JavaScript types are not modelled, such as a
  non-string `fileSuffix` or `dest`. `fileSuffix` is an optional string, and
  absent or empty counts as not given.
- Inherited Object.prototype members are the family of abstract values
  `JsValues.Inherited(key)`, one per member name. Their identity as particular
  functions is not modelled.
  Only their truthiness and their strict inequality with strings matter.
- A trace entry records a call with its arguments only, not its outcome; a
  failed outcome shows only as the `ConsoleError` entry that follows it. The
  trace does not separate the moment of the call from the moment the awaited
  value arrives.

## Findings

| source | as written | input that shows it | evidently intended | confidence | as-written member | corrected member |
|---|---|---|---|---|---|---|
| src/main.js:58 | looking up `productFolderName[product]` on an object literal also finds the members every object inherits from Object.prototype, and these are truthy, so the null fallback is skipped | product `"constructor"` yields the `Object` function instead of null (also `"toString"`, `"__proto__"` and the other Object.prototype names) | null for every product the table does not list | high for the value; `Products.AsWrittenFindsTheSame` proves the run is unaffected, since `indexOf` compares strictly against strings; not executed | `Products.ProductFolderAsWritten` (discrepancy shown by `Products.ConstructorFolderNotNull`) | `Products.FolderForProduct` |
