/** `main`: skip when the destination already holds the product, otherwise
    resolve the artifact URL, download it, choose the filetype and extract,
    reporting any failure on the error stream instead of rethrowing it.
    The collaborators it awaits are parameters (an environment of outcomes);
    what it calls is recorded in a trace. */
module Orchestrator {
  import opened Wrappers
  import opened JsValues
  import opened Strings
  import opened Products

  /** The parsed command line. An absent `--file-suffix` is None. */
  datatype Args = Args(product: string, os: string, branch: string, fileSuffix: Option<string>, dest: string)

  /** How `readdir(dest)` settles: an array of entry names, null, or a
      rejection (for instance because `dest` does not exist yet). */
  datatype Listing = Entries(names: seq<string>) | NullListing | ReadFailed(error: string)

  /** The object handed to `extract`; `filetype` is unset when it is built
      and assigned afterwards. */
  datatype ExtractOpts = ExtractOpts(source: string, dest: string, product: string, filetype: Option<string>)

  /** The collaborators whose code is not part of this model, as the
      outcome each gives for its arguments. */
  datatype Env = Env(
    readdir: string -> Listing,
    detectUrl: Args -> Result<string>,
    download: (string, Args) -> Result<string>,
    archiveFiletype: (string, string) -> Result<string>,
    extract: ExtractOpts -> Result<()>)

  /** One recorded call, with its arguments. */
  datatype Call =
    | Readdir(path: string)
    | DetectUrl(args: Args)
    | Download(url: string, args: Args)
    | ArchiveFiletype(os: string, product: string)
    | Extract(opts: ExtractOpts)
    | ConsoleError(message: string)

  /** `if (args.fileSuffix)`: given and not empty. */
  predicate SuffixGiven(fileSuffix: Option<string>) {
    fileSuffix.Some? && fileSuffix.value != ""
  }

  /** The early-return test: a listing that is an array, non-empty, and in
      which indexOf finds the product's folder. */
  predicate Satisfied(listing: Listing, folder: JsValue) {
    listing.Entries? && |listing.names| != 0 && IndexOf(listing.names, folder) != -1
  }

  /** The destination counts as satisfied exactly when it was listed and one
      of its entries is the folder's name. */
  lemma SatisfiedMeans(listing: Listing, folder: JsValue)
    ensures Satisfied(listing, folder) <==> listing.Entries? && folder.Str? && folder.s in listing.names
  {
    if listing.Entries? {
      IndexOfFound(listing.names, folder);
    }
  }

  /** A product without a folder never short-circuits, whatever the
      destination holds, with the lookup as intended or as written. */
  lemma UnmappedNeverSatisfied(listing: Listing, product: string)
    requires product !in ProductFolders
    ensures !Satisfied(listing, FolderForProduct(product))
    ensures !Satisfied(listing, ProductFolderAsWritten(product))
  {
    SatisfiedMeans(listing, FolderForProduct(product));
    if listing.Entries? {
      AsWrittenFindsTheSame(listing.names, product);
    }
  }

  /** The early-return test comes out the same whether the folder comes
      from the lookup as written or as intended, for every listing and
      product: the run of `main` as written is the one modelled here. */
  lemma AsWrittenSameTest(listing: Listing, product: string)
    ensures Satisfied(listing, ProductFolderAsWritten(product)) == Satisfied(listing, FolderForProduct(product))
  {
    if listing.Entries? {
      AsWrittenFindsTheSame(listing.names, product);
    }
  }

  // ---------------------------------------------------------------------
  // The run, one function per phase of main: the calls made from that phase
  // until the run ends, in success or, once its error has been reported on
  // the error stream, in failure.

  /** A stage that threw `m`: its call, then the report the outer catch makes. */
  function Reported(c: Call, m: string): seq<Call> {
    [c, ConsoleError(m)]
  }

  function FromExtracting(env: Env, opts: ExtractOpts): seq<Call> {
    var r := env.extract(opts);
    if r.Ok? then [Extract(opts)] else Reported(Extract(opts), r.error)
  }

  /** Building the extract options for the downloaded `path`, then extracting. */
  function FromChoosing(args: Args, env: Env, path: string): seq<Call> {
    var opts := ExtractOpts(path, args.dest, args.product, None);
    if SuffixGiven(args.fileSuffix) then
      FromExtracting(env, opts.(filetype := Some(LastSegment(args.fileSuffix.value))))
    else
      var c := ArchiveFiletype(args.os, args.product);
      var r := env.archiveFiletype(args.os, args.product);
      if r.Ok? then [c] + FromExtracting(env, opts.(filetype := Some(r.value))) else Reported(c, r.error)
  }

  function FromDownloading(args: Args, env: Env, url: string): seq<Call> {
    var c := Download(url, args);
    var r := env.download(url, args);
    if r.Ok? then [c] + FromChoosing(args, env, r.value) else Reported(c, r.error)
  }

  function FromResolving(args: Args, env: Env): seq<Call> {
    var c := DetectUrl(args);
    var r := env.detectUrl(args);
    if r.Ok? then [c] + FromDownloading(args, env, r.value) else Reported(c, r.error)
  }

  /** The calls of a whole run of `main`. */
  function Pipeline(args: Args, env: Env): seq<Call> {
    var c := Readdir(args.dest);
    if Satisfied(env.readdir(args.dest), FolderForProduct(args.product)) then [c]
    else [c] + FromResolving(args, env)
  }

  // ---------------------------------------------------------------------
  // main itself.

  /** main(args): the calls it makes, in the order it makes them, are the
      run's. Whatever a stage throws ends the try block and is reported
      once; main itself then completes, for every error given as text. */
  method RunMain(args: Args, env: Env) returns (trace: seq<Call>)
    ensures trace == Pipeline(args, env)
  {
    // Bail out when the destination already holds the product; a listing
    // that fails is caught and ignored.
    trace := [Readdir(args.dest)];
    var contents := env.readdir(args.dest);
    if contents.Entries? && |contents.names| != 0 && IndexOf(contents.names, FolderForProduct(args.product)) != -1 {
      return;
    }
    assert Pipeline(args, env) == trace + FromResolving(args, env);

    var url := env.detectUrl(args);
    if url.Err? {
      trace := trace + [DetectUrl(args), ConsoleError(url.error)];
      return;
    }
    trace := trace + [DetectUrl(args)];

    var path := env.download(url.value, args);
    if path.Err? {
      trace := trace + [Download(url.value, args), ConsoleError(path.error)];
      return;
    }
    trace := trace + [Download(url.value, args)];

    var product := args.product;
    var extractOpts := ExtractOpts(path.value, args.dest, product, None);
    if SuffixGiven(args.fileSuffix) {
      var parts := Split(args.fileSuffix.value, '.');
      extractOpts := extractOpts.(filetype := Some(parts[|parts| - 1]));
    } else {
      // the regular build archive for this platform
      var os := args.os;
      var filetype := env.archiveFiletype(os, product);
      if filetype.Err? {
        trace := trace + [ArchiveFiletype(os, product), ConsoleError(filetype.error)];
        return;
      }
      extractOpts := extractOpts.(filetype := Some(filetype.value));
      trace := trace + [ArchiveFiletype(os, product)];
    }
    assert Pipeline(args, env) == trace + FromExtracting(env, extractOpts);

    var extracted := env.extract(extractOpts);
    if extracted.Err? {
      trace := trace + [Extract(extractOpts), ConsoleError(extracted.error)];
    } else {
      trace := trace + [Extract(extractOpts)];
    }
  }
}
