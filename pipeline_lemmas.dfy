/** What a run of `main` promises, proved about the calls it makes. */
module PipelineLemmas {
  import opened Wrappers
  import opened Strings
  import opened Products
  import opened Orchestrator

  // ---------------------------------------------------------------------
  // The destination check.

  /** The destination is listed first, and main stops right after it
      exactly when that listing is an array holding the product's folder:
      then nothing is resolved, downloaded or extracted. */
  lemma ShortCircuitExactly(args: Args, env: Env)
    ensures |Pipeline(args, env)| >= 1 && Pipeline(args, env)[0] == Readdir(args.dest)
    ensures var listing, folder := env.readdir(args.dest), FolderForProduct(args.product);
      Pipeline(args, env) == [Readdir(args.dest)] <==>
        listing.Entries? && folder.Str? && folder.s in listing.names
  {
    SatisfiedMeans(env.readdir(args.dest), FolderForProduct(args.product));
  }

  /** A listing that fails, is null or is empty is no reason to stop: the
      URL resolver is the next call. */
  lemma ListingProblemsSwallowed(args: Args, env: Env)
    requires env.readdir(args.dest).ReadFailed? || env.readdir(args.dest).NullListing? || env.readdir(args.dest) == Entries([])
    ensures |Pipeline(args, env)| >= 2 && Pipeline(args, env)[1] == DetectUrl(args)
  {
  }

  /** A product without a folder is always fetched, whatever the
      destination holds. */
  lemma UnmappedProductAlwaysFetched(args: Args, env: Env)
    requires args.product !in ProductFolders
    ensures |Pipeline(args, env)| >= 2 && Pipeline(args, env)[1] == DetectUrl(args)
  {
    UnmappedNeverSatisfied(env.readdir(args.dest), args.product);
  }

  // ---------------------------------------------------------------------
  // Order of the stages.

  /** Position of each kind of call in the pipeline. */
  function CallRank(c: Call): nat {
    match c
    case Readdir(_) => 0
    case DetectUrl(_) => 1
    case Download(_, _) => 2
    case ArchiveFiletype(_, _) => 3
    case Extract(_) => 4
    case ConsoleError(_) => 5
  }

  /** Every call comes later in the pipeline than the calls before it. */
  ghost predicate InPipelineOrder(t: seq<Call>) {
    forall i, j :: 0 <= i < j < |t| ==> CallRank(t[i]) < CallRank(t[j])
  }

  ghost predicate RanksFrom(t: seq<Call>, k: nat) {
    forall i :: 0 <= i < |t| ==> k <= CallRank(t[i])
  }

  lemma OrderedAfter(c: Call, rest: seq<Call>)
    requires InPipelineOrder(rest) && RanksFrom(rest, CallRank(c) + 1)
    ensures InPipelineOrder([c] + rest) && RanksFrom([c] + rest, CallRank(c))
  {
    var t := [c] + rest;
    forall i, j | 0 <= i < j < |t| ensures CallRank(t[i]) < CallRank(t[j]) {
      assert t[j] == rest[j - 1];
      if i > 0 {
        assert t[i] == rest[i - 1];
      }
    }
  }

  lemma ExtractingInOrder(env: Env, opts: ExtractOpts)
    ensures InPipelineOrder(FromExtracting(env, opts)) && RanksFrom(FromExtracting(env, opts), 4)
  {
  }

  lemma ChoosingInOrder(args: Args, env: Env, path: string)
    ensures InPipelineOrder(FromChoosing(args, env, path)) && RanksFrom(FromChoosing(args, env, path), 3)
  {
    var opts := ExtractOpts(path, args.dest, args.product, None);
    if SuffixGiven(args.fileSuffix) {
      ExtractingInOrder(env, opts.(filetype := Some(LastSegment(args.fileSuffix.value))));
    } else {
      var r := env.archiveFiletype(args.os, args.product);
      if r.Ok? {
        ExtractingInOrder(env, opts.(filetype := Some(r.value)));
        OrderedAfter(ArchiveFiletype(args.os, args.product), FromExtracting(env, opts.(filetype := Some(r.value))));
      }
    }
  }

  lemma DownloadingInOrder(args: Args, env: Env, url: string)
    ensures InPipelineOrder(FromDownloading(args, env, url)) && RanksFrom(FromDownloading(args, env, url), 2)
  {
    var r := env.download(url, args);
    if r.Ok? {
      ChoosingInOrder(args, env, r.value);
      OrderedAfter(Download(url, args), FromChoosing(args, env, r.value));
    }
  }

  lemma ResolvingInOrder(args: Args, env: Env)
    ensures InPipelineOrder(FromResolving(args, env)) && RanksFrom(FromResolving(args, env), 1)
  {
    var r := env.detectUrl(args);
    if r.Ok? {
      DownloadingInOrder(args, env, r.value);
      OrderedAfter(DetectUrl(args), FromDownloading(args, env, r.value));
    }
  }

  /** The stages run strictly one after another: listing, resolving,
      downloading, the build-info lookup, extracting, and last the error
      report; so each of them happens at most once. */
  lemma StagesInOrder(args: Args, env: Env)
    ensures InPipelineOrder(Pipeline(args, env))
  {
    if !Satisfied(env.readdir(args.dest), FolderForProduct(args.product)) {
      ResolvingInOrder(args, env);
      OrderedAfter(Readdir(args.dest), FromResolving(args, env));
    }
  }

  // ---------------------------------------------------------------------
  // What each stage is handed.

  /** A call of an earlier stage is not among calls that all come later. */
  lemma NotAmongLater(t: seq<Call>, k: nat, c: Call)
    requires RanksFrom(t, k) && CallRank(c) < k
    ensures c !in t
  {
  }

  /** The resolver is asked, with the parsed arguments, exactly when the
      destination check did not stop the run. */
  lemma ResolverArguments(args: Args, env: Env, a: Args)
    ensures DetectUrl(a) in Pipeline(args, env) <==>
      !Satisfied(env.readdir(args.dest), FolderForProduct(args.product)) && a == args
  {
    var r := env.detectUrl(args);
    if r.Ok? {
      DownloadingInOrder(args, env, r.value);
      NotAmongLater(FromDownloading(args, env, r.value), 2, DetectUrl(a));
    }
  }

  /** The download is of the URL the resolver returned, and happens exactly
      when the resolver succeeded. */
  lemma DownloadArguments(args: Args, env: Env, url: string, a: Args)
    ensures Download(url, a) in Pipeline(args, env) <==>
      && !Satisfied(env.readdir(args.dest), FolderForProduct(args.product))
      && env.detectUrl(args) == Ok(url) && a == args
  {
    var r := env.detectUrl(args);
    if r.Ok? {
      var d := env.download(r.value, args);
      if d.Ok? {
        ChoosingInOrder(args, env, d.value);
        NotAmongLater(FromChoosing(args, env, d.value), 3, Download(url, a));
      }
    }
  }

  /** The build-info table is consulted, for the target platform and
      product, exactly when the download succeeded and no suffix was given. */
  lemma BuildInfoConsulted(args: Args, env: Env, os: string, product: string)
    ensures ArchiveFiletype(os, product) in Pipeline(args, env) <==>
      && !Satisfied(env.readdir(args.dest), FolderForProduct(args.product))
      && env.detectUrl(args).Ok?
      && env.download(env.detectUrl(args).value, args).Ok?
      && !SuffixGiven(args.fileSuffix)
      && os == args.os && product == args.product
  {
    var r := env.detectUrl(args);
    if r.Ok? {
      var d := env.download(r.value, args);
      if d.Ok? {
        var opts := ExtractOpts(d.value, args.dest, args.product, None);
        var ft := if SuffixGiven(args.fileSuffix) then Ok(LastSegment(args.fileSuffix.value))
                  else env.archiveFiletype(args.os, args.product);
        if ft.Ok? {
          ExtractingInOrder(env, opts.(filetype := Some(ft.value)));
          NotAmongLater(FromExtracting(env, opts.(filetype := Some(ft.value))), 4, ArchiveFiletype(os, product));
        }
      }
    }
  }

  /** Extraction is of the downloaded file into the destination, for the
      product, with the filetype taken from the last dot-separated segment of
      a given suffix (whatever the platform), or else from the build-info
      table; it happens exactly when every earlier stage succeeded. */
  lemma ExtractArguments(args: Args, env: Env, opts: ExtractOpts)
    ensures Extract(opts) in Pipeline(args, env) <==>
      && !Satisfied(env.readdir(args.dest), FolderForProduct(args.product))
      && env.detectUrl(args).Ok?
      && env.download(env.detectUrl(args).value, args) == Ok(opts.source)
      && opts.dest == args.dest && opts.product == args.product
      && (SuffixGiven(args.fileSuffix) ==> opts.filetype == Some(LastSegment(args.fileSuffix.value)))
      && (!SuffixGiven(args.fileSuffix) ==>
            env.archiveFiletype(args.os, args.product).Ok? && opts.filetype == Some(env.archiveFiletype(args.os, args.product).value))
  {
  }

  // ---------------------------------------------------------------------
  // Errors.

  /** The error a call throws into main's outer catch, if any. The listing
      has its own catch, so its failure never gets there. */
  function Thrown(env: Env, c: Call): Option<string> {
    match c
    case Readdir(_) => None
    case DetectUrl(a) => ErrorOf(env.detectUrl(a))
    case Download(u, a) => ErrorOf(env.download(u, a))
    case ArchiveFiletype(os, p) => ErrorOf(env.archiveFiletype(os, p))
    case Extract(o) => ErrorOf(env.extract(o))
    case ConsoleError(_) => None
  }

  /** Every call that throws is followed at once by the report of its error
      and by nothing else, and every report follows the call that threw it. */
  ghost predicate FailuresReported(env: Env, t: seq<Call>) {
    && (forall i :: 0 <= i < |t| && Thrown(env, t[i]).Some? ==>
          i + 2 == |t| && t[i + 1] == ConsoleError(Thrown(env, t[i]).value))
    && (forall i :: 0 <= i < |t| && t[i].ConsoleError? ==>
          0 < i && Thrown(env, t[i - 1]) == Some(t[i].message))
  }

  lemma ReportedAfter(env: Env, c: Call, rest: seq<Call>)
    requires Thrown(env, c).None? && !c.ConsoleError?
    requires FailuresReported(env, rest) && (|rest| > 0 ==> !rest[0].ConsoleError?)
    ensures FailuresReported(env, [c] + rest)
  {
    var t := [c] + rest;
    forall i | 0 <= i < |t| && Thrown(env, t[i]).Some?
      ensures i + 2 == |t| && t[i + 1] == ConsoleError(Thrown(env, t[i]).value)
    {
      assert t[i] == rest[i - 1] && t[i + 1] == rest[i];
    }
    forall i | 0 <= i < |t| && t[i].ConsoleError?
      ensures 0 < i && Thrown(env, t[i - 1]) == Some(t[i].message)
    {
      assert t[i] == rest[i - 1];
      if i > 1 {
        assert t[i - 1] == rest[i - 2];
      }
    }
  }

  lemma ExtractingReported(env: Env, opts: ExtractOpts)
    ensures FailuresReported(env, FromExtracting(env, opts))
    ensures |FromExtracting(env, opts)| > 0 && !FromExtracting(env, opts)[0].ConsoleError?
  {
  }

  lemma ChoosingReported(args: Args, env: Env, path: string)
    ensures FailuresReported(env, FromChoosing(args, env, path))
    ensures |FromChoosing(args, env, path)| > 0 && !FromChoosing(args, env, path)[0].ConsoleError?
  {
    var opts := ExtractOpts(path, args.dest, args.product, None);
    if SuffixGiven(args.fileSuffix) {
      ExtractingReported(env, opts.(filetype := Some(LastSegment(args.fileSuffix.value))));
    } else {
      var r := env.archiveFiletype(args.os, args.product);
      if r.Ok? {
        ExtractingReported(env, opts.(filetype := Some(r.value)));
        ReportedAfter(env, ArchiveFiletype(args.os, args.product), FromExtracting(env, opts.(filetype := Some(r.value))));
      }
    }
  }

  lemma DownloadingReported(args: Args, env: Env, url: string)
    ensures FailuresReported(env, FromDownloading(args, env, url))
    ensures |FromDownloading(args, env, url)| > 0 && !FromDownloading(args, env, url)[0].ConsoleError?
  {
    var r := env.download(url, args);
    if r.Ok? {
      ChoosingReported(args, env, r.value);
      ReportedAfter(env, Download(url, args), FromChoosing(args, env, r.value));
    }
  }

  lemma ResolvingReported(args: Args, env: Env)
    ensures FailuresReported(env, FromResolving(args, env))
    ensures |FromResolving(args, env)| > 0 && !FromResolving(args, env)[0].ConsoleError?
  {
    var r := env.detectUrl(args);
    if r.Ok? {
      DownloadingReported(args, env, r.value);
      ReportedAfter(env, DetectUrl(args), FromDownloading(args, env, r.value));
    }
  }

  /** A stage that throws stops every later stage, and its error is
      reported, once, as main's last act; main itself does not throw. */
  lemma ErrorsReportedOnce(args: Args, env: Env)
    ensures FailuresReported(env, Pipeline(args, env))
  {
    if !Satisfied(env.readdir(args.dest), FolderForProduct(args.product)) {
      ResolvingReported(args, env);
      ReportedAfter(env, Readdir(args.dest), FromResolving(args, env));
    }
  }

  /** Every run ends in one of three ways: stopped at the destination check,
      after an extraction that succeeded, or with the report of an error. */
  lemma RunEndings(args: Args, env: Env)
    ensures var t := Pipeline(args, env);
      || t == [Readdir(args.dest)]
      || (t[|t| - 1].Extract? && env.extract(t[|t| - 1].opts).Ok?)
      || t[|t| - 1].ConsoleError?
  {
    var t := Pipeline(args, env);
    if !Satisfied(env.readdir(args.dest), FolderForProduct(args.product)) {
      var url := env.detectUrl(args);
      if url.Ok? {
        var path := env.download(url.value, args);
        if path.Ok? {
          var opts := ExtractOpts(path.value, args.dest, args.product, None);
          var ft := if SuffixGiven(args.fileSuffix) then Ok(LastSegment(args.fileSuffix.value))
                    else env.archiveFiletype(args.os, args.product);
          if ft.Ok? {
            var e := FromExtracting(env, opts.(filetype := Some(ft.value)));
            assert t[|t| - 1] == e[|e| - 1];
          }
        }
      }
    }
  }

  // ---------------------------------------------------------------------
  // Whole runs for particular inputs.

  /** firefox into a destination that already holds `firefox`: the listing
      is the only call, so nothing is fetched. */
  lemma FolderAlreadyPresent(args: Args, env: Env, names: seq<string>)
    requires args.product == "firefox" && env.readdir(args.dest) == Entries(names) && "firefox" in names
    ensures Pipeline(args, env) == [Readdir(args.dest)]
  {
    ShortCircuitExactly(args, env);
  }

  /** An explicit ".zip" suffix on mac64 fixes the filetype to `zip`, and
      the build-info table, which a mac build would otherwise consult, is
      never asked. */
  lemma ZipSuffixOnMac(args: Args, env: Env, opts: ExtractOpts)
    requires args.fileSuffix == Some(".zip") && args.os == "mac64"
    requires Extract(opts) in Pipeline(args, env)
    ensures opts.filetype == Some("zip")
    ensures ArchiveFiletype(args.os, args.product) !in Pipeline(args, env)
  {
    ExtractArguments(args, env, opts);
    BuildInfoConsulted(args, env, args.os, args.product);
    SegmentAfterLastDot("", "zip");
    assert "" + ['.'] + "zip" == ".zip";
  }

  /** When the resolver throws, nothing is downloaded, and its error is the
      one report. */
  lemma ResolverFails(args: Args, env: Env)
    requires env.detectUrl(args).Err?
    requires !Satisfied(env.readdir(args.dest), FolderForProduct(args.product))
    ensures Pipeline(args, env) == [Readdir(args.dest), DetectUrl(args), ConsoleError(env.detectUrl(args).error)]
  {
  }
}
