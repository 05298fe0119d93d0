/** Runs with --output-file, --overwrite or --continue: a single path is written to. */
module OnePath {
  import opened Decimal
  import opened Target
  import opened Transfer
  import opened Get
  import opened Runs

  predicate HasOnePath(opts: Options) {
    opts.choice.OutputFile? || opts.overwrite || opts.resume
  }

  /** The name given, or the one made from the format, without any counter. */
  function PathOf(opts: Options): string {
    match opts.choice
    case OutputFile(path) => path
    case FilenameFormat(base) => base
  }

  /** The path is left alone: it holds as many bytes as announced. With --output-file an
      announced length of 0 is enough, without any file. */
  predicate LeavesAlone(files: Files, media: Media, opts: Options) {
    && !opts.overwrite
    && SizeOf(files, PathOf(opts)) >= media.contentLength
    && (opts.choice.OutputFile? || SizeOf(files, PathOf(opts)) > 0)
  }

  /** Where writing goes on: at the beginning, or behind what is there. */
  function OffsetOf(files: Files, opts: Options): nat {
    if opts.overwrite then 0 else SizeOf(files, PathOf(opts))
  }

  lemma OnePathLocated(files: Files, media: Media, opts: Options)
    requires HasOnePath(opts)
    ensures Locate(files, media, opts)
         == Location(PathOf(opts), OffsetOf(files, opts), LeavesAlone(files, media, opts))
  {
    if opts.choice.FilenameFormat? && !opts.overwrite {
      SearchFindsFirst(files, opts.choice.base, media.contentLength, opts.resume, 0);
    }
  }

  /** What a write does on this path: it starts from what it is to keep, and changes no other
      file. */
  ghost predicate WritesThere(e: Event, media: Media, opts: Options) {
    e.Write? ==>
      && e.target.path == PathOf(opts) && e.target.offset == OffsetOf(e.before, opts)
      && !LeavesAlone(e.before, media, opts)
      && e.after - {PathOf(opts)} == e.before - {PathOf(opts)}
      && (e.outcome == OpenFailed ==> e.after == e.before)
      && (e.outcome != OpenFailed ==> PathOf(opts) in e.after)
      && (e.outcome != OpenFailed && !opts.overwrite && PathOf(opts) in e.before
          ==> e.before[PathOf(opts)] <= e.after[PathOf(opts)])
  }

  lemma AttemptWritesThere(files: Files, pending: bool, media: Media, opts: Options, net: Transport, retry: nat)
    requires HasOnePath(opts) && GetsToWrite(files, media, opts)
    ensures WritesThere(WriteOf(files, pending, media, opts, net, retry), media, opts)
  {
    var loc := Locate(files, media, opts);
    var plan := net(retry, loc.offset);
    OnePathLocated(files, media, opts);
    OutcomeIff(files, pending, loc, opts.overwrite, plan);
    if !plan.openFails {
      PerformStores(StartOf(files, pending, loc, opts.overwrite), plan.steps);
    }
  }

  /** Every write of a run is such a write, and the run changes no other file. */
  lemma {:induction false} OnePathRun(files: Files, pending: bool, media: Media, opts: Options,
                                      net: Transport, retry: nat)
    requires HasOnePath(opts)
    ensures var r := Run(files, pending, media, opts, net, retry);
      && (forall e :: e in r.events ==> WritesThere(e, media, opts))
      && r.files - {PathOf(opts)} == files - {PathOf(opts)}
    decreases opts.maxRetries + 1 - retry
  {
    if retry <= opts.maxRetries {
      var r := Iterate(files, pending, media, opts, net, retry);
      IterationShape(files, pending, media, opts, net, retry);
      if GetsToWrite(files, media, opts) {
        AttemptWritesThere(files, pending, media, opts, net, retry);
      }
      if r.again {
        OnePathRun(r.files, r.pending, media, opts, net, retry + 1);
      }
    }
  }

  ghost function NamesOf(opts: Options): iset<string> {
    match opts.choice
    case OutputFile(path) => iset{path}
    case FilenameFormat(base) => iset k: nat | k >= 0 :: Candidate(base, k)
  }

  /** With --overwrite the media replaces what was there: every write begins at 0, and one
      that ends with 200 or 206 leaves exactly the media, whatever the file held before. */
  lemma OverwriteReplaces(files: Files, pending: bool, media: Media, opts: Options, net: Transport)
    requires opts.overwrite && HonestNet(net, media.bytes)
    ensures var r := Run(files, pending, media, opts, net, 0);
      && r.end != ThrewNothingTodo
      && forall e :: e in r.events && e.Write? ==>
           && e.target.path == PathOf(opts) && e.target.offset == 0
           && (e.outcome == Returned(true) && e.rc == CURLE_OK ==>
                 PathOf(opts) in e.after && e.after[PathOf(opts)] == media.bytes)
  {
    var r := Run(files, pending, media, opts, net, 0);
    var owned := NamesOf(opts);
    OnePathRun(files, pending, media, opts, net, 0);
    RunIsSafe(files, pending, media, opts, net, 0, owned);
    NeverNothingTodo(files, pending, media, opts, net, 0);
  }

  lemma {:induction false} NeverNothingTodo(files: Files, pending: bool, media: Media, opts: Options,
                                            net: Transport, retry: nat)
    requires opts.overwrite
    ensures Run(files, pending, media, opts, net, retry).end != ThrewNothingTodo
    decreases opts.maxRetries + 1 - retry
  {
    if retry <= opts.maxRetries {
      var r := Iterate(files, pending, media, opts, net, retry);
      OnePathLocated(files, media, opts);
      NeverNothingTodo(r.files, r.pending, media, opts, net, retry + 1);
    }
  }

  lemma {:induction false} LastWriteStays(files: Files, es: seq<Event>, i: nat)
    requires i < |es| && es[i].Write? && forall j :: i < j < |es| ==> !es[j].Write?
    ensures DiskAfter(files, es) == es[i].after
    decreases |es|
  {
    if i > 0 {
      LastWriteStays(if es[0].Write? then es[0].after else files, es[1..], i - 1);
    } else {
      NoWriteStays(es[0].after, es[1..]);
    }
  }

  lemma {:induction false} NoWriteStays(files: Files, es: seq<Event>)
    requires forall j :: 0 <= j < |es| ==> !es[j].Write?
    ensures DiskAfter(files, es) == files
    decreases |es|
  {
    if es != [] {
      NoWriteStays(files, es[1..]);
    }
  }

  /** With --overwrite and a well-behaved server, a run that ends after a write of 200 or 206
      leaves exactly the media at the path. */
  lemma OverwriteEndsComplete(files: Files, pending: bool, media: Media, opts: Options, net: Transport, i: nat)
    requires opts.overwrite && HonestNet(net, media.bytes)
    requires var es := Run(files, pending, media, opts, net, 0).events;
      i < |es| && es[i].Write? && es[i].outcome == Returned(true) && es[i].rc == CURLE_OK
    ensures var r := Run(files, pending, media, opts, net, 0);
      PathOf(opts) in r.files && r.files[PathOf(opts)] == media.bytes
  {
    var r := Run(files, pending, media, opts, net, 0);
    OverwriteReplaces(files, pending, media, opts, net);
    WritesBounded(files, pending, media, opts, net, 0);
    assert forall j :: i < j < |r.events| ==> !r.events[j].Write?;
    RunIsContinuous(files, pending, media, opts, net, 0);
    LastWriteStays(files, r.events, i);
  }
}
