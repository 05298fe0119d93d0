/** What holds over whole runs of cc::get, and over any series of them. */
module Runs {
  import opened Common
  import opened Decimal
  import opened Target
  import opened Transfer
  import opened Get

  ghost predicate HonestNet(net: Transport, bytes: seq<Byte>) {
    forall n: nat, offset: nat :: Honest(net(n, offset), bytes, offset)
  }

  // ----- The shape of one iteration

  predicate GetsToWrite(files: Files, media: Media, opts: Options) {
    !opts.noDownload && !Locate(files, media, opts).nothingTodo
  }

  lemma HeadShape(loc: Location, w: Event, opts: Options, retry: nat)
    requires w.Write?
    ensures var head := if retry > 0 then [Probe(loc), Wait(opts.retryWait)] else [Probe(loc)];
      && (forall e :: e in head ==> !e.Write?)
      && (forall e :: e in Execs(opts, loc.path) ==> !e.Write?)
      && OneWrite(head + [w], w) && OneWrite(head + [w] + Execs(opts, loc.path), w)
  {
  }

  /** At most one event is a write, and if so it is w. */
  predicate OneWrite(es: seq<Event>, w: Event) {
    && (forall e :: e in es && e.Write? ==> e == w)
    && (forall i, j :: 0 <= i < j < |es| ==> !(es[i].Write? && es[j].Write?))
  }

  lemma IterationShape(files: Files, pending: bool, media: Media, opts: Options, net: Transport, retry: nat)
    ensures var r, w := Iterate(files, pending, media, opts, net, retry),
                        WriteOf(files, pending, media, opts, net, retry);
      && OneWrite(r.events, w)
      && (forall e :: e in r.events && e.Write? ==> GetsToWrite(files, media, opts))
      && r.files == (if GetsToWrite(files, media, opts) then w.after else files)
      && (r.again ==> GetsToWrite(files, media, opts) && w.outcome == Returned(false))
  {
    HeadShape(Locate(files, media, opts), WriteOf(files, pending, media, opts, net, retry), opts, retry);
  }

  // ----- Resuming is safe

  /** The names a run may write to. */
  ghost predicate Owns(owned: iset<string>, opts: Options) {
    match opts.choice
    case OutputFile(path) => path in owned
    case FilenameFormat(base) => forall k: nat :: Candidate(base, k) in owned
  }

  ghost predicate Prefixes(files: Files, owned: iset<string>, bytes: seq<Byte>) {
    forall p :: p in owned ==> IsPrefixOf(files, p, bytes)
  }

  ghost predicate NeverShorter(before: Files, after: Files) {
    forall p :: SizeOf(before, p) <= SizeOf(after, p)
  }

  /** The search of every iteration from retry on settles: with --continue, --output-file or
      --overwrite always, otherwise when each can find a candidate that is not partial. */
  predicate Settles(files: Files, media: Media, opts: Options, retry: nat) {
    opts.choice.OutputFile? || opts.overwrite || opts.resume
    || |FreeNames(files, opts.choice.base, media.contentLength)| > opts.maxRetries - retry
  }

  lemma FewFilesSettle(files: Files, media: Media, opts: Options, retry: nat)
    requires |files| + (opts.maxRetries - retry) < INT_MAX
    ensures Settles(files, media, opts, retry)
  {
    if opts.choice.FilenameFormat? {
      FewFilesLeaveNames(files, opts.choice.base, media.contentLength);
    }
  }

  lemma SettlesNow(files: Files, media: Media, opts: Options, retry: nat)
    requires retry <= opts.maxRetries && Settles(files, media, opts, retry)
    ensures SearchSettles(files, media, opts)
  {
    if opts.choice.FilenameFormat? && !opts.overwrite && !opts.resume {
      FreeNameSettles(files, media, opts);
    }
  }

  lemma SettlesNext(files: Files, after: Files, path: string, media: Media, opts: Options, retry: nat)
    requires Settles(files, media, opts, retry) && after - {path} == files - {path}
    ensures Settles(after, media, opts, retry + 1)
  {
    if opts.choice.FilenameFormat? {
      OnlyTargetChanges(files, after, path);
      OneNameTaken(files, after, path, opts.choice.base, media.contentLength);
    }
  }

  ghost predicate SafeWrite(e: Event, owned: iset<string>, bytes: seq<Byte>, opts: Options) {
    e.Write? ==>
      && e.target.path in owned
      && (opts.overwrite || Prefixes(e.after, owned, bytes))
      && (opts.overwrite || NeverShorter(e.before, e.after))
      && (e.outcome != OpenFailed ==> IsPrefixOf(e.after, e.target.path, bytes))
      && (e.outcome == Returned(true) && e.rc == CURLE_OK
          ==> e.target.path in e.after && e.after[e.target.path] == bytes)
  }

  lemma LocateOwned(files: Files, media: Media, opts: Options, owned: iset<string>)
    requires Owns(owned, opts)
    ensures Locate(files, media, opts).path in owned
  {
    if opts.choice.FilenameFormat? && !opts.overwrite {
      var k := StopIndex(files, opts.choice.base, media.contentLength, opts.resume, 0);
      assert Candidate(opts.choice.base, k) in owned;
    } else if opts.choice.FilenameFormat? {
      assert Candidate(opts.choice.base, 0) in owned;
    }
  }

  lemma LocateAligned(files: Files, media: Media, opts: Options, retry: nat)
    requires retry <= opts.maxRetries && Settles(files, media, opts, retry)
    ensures Aligned(files, Locate(files, media, opts), opts.overwrite)
         || Locate(files, media, opts).nothingTodo
  {
    if !opts.overwrite {
      SettlesNow(files, media, opts, retry);
      OffsetIsSize(files, media, opts);
    }
  }

  lemma WriteIsSafe(files: Files, pending: bool, media: Media, opts: Options, net: Transport,
                    retry: nat, owned: iset<string>)
    requires retry <= opts.maxRetries && Settles(files, media, opts, retry)
    requires HonestNet(net, media.bytes) && Owns(owned, opts)
    requires opts.overwrite || Prefixes(files, owned, media.bytes)
    requires GetsToWrite(files, media, opts)
    ensures var w := WriteOf(files, pending, media, opts, net, retry);
      && SafeWrite(w, owned, media.bytes, opts)
      && Settles(w.after, media, opts, retry + 1)
  {
    var loc := Locate(files, media, opts);
    LocateOwned(files, media, opts, owned);
    LocateAligned(files, media, opts, retry);
    var plan := net(retry, loc.offset);
    assert opts.overwrite || IsPrefixOf(files, loc.path, media.bytes);
    AttemptIsSafe(files, pending, media, loc, opts.overwrite, plan);
    var after := Try(files, pending, loc, opts.overwrite, plan).files;
    OnlyTargetChanges(files, after, loc.path);
    SettlesNext(files, after, loc.path, media, opts, retry);
  }

  lemma OnlyTargetChanges(before: Files, after: Files, path: string)
    requires after - {path} == before - {path}
    ensures forall p :: p != path ==> (p in before <==> p in after) && (p in before ==> before[p] == after[p])
  {
    forall p | p != path
      ensures (p in before <==> p in after) && (p in before ==> before[p] == after[p])
    {
      assert p in before <==> p in before - {path};
      assert p in after <==> p in after - {path};
    }
  }

  /** Every write of a run is safe, however the transfers are cut up, fail or are aborted,
      and so is what the run leaves behind. */
  lemma {:induction false} RunIsSafe(files: Files, pending: bool, media: Media, opts: Options,
                                     net: Transport, retry: nat, owned: iset<string>)
    requires HonestNet(net, media.bytes) && Owns(owned, opts) && Settles(files, media, opts, retry)
    requires opts.overwrite || Prefixes(files, owned, media.bytes)
    ensures var r := Run(files, pending, media, opts, net, retry);
      && (forall e :: e in r.events ==> SafeWrite(e, owned, media.bytes, opts))
      && (opts.overwrite || (Prefixes(r.files, owned, media.bytes) && NeverShorter(files, r.files)))
    decreases opts.maxRetries + 1 - retry
  {
    if retry <= opts.maxRetries {
      var r := Iterate(files, pending, media, opts, net, retry);
      IterationShape(files, pending, media, opts, net, retry);
      if GetsToWrite(files, media, opts) {
        WriteIsSafe(files, pending, media, opts, net, retry, owned);
      }
      if r.again {
        RunIsSafe(r.files, r.pending, media, opts, net, retry + 1, owned);
      }
    }
  }

  /** A server that first answers 503 with an error page of one byte, and the second time as
      it should, with the bytes asked for. */
  function PageThenMedia(n: nat, offset: nat): Plan {
    if n == 0 then Plan(false, [Chunk([60], 1, true)], CURLE_OK, 503)
    else Plan(false, [Chunk(From([1, 2, 3], offset), 3, true)], CURLE_OK, 206)
  }

  /** The error page is stored, the retry resumes behind it, and get ends as if all were well
      with a file that is not the media. */
  lemma ErrorPageEndsInFile(path: string, opts: Options)
    requires opts == Options(OutputFile(path), false, false, 1, 0, false, false)
    ensures var r := Run(map[], false, Media([1, 2, 3], 3, ""), opts, PageThenMedia, 0);
      r.end == Stopped && r.files == map[path := [60, 2, 3]]
    ensures Honest(PageThenMedia(1, 1), [1, 2, 3], 1)
  {
    var none: Files, page: Files := map[], map[path := [60]];
    var media := Media([1, 2, 3], 3, "");
    var loc0, loc1 := Location(path, 0, false), Location(path, 1, false);
    assert Locate(none, media, opts) == loc0 && Locate(page, media, opts) == loc1;
    OneChunk(StartOf(none, false, loc0, false), [60], 1);
    assert Try(none, false, loc0, false, PageThenMedia(0, 0)) == Attempt(page, false, 0, Returned(false)) by {
      assert [] + [60] == [60];
    }
    assert From([1, 2, 3], 1) == [2, 3];
    OneChunk(StartOf(page, false, loc1, false), [2, 3], 3);
    assert Try(page, false, loc1, false, PageThenMedia(1, 1))
        == Attempt(map[path := [60, 2, 3]], false, 0, Returned(true)) by {
      assert [60] + [2, 3] == [60, 2, 3] && page[path := [60, 2, 3]] == map[path := [60, 2, 3]];
    }
    assert Delivered(PageThenMedia(1, 1).steps) == [2, 3] + Delivered([]);
  }

  /** One program invocation after another, for the same media. */
  datatype Invocation = Invocation(opts: Options, net: Transport)

  function Session(files: Files, pending: bool, media: Media, runs: seq<Invocation>): Files
    decreases |runs|
  {
    if runs == [] then files
    else
      var r := Run(files, pending, media, runs[0].opts, runs[0].net, 0);
      Session(r.files, r.pending, media, runs[1..])
  }

  predicate Resuming(opts: Options) {
    !opts.overwrite && (opts.resume || opts.choice.OutputFile?)
  }

  /** Whatever series of resuming invocations is made, the targets stay prefixes of the
      media and never get shorter; a target that once was complete stays complete. */
  lemma {:induction false} SessionIsSafe(files: Files, pending: bool, media: Media,
                                         runs: seq<Invocation>, owned: iset<string>)
    requires forall i :: 0 <= i < |runs| ==>
      Resuming(runs[i].opts) && Owns(owned, runs[i].opts) && HonestNet(runs[i].net, media.bytes)
    requires Prefixes(files, owned, media.bytes)
    ensures var end := Session(files, pending, media, runs);
      && Prefixes(end, owned, media.bytes)
      && NeverShorter(files, end)
      && (forall p :: p in owned && p in files && files[p] == media.bytes && media.bytes != []
                      ==> p in end && end[p] == media.bytes)
    decreases |runs|
  {
    if runs != [] {
      RunIsSafe(files, pending, media, runs[0].opts, runs[0].net, 0, owned);
      var r := Run(files, pending, media, runs[0].opts, runs[0].net, 0);
      SessionIsSafe(r.files, r.pending, media, runs[1..], owned);
    }
    var end := Session(files, pending, media, runs);
    forall p | p in owned && p in files && files[p] == media.bytes && media.bytes != []
      ensures p in end && end[p] == media.bytes
    {
      assert SizeOf(files, p) <= SizeOf(end, p);
      assert IsPrefixOf(end, p, media.bytes);
    }
  }

  // ----- Nothing is overwritten

  ghost predicate Preserves(before: Files, after: Files) {
    forall p :: p in before && before[p] != [] ==> p in after && after[p] == before[p]
  }

  /** No --overwrite, no --output-file, no --continue. */
  predicate Fresh(opts: Options) {
    opts.choice.FilenameFormat? && !opts.overwrite && !opts.resume
  }

  function IndexIn(files: Files, media: Media, opts: Options): nat
    requires opts.choice.FilenameFormat?
  {
    StopIndex(files, opts.choice.base, media.contentLength, opts.resume, 0)
  }

  /** A later write leaves alone what was there, takes no earlier candidate, and a later
      candidate than one that was left partial. */
  ghost predicate Later(e: Event, f: Event, media: Media, opts: Options)
    requires e.Write? && f.Write? && opts.choice.FilenameFormat?
  {
    && Preserves(e.after, f.after)
    && IndexIn(e.before, media, opts) <= IndexIn(f.before, media, opts)
    && (Partial(e.after, e.target.path, media.contentLength)
        ==> IndexIn(e.before, media, opts) < IndexIn(f.before, media, opts))
  }

  /** A fresh attempt spares every file that holds a byte, unless the search gave up, the name
      behind all candidates is in use and something is stored; the index never falls, and
      rises after a partial write. */
  lemma FreshAttempt(files: Files, pending: bool, media: Media, opts: Options, plan: Plan)
    requires Fresh(opts) && !Locate(files, media, opts).nothingTodo
    ensures var loc := Locate(files, media, opts);
      var after := Try(files, pending, loc, opts.overwrite, plan).files;
      && loc.path == Candidate(opts.choice.base, IndexIn(files, media, opts))
      && (Preserves(files, after)
          <==> SearchSettles(files, media, opts) || SizeOf(files, loc.path) == 0
               || plan.openFails || Stored(false, pending, plan.steps) == [])
      && IndexIn(files, media, opts) <= IndexIn(after, media, opts)
      && (SearchSettles(files, media, opts) && Partial(after, loc.path, media.contentLength)
          ==> IndexIn(files, media, opts) < IndexIn(after, media, opts))
  {
    var base := opts.choice.base;
    var loc := Locate(files, media, opts);
    var after := Try(files, pending, loc, opts.overwrite, plan).files;
    var k := IndexIn(files, media, opts);
    SearchGivesUpIff(files, base, media.contentLength, opts.resume);
    SparedIff(files, pending, media, opts, plan);
    assert after - {loc.path} == files - {loc.path};
    OnlyTargetChanges(files, after, loc.path);
    forall j | 0 <= j < k ensures Skips(after, base, media.contentLength, opts.resume, j) {
      assert Skips(files, base, media.contentLength, opts.resume, j);
      if Candidate(base, j) == Candidate(base, k) {
        CandidateInjective(base, j, k);
      }
    }
    var m := IndexIn(after, media, opts);
    assert m < INT_MAX ==> !Skips(after, base, media.contentLength, opts.resume, m);
  }

  lemma SparedIff(files: Files, pending: bool, media: Media, opts: Options, plan: Plan)
    requires Fresh(opts) && !Locate(files, media, opts).nothingTodo
    ensures var loc := Locate(files, media, opts);
      Preserves(files, Try(files, pending, loc, opts.overwrite, plan).files)
      <==> SearchSettles(files, media, opts) || SizeOf(files, loc.path) == 0
           || plan.openFails || Stored(false, pending, plan.steps) == []
  {
    var base := opts.choice.base;
    var loc := Locate(files, media, opts);
    SearchGivesUpIff(files, base, media.contentLength, opts.resume);
    if !plan.openFails {
      var x := StartOf(files, pending, loc, opts.overwrite);
      PerformStores(x, plan.steps);
      if SizeOf(files, loc.path) > 0 {
        assert Skips(files, base, media.contentLength, opts.resume, INT_MAX - 1);
        assert loc.offset > 0;
        assert x.stream.content == files[loc.path];
      }
    }
  }

  /** The same for an iteration whose search settles. */
  lemma FreshIteration(files: Files, pending: bool, media: Media, opts: Options, net: Transport, retry: nat)
    requires retry <= opts.maxRetries && Fresh(opts) && Settles(files, media, opts, retry)
    requires GetsToWrite(files, media, opts)
    ensures var w := WriteOf(files, pending, media, opts, net, retry);
      && w.before == files && Preserves(files, w.after)
      && IndexIn(files, media, opts) <= IndexIn(w.after, media, opts)
      && (Partial(w.after, w.target.path, media.contentLength)
          ==> IndexIn(files, media, opts) < IndexIn(w.after, media, opts))
      && Settles(w.after, media, opts, retry + 1)
  {
    var loc := Locate(files, media, opts);
    SettlesNow(files, media, opts, retry);
    FreshAttempt(files, pending, media, opts, net(retry, loc.offset));
    SettlesNext(files, WriteOf(files, pending, media, opts, net, retry).after, loc.path, media, opts, retry);
  }

  /** No write of es changes a file that holds a byte in files, or takes an earlier candidate
      than is due there. */
  ghost predicate Spares(files: Files, es: seq<Event>, media: Media, opts: Options)
    requires opts.choice.FilenameFormat?
  {
    forall e :: e in es && e.Write? ==>
      Preserves(files, e.after) && IndexIn(files, media, opts) <= IndexIn(e.before, media, opts)
  }

  ghost predicate AllLater(es: seq<Event>, media: Media, opts: Options)
    requires opts.choice.FilenameFormat?
  {
    forall i, j :: 0 <= i < j < |es| && es[i].Write? && es[j].Write? ==> Later(es[i], es[j], media, opts)
  }

  lemma LaterAcross(files: Files, a: seq<Event>, w: Event, b: seq<Event>, media: Media, opts: Options)
    requires opts.choice.FilenameFormat? && w.Write? && OneWrite(a, w)
    requires w.before == files && Preserves(files, w.after)
    requires IndexIn(files, media, opts) <= IndexIn(w.after, media, opts)
    requires Partial(w.after, w.target.path, media.contentLength)
      ==> IndexIn(files, media, opts) < IndexIn(w.after, media, opts)
    requires Spares(w.after, b, media, opts) && AllLater(b, media, opts)
    ensures Spares(files, a + b, media, opts) && AllLater(a + b, media, opts)
  {
    forall f | f in b && f.Write? ensures Later(w, f, media, opts) && Preserves(files, f.after) {
      assert Preserves(w.after, f.after);
    }
    forall i, j | 0 <= i < j < |a + b| && (a + b)[i].Write? && (a + b)[j].Write?
      ensures Later((a + b)[i], (a + b)[j], media, opts)
    {
      assert i < |a| ==> a[i] in a;
      assert j >= |a| ==> b[j - |a|] in b;
    }
  }

  /** Over a whole run no file that has ever held a byte is changed by a later write. */
  lemma {:induction false} NothingClobbered(files: Files, pending: bool, media: Media, opts: Options,
                                            net: Transport, retry: nat)
    requires Fresh(opts) && Settles(files, media, opts, retry)
    ensures var es := Run(files, pending, media, opts, net, retry).events;
      Spares(files, es, media, opts) && AllLater(es, media, opts)
    decreases opts.maxRetries + 1 - retry
  {
    if retry <= opts.maxRetries {
      var r, w := Iterate(files, pending, media, opts, net, retry),
                  WriteOf(files, pending, media, opts, net, retry);
      IterationShape(files, pending, media, opts, net, retry);
      if GetsToWrite(files, media, opts) {
        FreshIteration(files, pending, media, opts, net, retry);
        if r.again {
          NothingClobbered(r.files, r.pending, media, opts, net, retry + 1);
          LaterAcross(files, r.events, w, Run(r.files, r.pending, media, opts, net, retry + 1).events, media, opts);
        }
      }
    }
  }

  // ----- The retry protocol

  function Writes(es: seq<Event>): nat {
    if es == [] then 0 else (if es[0].Write? then 1 else 0) + Writes(es[1..])
  }

  lemma {:induction false} WritesAppend(a: seq<Event>, b: seq<Event>)
    ensures Writes(a + b) == Writes(a) + Writes(b)
  {
    if a == [] {
      assert a + b == b;
    } else {
      WritesAppend(a[1..], b);
      assert (a + b)[1..] == a[1..] + b;
    }
  }

  lemma {:induction false} AtMostOneWrite(es: seq<Event>)
    requires forall i, j :: 0 <= i < j < |es| ==> !(es[i].Write? && es[j].Write?)
    ensures Writes(es) <= 1
    ensures (forall e :: e in es ==> !e.Write?) ==> Writes(es) == 0
  {
    if es != [] {
      AtMostOneWrite(es[1..]);
      assert es[0].Write? ==> forall e :: e in es[1..] ==> !e.Write?;
    }
  }

  /** What may come directly before event i of the events from iteration retry on. */
  predicate InPlace(es: seq<Event>, i: nat, retry: nat, opts: Options)
    requires i < |es|
  {
    match es[i]
    case Probe(_) => if i == 0 then true else es[i - 1].Write? && es[i - 1].outcome == Returned(false)
    case Wait(seconds) => seconds == opts.retryWait && i > 0 && es[i - 1].Probe? && (retry == 0 ==> i > 1)
    case Write(target, _, _, _, _, _) =>
      && i > 0
      && (if retry == 0 && i == 1 then true else i > 1 && es[i - 1].Wait?)
      && es[if retry == 0 && i == 1 then 0 else i - 2] == Probe(target)
      && !target.nothingTodo
    case Exec(path) =>
      && opts.exec && i > 0 && i == |es| - 1
      && (if es[i - 1].Write? then es[i - 1].outcome == Returned(true) && path == es[i - 1].target.path
          else es[i - 1].Probe? && es[i - 1].loc.nothingTodo && path == es[i - 1].loc.path)
  }

  predicate AllInPlace(es: seq<Event>, retry: nat, opts: Options) {
    && (es != [] ==> es[0].Probe?)
    && (forall i :: 0 <= i < |es| ==> InPlace(es, i, retry, opts))
  }

  lemma HeadInPlace(loc: Location, w: Event, opts: Options, retry: nat)
    requires w.Write? && w.target == loc && !loc.nothingTodo
    ensures var head := if retry > 0 then [Probe(loc), Wait(opts.retryWait)] else [Probe(loc)];
      && AllInPlace(head, retry, opts) && AllInPlace(head + [w], retry, opts)
      && (w.outcome == Returned(true) ==> AllInPlace(head + [w] + Execs(opts, loc.path), retry, opts))
  {
  }

  lemma IterationInPlace(files: Files, pending: bool, media: Media, opts: Options, net: Transport, retry: nat)
    ensures AllInPlace(Iterate(files, pending, media, opts, net, retry).events, retry, opts)
  {
    var loc := Locate(files, media, opts);
    if loc.nothingTodo {
      assert AllInPlace([Probe(loc)] + Execs(opts, loc.path), retry, opts);
    } else {
      HeadInPlace(loc, WriteOf(files, pending, media, opts, net, retry), opts, retry);
    }
  }

  lemma InPlaceAcross(a: seq<Event>, b: seq<Event>, retry: nat, opts: Options)
    requires AllInPlace(a, retry, opts) && AllInPlace(b, retry + 1, opts)
    requires a != [] && a[|a| - 1].Write? && a[|a| - 1].outcome == Returned(false)
    ensures AllInPlace(a + b, retry, opts)
  {
    var es, n := a + b, |a|;
    forall i | 0 <= i < |es| ensures InPlace(es, i, retry, opts) {
      if i < n {
        assert InPlace(a, i, retry, opts);
      } else {
        assert InPlace(b, i - n, retry + 1, opts);
      }
    }
  }

  /** A write after which the loop goes on. */
  predicate Retryable(e: Event)
    requires e.Write?
  {
    e.outcome == Returned(false) && e.rc != CURLE_ABORTED_BY_CALLBACK && !(400 <= e.resp <= 500)
  }

  /** At most one write more than max-retries; a write follows only writes that all
      returned false, so none follows an error response or an abort. */
  lemma {:induction false} WritesBounded(files: Files, pending: bool, media: Media, opts: Options,
                                         net: Transport, retry: nat)
    ensures var es := Run(files, pending, media, opts, net, retry).events;
      && (retry <= opts.maxRetries + 1 ==> Writes(es) <= opts.maxRetries + 1 - retry)
      && (forall i, j :: 0 <= i < j < |es| && es[i].Write? && es[j].Write? ==> Retryable(es[i]))
    decreases opts.maxRetries + 1 - retry
  {
    if retry <= opts.maxRetries {
      var r := Iterate(files, pending, media, opts, net, retry);
      IterationShape(files, pending, media, opts, net, retry);
      AtMostOneWrite(r.events);
      if r.again {
        WritesBounded(r.files, r.pending, media, opts, net, retry + 1);
        WritesAppend(r.events, Run(r.files, r.pending, media, opts, net, retry + 1).events);
      }
    }
  }

  /** Every write but the first comes directly after a wait, which comes directly after
      probing the file system; a probe comes first or after a failed write; the commands
      are run at most once, last, and only after a write that returned true or when the file
      was complete to begin with. */
  lemma {:induction false} RetryProtocol(files: Files, pending: bool, media: Media, opts: Options,
                                         net: Transport, retry: nat)
    ensures AllInPlace(Run(files, pending, media, opts, net, retry).events, retry, opts)
    decreases opts.maxRetries + 1 - retry
  {
    if retry <= opts.maxRetries {
      var r := Iterate(files, pending, media, opts, net, retry);
      var rest := Run(r.files, r.pending, media, opts, net, retry + 1).events;
      RetryProtocol(r.files, r.pending, media, opts, net, retry + 1);
      ProtocolStep(files, pending, media, opts, net, retry, rest);
    }
  }

  lemma ProtocolStep(files: Files, pending: bool, media: Media, opts: Options, net: Transport,
                     retry: nat, rest: seq<Event>)
    requires AllInPlace(rest, retry + 1, opts)
    ensures var r := Iterate(files, pending, media, opts, net, retry);
      AllInPlace(r.events, retry, opts) && (r.again ==> AllInPlace(r.events + rest, retry, opts))
  {
    var r := Iterate(files, pending, media, opts, net, retry);
    IterationInPlace(files, pending, media, opts, net, retry);
    if r.again {
      AgainAfterWrite(files, pending, media, opts, net, retry);
      InPlaceAcross(r.events, rest, retry, opts);
    }
  }

  lemma AgainAfterWrite(files: Files, pending: bool, media: Media, opts: Options, net: Transport, retry: nat)
    requires Iterate(files, pending, media, opts, net, retry).again
    ensures var es := Iterate(files, pending, media, opts, net, retry).events;
      es != [] && es[|es| - 1].Write? && es[|es| - 1].outcome == Returned(false)
  {
  }

  /** What the way a run ends says about it: the retries are used up only after all of them
      were made; it stops after a write that returned true, unless nothing was to be
      written; and the commands are run exactly in these cases, never after an error. */
  predicate EndFits(es: seq<Event>, end: End, opts: Options, retry: nat) {
    match end
    case RetriesUsedUp =>
      && (retry <= opts.maxRetries + 1 ==> Writes(es) == opts.maxRetries + 1 - retry)
      && (es != [] ==> es[|es| - 1].Write?)
    case Stopped =>
      && es != []
      && (!opts.noDownload ==>
            var i := if opts.exec then |es| - 2 else |es| - 1;
            i >= 0 && es[i].Write? && es[i].outcome == Returned(true)
            && (opts.exec ==> es[|es| - 1] == Exec(es[i].target.path)))
      && (opts.noDownload ==> Writes(es) == 0 && !es[|es| - 1].Exec?)
    case ThrewNothingTodo =>
      && es != []
      && var i := if opts.exec then |es| - 2 else |es| - 1;
      && i >= 0 && es[i].Probe? && es[i].loc.nothingTodo
      && (opts.exec ==> es[|es| - 1] == Exec(es[i].loc.path))
    case ThrewError =>
      es != [] && es[|es| - 1].Write? && !es[|es| - 1].outcome.Returned?
  }

  lemma WritesOfThree(a: Event, b: Event, c: Event)
    ensures Writes([a]) == (if a.Write? then 1 else 0)
    ensures Writes([a, b]) == Writes([a]) + Writes([b])
    ensures Writes([a, b, c]) == Writes([a]) + Writes([b]) + Writes([c])
  {
  }

  lemma WrittenEndFits(loc: Location, w: Event, opts: Options, retry: nat)
    requires w.Write? && w.target == loc && !opts.noDownload
    ensures var head := if retry > 0 then [Probe(loc), Wait(opts.retryWait)] else [Probe(loc)];
      && Writes(head) == 0 && Writes(head + [w]) == 1
      && (w.outcome == Returned(true) ==> EndFits(head + [w] + Execs(opts, loc.path), Stopped, opts, retry))
      && (!w.outcome.Returned? ==> EndFits(head + [w], ThrewError, opts, retry))
  {
    var head := if retry > 0 then [Probe(loc), Wait(opts.retryWait)] else [Probe(loc)];
    WritesOfThree(Probe(loc), Wait(opts.retryWait), w);
    WritesAppend(head, [w]);
    WritesOfThree(w, w, w);
  }

  lemma UnwrittenEndFits(loc: Location, opts: Options, retry: nat)
    ensures var head := if retry > 0 then [Probe(loc), Wait(opts.retryWait)] else [Probe(loc)];
      && (loc.nothingTodo ==> EndFits([Probe(loc)] + Execs(opts, loc.path), ThrewNothingTodo, opts, retry))
      && (opts.noDownload ==> EndFits(head, Stopped, opts, retry))
  {
    WritesOfThree(Probe(loc), Wait(opts.retryWait), Probe(loc));
  }

  lemma IterationEndFits(files: Files, pending: bool, media: Media, opts: Options, net: Transport, retry: nat)
    requires retry <= opts.maxRetries
    ensures var r := Iterate(files, pending, media, opts, net, retry);
      && (!r.again ==> EndFits(r.events, r.end, opts, retry))
      && (r.again ==> r.events != [] && r.events[|r.events| - 1].Write?
                      && Writes(r.events) == 1 && !opts.noDownload)
  {
    var loc := Locate(files, media, opts);
    if GetsToWrite(files, media, opts) {
      WrittenEndFits(loc, WriteOf(files, pending, media, opts, net, retry), opts, retry);
    } else {
      UnwrittenEndFits(loc, opts, retry);
    }
  }

  lemma EndFitsBehind(a: seq<Event>, b: seq<Event>, end: End, opts: Options, retry: nat)
    requires EndFits(b, end, opts, retry + 1) && retry <= opts.maxRetries
    requires a != [] && a[|a| - 1].Write? && Writes(a) == 1 && !opts.noDownload
    ensures EndFits(a + b, end, opts, retry)
  {
    WritesAppend(a, b);
  }

  /** Every run ends as it should. */
  lemma {:induction false} RunEndFits(files: Files, pending: bool, media: Media, opts: Options,
                                      net: Transport, retry: nat)
    ensures var r := Run(files, pending, media, opts, net, retry);
      EndFits(r.events, r.end, opts, retry)
    decreases opts.maxRetries + 1 - retry
  {
    if retry <= opts.maxRetries {
      var r := Iterate(files, pending, media, opts, net, retry);
      IterationEndFits(files, pending, media, opts, net, retry);
      if r.again {
        var rest := Run(r.files, r.pending, media, opts, net, retry + 1);
        RunEndFits(r.files, r.pending, media, opts, net, retry + 1);
        EndFitsBehind(r.events, rest.events, rest.end, opts, retry);
      }
    }
  }

  // ----- Which writes are retried

  /** The transfer failed, but neither in opening the file nor by an abort, and the response
      is none that ends the run. A failing write is told from one that libcurl reports by the
      plan only. */
  predicate Lost(e: Event)
    requires e.Write?
  {
    && e.outcome != OpenFailed && !(400 <= e.resp <= 500)
    && e.rc != CURLE_ABORTED_BY_CALLBACK && e.rc != CURLE_WRITE_ERROR
    && !(e.rc == CURLE_OK && (e.resp == 200 || e.resp == 206))
  }

  /** What comes after event i. */
  predicate Continues(es: seq<Event>, i: nat, end: End)
    requires i < |es|
  {
    es[i].Write? ==>
      && (Lost(es[i]) ==> es[i].outcome == Returned(false))
      && (es[i].outcome == Returned(false) ==> if i + 1 < |es| then es[i + 1].Probe? else end == RetriesUsedUp)
      && (es[i].outcome == OpenFailed || es[i].outcome == HttpError ==> i + 1 == |es| && end == ThrewError)
  }

  predicate AllContinue(es: seq<Event>, end: End) {
    forall i :: 0 <= i < |es| ==> Continues(es, i, end)
  }

  lemma IterationContinues(files: Files, pending: bool, media: Media, opts: Options, net: Transport, retry: nat)
    ensures var r := Iterate(files, pending, media, opts, net, retry);
      AllContinue(r.events, if r.again then RetriesUsedUp else r.end)
  {
    var loc, w := Locate(files, media, opts), WriteOf(files, pending, media, opts, net, retry);
    OutcomeIff(files, pending, loc, opts.overwrite, net(retry, loc.offset));
    assert Lost(w) ==> w.outcome == Returned(false);
    HeadContinues(loc, w, opts, retry);
  }

  lemma HeadContinues(loc: Location, w: Event, opts: Options, retry: nat)
    requires w.Write? && (Lost(w) ==> w.outcome == Returned(false))
    ensures AllContinue([Probe(loc)] + Execs(opts, loc.path), ThrewNothingTodo)
    ensures var head := if retry > 0 then [Probe(loc), Wait(opts.retryWait)] else [Probe(loc)];
      && AllContinue(head, Stopped)
      && (w.outcome == Returned(true) ==> AllContinue(head + [w] + Execs(opts, loc.path), Stopped))
      && (w.outcome == Returned(false) ==> AllContinue(head + [w], RetriesUsedUp))
      && (!w.outcome.Returned? ==> AllContinue(head + [w], ThrewError))
  {
  }

  lemma ContinueAcross(a: seq<Event>, b: seq<Event>, end: End)
    requires AllContinue(a, RetriesUsedUp) && AllContinue(b, end)
    requires if b == [] then end == RetriesUsedUp else b[0].Probe?
    ensures AllContinue(a + b, end)
  {
    var es := a + b;
    forall i | 0 <= i < |es| ensures Continues(es, i, end) {
      if i < |a| {
        assert Continues(a, i, RetriesUsedUp);
      } else {
        assert Continues(b, i - |a|, end);
      }
    }
  }

  /** A write that returned false, as every write of a lost transfer does, is followed by
      another probe unless the retries are used up; one that throws ends the run. */
  lemma {:induction false} RetriedUnlessUsedUp(files: Files, pending: bool, media: Media, opts: Options,
                                               net: Transport, retry: nat)
    ensures var r := Run(files, pending, media, opts, net, retry);
      AllContinue(r.events, r.end)
    decreases opts.maxRetries + 1 - retry
  {
    if retry <= opts.maxRetries {
      var r := Iterate(files, pending, media, opts, net, retry);
      IterationContinues(files, pending, media, opts, net, retry);
      if r.again {
        var rest := Run(r.files, r.pending, media, opts, net, retry + 1);
        RetriedUnlessUsedUp(r.files, r.pending, media, opts, net, retry + 1);
        RetryProtocol(r.files, r.pending, media, opts, net, retry + 1);
        RunEndFits(r.files, r.pending, media, opts, net, retry + 1);
        ContinueAcross(r.events, rest.events, rest.end);
      }
    }
  }

  /** While retries are left, a lost transfer is followed by another probe. */
  lemma LostIsRetried(files: Files, pending: bool, media: Media, opts: Options, net: Transport, i: nat)
    requires opts.maxRetries >= 0
    requires var es := Run(files, pending, media, opts, net, 0).events;
      i < |es| && es[i].Write? && (Lost(es[i]) || es[i].outcome == Returned(false))
      && Writes(es[..i + 1]) <= opts.maxRetries
    ensures var es := Run(files, pending, media, opts, net, 0).events;
      i + 1 < |es| && es[i + 1].Probe?
  {
    var r := Run(files, pending, media, opts, net, 0);
    RetriedUnlessUsedUp(files, pending, media, opts, net, 0);
    RunEndFits(files, pending, media, opts, net, 0);
    assert Continues(r.events, i, r.end);
    assert r.events[..|r.events|] == r.events;
  }

  // ----- The signal flag

  /** A flag that is set when a run begins is still set at its end unless a transfer of the
      run is aborted; a run that begins with a clear flag leaves it clear. */
  lemma {:induction false} FlagOutlivesRun(files: Files, pending: bool, media: Media, opts: Options,
                                           net: Transport, retry: nat)
    ensures var r := Run(files, pending, media, opts, net, retry);
      && (r.pending ==> pending)
      && (pending && !r.pending ==> exists e :: e in r.events && e.Write? && e.rc == CURLE_ABORTED_BY_CALLBACK)
    decreases opts.maxRetries + 1 - retry
  {
    if retry <= opts.maxRetries {
      var r, w := Iterate(files, pending, media, opts, net, retry),
                  WriteOf(files, pending, media, opts, net, retry);
      var loc := Locate(files, media, opts);
      AttemptFlagIff(files, pending, loc, opts.overwrite, net(retry, loc.offset));
      if pending && !r.pending {
        assert w in r.events;
      }
      if r.again {
        FlagOutlivesRun(r.files, r.pending, media, opts, net, retry + 1);
      }
    }
  }

  // ----- The disk from event to event

  /** Every probe says what holds for the disk at that time, and every write starts from it
      and goes where the probe says. */
  predicate Continuous(files: Files, es: seq<Event>, media: Media, opts: Options)
    decreases |es|
  {
    es == [] ||
    match es[0]
    case Probe(loc) => loc == Locate(files, media, opts) && Continuous(files, es[1..], media, opts)
    case Write(target, before, after, _, _, _) =>
      target == Locate(files, media, opts) && before == files && Continuous(after, es[1..], media, opts)
    case _ => Continuous(files, es[1..], media, opts)
  }

  /** The disk that the last write leaves. */
  function DiskAfter(files: Files, es: seq<Event>): Files
    decreases |es|
  {
    if es == [] then files else DiskAfter(if es[0].Write? then es[0].after else files, es[1..])
  }

  lemma {:induction false} ContinuousAppend(files: Files, a: seq<Event>, b: seq<Event>, media: Media, opts: Options)
    requires Continuous(files, a, media, opts) && Continuous(DiskAfter(files, a), b, media, opts)
    ensures Continuous(files, a + b, media, opts)
    ensures DiskAfter(files, a + b) == DiskAfter(DiskAfter(files, a), b)
    decreases |a|
  {
    if a == [] {
      assert a + b == b;
    } else {
      assert (a + b)[1..] == a[1..] + b;
      ContinuousAppend(if a[0].Write? then a[0].after else files, a[1..], b, media, opts);
    }
  }

  lemma IterationIsContinuous(files: Files, pending: bool, media: Media, opts: Options, net: Transport, retry: nat)
    ensures var r := Iterate(files, pending, media, opts, net, retry);
      Continuous(files, r.events, media, opts) && DiskAfter(files, r.events) == r.files
  {
    var loc, w := Locate(files, media, opts), WriteOf(files, pending, media, opts, net, retry);
    var head := if retry > 0 then [Probe(loc), Wait(opts.retryWait)] else [Probe(loc)];
    ProbeIsContinuous(files, head, media, opts);
    ProbeIsContinuous(files, [Probe(loc)] + Execs(opts, loc.path), media, opts);
    AttemptIsContinuous(files, head, w, [], media, opts);
    AttemptIsContinuous(files, head, w, Execs(opts, loc.path), media, opts);
    assert head + [w] + [] == head + [w];
  }

  lemma AttemptIsContinuous(files: Files, head: seq<Event>, w: Event, tail: seq<Event>, media: Media, opts: Options)
    requires Continuous(files, head, media, opts) && DiskAfter(files, head) == files
    requires w.Write? && w.target == Locate(files, media, opts) && w.before == files && Silent(tail)
    ensures Continuous(files, head + [w] + tail, media, opts) && DiskAfter(files, head + [w] + tail) == w.after
  {
    WriteIsContinuous(files, w, tail, media, opts);
    ContinuousAppend(files, head, [w] + tail, media, opts);
    Assoc(head, [w], tail);
  }

  predicate Silent(es: seq<Event>) {
    |es| <= 1 && forall e :: e in es ==> e.Wait? || e.Exec?
  }

  lemma SilentIsContinuous(files: Files, es: seq<Event>, media: Media, opts: Options)
    requires Silent(es)
    ensures Continuous(files, es, media, opts) && DiskAfter(files, es) == files
  {
    if es != [] {
      assert es[0] in es && es[1..] == [];
    }
  }

  lemma ProbeIsContinuous(files: Files, es: seq<Event>, media: Media, opts: Options)
    requires es != [] && es[0] == Probe(Locate(files, media, opts)) && Silent(es[1..])
    ensures Continuous(files, es, media, opts) && DiskAfter(files, es) == files
  {
    SilentIsContinuous(files, es[1..], media, opts);
  }

  lemma WriteIsContinuous(files: Files, w: Event, es: seq<Event>, media: Media, opts: Options)
    requires w.Write? && w.target == Locate(files, media, opts) && w.before == files && Silent(es)
    ensures Continuous(files, [w] + es, media, opts) && DiskAfter(files, [w] + es) == w.after
  {
    assert ([w] + es)[1..] == es;
    SilentIsContinuous(w.after, es, media, opts);
  }

  /** The log of a run accounts for the disk, from its beginning to its end. */
  lemma {:induction false} RunIsContinuous(files: Files, pending: bool, media: Media, opts: Options,
                                           net: Transport, retry: nat)
    ensures var r := Run(files, pending, media, opts, net, retry);
      Continuous(files, r.events, media, opts) && DiskAfter(files, r.events) == r.files
    decreases opts.maxRetries + 1 - retry
  {
    if retry <= opts.maxRetries {
      var r := Iterate(files, pending, media, opts, net, retry);
      IterationIsContinuous(files, pending, media, opts, net, retry);
      if r.again {
        RunIsContinuous(r.files, r.pending, media, opts, net, retry + 1);
        ContinuousAppend(files, r.events, Run(r.files, r.pending, media, opts, net, retry + 1).events, media, opts);
      }
    }
  }
}
