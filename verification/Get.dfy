/** The retry loop of cc::get: a run, its log of events, and the methods that perform it. */
module Get {
  import opened Target
  import opened Transfer
  import opened File

  /** The outside world: what happens in attempt n when it asks for offset. */
  type Transport = (nat, nat) -> Plan

  /** What a run does, in order. A write records the disk before and after it. */
  datatype Event =
    | Probe(loc: Location)
    | Wait(seconds: int)
    | Write(target: Location, before: Files, after: Files, rc: int, resp: int, outcome: Outcome)
    | Exec(path: string)

  /** How get ends: normally, or by throwing. */
  datatype End = Stopped | RetriesUsedUp | ThrewNothingTodo | ThrewError

  datatype Result = Result(files: Files, pending: bool, events: seq<Event>, end: End)

  function Execs(opts: Options, path: string): seq<Event> {
    if opts.exec then [Exec(path)] else []
  }

  function Prepend(head: seq<Event>, r: Result): Result {
    r.(events := head + r.events)
  }

  /** One iteration of the loop: the world after it, and whether another one follows. */
  datatype Round = Round(files: Files, pending: bool, events: seq<Event>, again: bool, end: End)

  function AttemptOf(files: Files, pending: bool, media: Media, opts: Options, net: Transport, retry: nat): Attempt {
    var loc := Locate(files, media, opts);
    Try(files, pending, loc, opts.overwrite, net(retry, loc.offset))
  }

  /** The write of an iteration that gets as far as writing. */
  function WriteOf(files: Files, pending: bool, media: Media, opts: Options, net: Transport, retry: nat): (w: Event)
    ensures w.Write?
  {
    var loc := Locate(files, media, opts);
    var a := AttemptOf(files, pending, media, opts, net, retry);
    Write(loc, files, a.files, a.rc, net(retry, loc.offset).resp, a.outcome)
  }

  function Iterate(files: Files, pending: bool, media: Media, opts: Options, net: Transport, retry: nat): Round {
    var loc := Locate(files, media, opts);
    if loc.nothingTodo then
      Round(files, pending, [Probe(loc)] + Execs(opts, loc.path), false, ThrewNothingTodo)
    else
      var head := if retry > 0 then [Probe(loc), Wait(opts.retryWait)] else [Probe(loc)];
      if opts.noDownload then Round(files, pending, head, false, Stopped)
      else
        var w := WriteOf(files, pending, media, opts, net, retry);
        var flag := AttemptOf(files, pending, media, opts, net, retry).pending;
        match w.outcome
        case Returned(true) => Round(w.after, flag, head + [w] + Execs(opts, loc.path), false, Stopped)
        case Returned(false) => Round(w.after, flag, head + [w], true, RetriesUsedUp)
        case _ => Round(w.after, flag, head + [w], false, ThrewError)
  }

  /** The loop from iteration retry on. */
  function Run(files: Files, pending: bool, media: Media, opts: Options, net: Transport, retry: nat): Result
    decreases opts.maxRetries + 1 - retry
  {
    if retry > opts.maxRetries then Result(files, pending, [], RetriesUsedUp)
    else
      var r := Iterate(files, pending, media, opts, net, retry);
      if r.again
      then Prepend(r.events, Run(r.files, r.pending, media, opts, net, retry + 1))
      else Result(r.files, r.pending, r.events, r.end)
  }

  /** The body of the loop: builds a cc::file, writes it, runs the --exec commands. */
  method GetOnce(media: Media, opts: Options, net: Transport, disk: Disk, flags: Flags, retry: nat)
    returns (events: seq<Event>, again: bool, end: End)
    modifies disk, flags
    ensures Round(disk.files, flags.recvSigusr1, events, again, end)
         == Iterate(old(disk.files), old(flags.recvSigusr1), media, opts, net, retry)
  {
    ghost var r := Iterate(disk.files, flags.recvSigusr1, media, opts, net, retry);
    ghost var w := WriteOf(disk.files, flags.recvSigusr1, media, opts, net, retry);
    var file := new MediaFile(media, opts, disk);
    var loc := Location(file.path, file.initialLength, file.nothingTodo);
    events := [Probe(loc)];
    if file.nothingTodo {
      if opts.exec {
        events := events + [Exec(file.path)];
      }
      assert events == r.events;
      return events, false, ThrewNothingTodo;
    }
    if retry > 0 {
      events := events + [Wait(opts.retryWait)];
    }
    if opts.noDownload {
      return events, false, Stopped;
    }
    var before := disk.files;
    var plan := net(retry, file.initialLength);
    var outcome, rc := file.Write(opts, disk, flags, plan);
    events := events + [Write(loc, before, disk.files, rc, plan.resp, outcome)];
    assert Write(loc, before, disk.files, rc, plan.resp, outcome) == w;
    if outcome == Returned(false) {
      return events, true, RetriesUsedUp;
    }
    if outcome != Returned(true) {
      return events, false, ThrewError;
    }
    if opts.exec {
      events := events + [Exec(file.path)];
    }
    assert events == r.events;
    return events, false, Stopped;
  }

  /** cc::get. The retry counter is a C int, which must not overflow. */
  method GetMedia(media: Media, opts: Options, net: Transport, disk: Disk, flags: Flags)
    returns (events: seq<Event>, end: End)
    requires opts.maxRetries < INT_MAX
    modifies disk, flags
    ensures Result(disk.files, flags.recvSigusr1, events, end)
         == Run(old(disk.files), old(flags.recvSigusr1), media, opts, net, 0)
  {
    ghost var total := Run(disk.files, flags.recvSigusr1, media, opts, net, 0);
    var retry := 0;
    events := [];
    while retry <= opts.maxRetries
      invariant 0 <= retry <= INT_MAX
      invariant total == Prepend(events, Run(disk.files, flags.recvSigusr1, media, opts, net, retry))
      decreases opts.maxRetries + 1 - retry
    {
      ghost var files, pending := disk.files, flags.recvSigusr1;
      var log, again, how := GetOnce(media, opts, net, disk, flags, retry);
      RunStep(events, files, pending, media, opts, net, retry,
              Round(disk.files, flags.recvSigusr1, log, again, how));
      retry := retry + 1;
      events := events + log;
      if !again {
        return events, how;
      }
    }
    return events, RetriesUsedUp;
  }

  lemma RunStep(sofar: seq<Event>, files: Files, pending: bool, media: Media, opts: Options,
                net: Transport, retry: nat, r: Round)
    requires retry <= opts.maxRetries
    requires r == Iterate(files, pending, media, opts, net, retry)
    ensures Prepend(sofar, Run(files, pending, media, opts, net, retry))
         == if r.again
            then Prepend(sofar + r.events, Run(r.files, r.pending, media, opts, net, retry + 1))
            else Result(r.files, r.pending, sofar + r.events, r.end)
  {
  }
}
