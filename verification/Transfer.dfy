/** One download attempt: opening the target, the write and progress callbacks, and what
    cc::file::write makes of the outcome. */
module Transfer {
  import opened Common
  import opened Target

  /** What libcurl calls back with, in order. A chunk says how much of it the stream
      manages to store and whether the stream then reports success; a progress call says
      whether SIGUSR1 was received since the last one. */
  datatype Step =
    | Chunk(data: seq<Byte>, kept: nat, ok: bool)
    | Progress(signalled: bool)

  /** The behaviour of the outside world during one attempt. The curl code rc counts only
      when no callback stops the transfer. */
  datatype Plan = Plan(openFails: bool, steps: seq<Step>, rc: int, resp: int)

  const CURLE_OK := 0
  const CURLE_WRITE_ERROR := 23
  const CURLE_ABORTED_BY_CALLBACK := 42

  /** An output stream: the file's bytes and the sticky failure bit. */
  datatype Stream = Stream(content: seq<Byte>, failed: bool)

  datatype Stop = Running | ShortWrite | Aborted

  datatype Xfer = Xfer(stream: Stream, pending: bool, stop: Stop)

  datatype Outcome = OpenFailed | HttpError | Returned(ok: bool)

  // ----- open_file

  datatype Mode = Truncate | Append | Default

  function OpenMode(overwrite: bool, offset: nat): Mode {
    if overwrite then Truncate else if offset > 0 then Append else Default
  }

  /** The file once opened. An ofstream that is neither appending nor truncating still
      empties the file. */
  function Opened(files: Files, path: string, mode: Mode): seq<Byte> {
    if mode == Append && path in files then files[path] else []
  }

  // ----- The callbacks

  /** The stream after write_cb. Once failed, a stream stores nothing more. */
  function Written(s: Stream, data: seq<Byte>, kept: nat, ok: bool): Stream {
    if s.failed then s
    else if ok then Stream(s.content + data, false)
    else Stream(s.content + data[..Min(kept, |data|)], true)
  }

  /** The transfer after one more callback. A write callback that fails on an empty chunk
      returns 0, which libcurl cannot tell from success. */
  function After(x: Xfer, step: Step): Xfer {
    match step
    case Chunk(data, kept, ok) =>
      var s := Written(x.stream, data, kept, ok);
      Xfer(s, x.pending, if s.failed && data != [] then ShortWrite else Running)
    case Progress(signalled) =>
      Xfer(x.stream, false, if x.pending || signalled then Aborted else Running)
  }

  /** The transfer after the callbacks for steps, up to one that stops it. */
  function Perform(x: Xfer, steps: seq<Step>): Xfer
    decreases |steps|
  {
    if steps == [] || x.stop != Running then x
    else Perform(After(x, steps[0]), steps[1..])
  }

  /** CURLcode of curl_easy_perform. */
  function CurlCode(stop: Stop, rc: int): int {
    match stop
    case Running => rc
    case ShortWrite => CURLE_WRITE_ERROR
    case Aborted => CURLE_ABORTED_BY_CALLBACK
  }

  /** Whether file::write has an error text; the one of a write error is set by write_cb. */
  predicate HasError(rc: int, resp: int, errmsgSet: bool) {
    if rc == CURLE_OK then resp != 200 && resp != 206
    else if rc == CURLE_WRITE_ERROR then errmsgSet
    else true
  }

  /** The end of file::write together with progressbar::print_error. */
  function Verdict(rc: int, resp: int, errmsgSet: bool): Outcome {
    if !HasError(rc, resp, errmsgSet) then Returned(true)
    else if 400 <= resp <= 500 then HttpError
    else Returned(rc == CURLE_ABORTED_BY_CALLBACK)
  }

  /** One call of file::write: files and signal flag afterwards, the curl code, the outcome. */
  datatype Attempt = Attempt(files: Files, pending: bool, rc: int, outcome: Outcome)

  function StartOf(files: Files, pending: bool, loc: Location, overwrite: bool): Xfer {
    Xfer(Stream(Opened(files, loc.path, OpenMode(overwrite, loc.offset)), false), pending, Running)
  }

  function Try(files: Files, pending: bool, loc: Location, overwrite: bool, plan: Plan): Attempt {
    if plan.openFails then Attempt(files, pending, CURLE_OK, OpenFailed)
    else
      var x := Perform(StartOf(files, pending, loc, overwrite), plan.steps);
      var rc := CurlCode(x.stop, plan.rc);
      Attempt(files[loc.path := x.stream.content], x.pending, rc,
              Verdict(rc, plan.resp, x.stream.failed))
  }

  // ----- Assumptions about the transport

  /** All bytes handed to write_cb, if no callback stops the transfer. */
  function Delivered(steps: seq<Step>): seq<Byte>
    decreases |steps|
  {
    if steps == [] then []
    else (if steps[0].Chunk? then steps[0].data else []) + Delivered(steps[1..])
  }

  function From(bytes: seq<Byte>, offset: nat): seq<Byte> {
    if offset <= |bytes| then bytes[offset..] else []
  }

  /** The server answers the range request: the bytes are consecutive and start at the
      requested offset; a 200 or 206 that libcurl is content with is the whole rest. */
  predicate Honest(plan: Plan, bytes: seq<Byte>, offset: nat) {
    && Delivered(plan.steps) <= From(bytes, offset)
    && (plan.rc == CURLE_OK && (plan.resp == 200 || plan.resp == 206)
        ==> Delivered(plan.steps) == From(bytes, offset))
  }

  // ----- Properties of one attempt

  /** The bytes that reach the file: chunk after chunk, up to the first one that the stream
      does not take or the first progress call that aborts. */
  function Stored(failed: bool, pending: bool, steps: seq<Step>): seq<Byte>
    decreases |steps|
  {
    if failed || steps == [] then []
    else match steps[0]
      case Chunk(data, kept, ok) =>
        if ok then data + Stored(false, pending, steps[1..]) else data[..Min(kept, |data|)]
      case Progress(signalled) =>
        if pending || signalled then [] else Stored(false, false, steps[1..])
  }

  /** The transfer adds exactly these bytes to the file. */
  lemma {:induction false} PerformStores(x: Xfer, steps: seq<Step>)
    requires x.stop == Running
    ensures Perform(x, steps).stream.content
         == x.stream.content + Stored(x.stream.failed, x.pending, steps)
    decreases |steps|
  {
    if x.stream.failed {
      FailedStoresNothing(x, steps);
    } else if steps != [] {
      var y := After(x, steps[0]);
      if y.stream.failed {
        FailedStoresNothing(y, steps[1..]);
      } else if y.stop == Running {
        PerformStores(y, steps[1..]);
        if steps[0].Chunk? {
          Assoc(x.stream.content, steps[0].data, Stored(false, x.pending, steps[1..]));
        }
      }
    }
  }

  /** What is stored is a prefix of what is delivered; all of it when no callback stops the
      transfer, even if the stream failed on an empty chunk. */
  lemma {:induction false} StoredIsDelivered(x: Xfer, steps: seq<Step>)
    requires x.stop == Running && !x.stream.failed
    ensures Stored(false, x.pending, steps) <= Delivered(steps)
    ensures Perform(x, steps).stop == Running ==> Stored(false, x.pending, steps) == Delivered(steps)
    decreases |steps|
  {
    if steps != [] {
      var y := After(x, steps[0]);
      assert Perform(x, steps) == Perform(y, steps[1..]);
      assert Delivered(steps) == (if steps[0].Chunk? then steps[0].data else []) + Delivered(steps[1..]);
      if y.stream.failed {
        FailedStoresNothing(y, steps[1..]);
      } else if y.stop == Running {
        StoredIsDelivered(y, steps[1..]);
      }
    }
  }

  /** The failure bit is sticky, and a failed stream's file no longer changes. */
  lemma {:induction false} FailedStoresNothing(x: Xfer, steps: seq<Step>)
    requires x.stream.failed
    ensures Perform(x, steps).stream == x.stream
    ensures Perform(x, steps).stop == Running ==> x.stop == Running && Delivered(steps) == []
    decreases |steps|
  {
    if steps != [] && x.stop == Running {
      FailedStoresNothing(After(x, steps[0]), steps[1..]);
    }
  }

  predicate IsPrefixOf(files: Files, path: string, bytes: seq<Byte>) {
    path in files ==> files[path] <= bytes
  }

  /** The offset asked for is where writing continues. */
  predicate Aligned(files: Files, loc: Location, overwrite: bool) {
    loc.offset == if overwrite then 0 else SizeOf(files, loc.path)
  }

  /** Writing continues at the requested offset, whichever mode the file is opened in. */
  lemma OpensAtOffset(files: Files, pending: bool, loc: Location, overwrite: bool)
    requires Aligned(files, loc, overwrite)
    ensures |StartOf(files, pending, loc, overwrite).stream.content| == loc.offset
    ensures !overwrite && loc.path in files
        ==> StartOf(files, pending, loc, overwrite).stream.content == files[loc.path]
  {
  }

  lemma ExtendsPrefix(bytes: seq<Byte>, offset: nat, stored: seq<Byte>)
    requires offset <= |bytes|
    ensures bytes[..offset] + stored <= bytes <==> stored <= bytes[offset..]
    ensures stored == bytes[offset..] ==> bytes[..offset] + stored == bytes
  {
  }

  /** One attempt keeps the target a prefix of the media, never shortens it unless told to
      overwrite, touches no other file, and leaves the media complete after a 200 or 206. */
  lemma AttemptIsSafe(files: Files, pending: bool, media: Media, loc: Location,
                      overwrite: bool, plan: Plan)
    requires Aligned(files, loc, overwrite)
    requires overwrite || IsPrefixOf(files, loc.path, media.bytes)
    requires Honest(plan, media.bytes, loc.offset)
    ensures var a := Try(files, pending, loc, overwrite, plan);
      && (!(overwrite && plan.openFails) ==> IsPrefixOf(a.files, loc.path, media.bytes))
      && (!overwrite ==> SizeOf(a.files, loc.path) >= SizeOf(files, loc.path))
      && a.files - {loc.path} == files - {loc.path}
      && (a.outcome == Returned(true) && a.rc == CURLE_OK
          ==> loc.path in a.files && a.files[loc.path] == media.bytes)
  {
    if !plan.openFails {
      var x := StartOf(files, pending, loc, overwrite);
      OpensAtOffset(files, pending, loc, overwrite);
      assert x.stream.content == media.bytes[..loc.offset];
      PerformStores(x, plan.steps);
      StoredIsDelivered(x, plan.steps);
      ExtendsPrefix(media.bytes, loc.offset, Stored(false, pending, plan.steps));
    }
  }

  /** The code itself never looks at what the server sends: the target stays a prefix of
      the media exactly when the bytes that were stored belong behind the offset, however
      the transfer ends. */
  lemma StaysPrefixIff(files: Files, pending: bool, media: Media, loc: Location,
                       overwrite: bool, plan: Plan)
    requires Aligned(files, loc, overwrite)
    requires overwrite || IsPrefixOf(files, loc.path, media.bytes)
    requires !plan.openFails
    ensures IsPrefixOf(Try(files, pending, loc, overwrite, plan).files, loc.path, media.bytes)
       <==> Stored(false, pending, plan.steps) <= From(media.bytes, loc.offset)
  {
    var x := StartOf(files, pending, loc, overwrite);
    OpensAtOffset(files, pending, loc, overwrite);
    PerformStores(x, plan.steps);
    assert x.stream.content == media.bytes[..loc.offset];
    ExtendsPrefix(media.bytes, loc.offset, Stored(false, pending, plan.steps));
  }

  predicate AllTaken(steps: seq<Step>) {
    forall c :: c in steps && c.Chunk? ==> c.ok
  }

  /** The attempt succeeds, or passes for a success. Two of the cases are none: an abort, and
      a write error that is not write_cb's but libcurl's own, for which there is no error text
      unless the stream failed on an empty chunk. */
  predicate Succeeds(plan: Plan, stop: Stop) {
    match stop
    case ShortWrite => false
    case Aborted => !(400 <= plan.resp <= 500)
    case Running =>
      if plan.rc == CURLE_OK then plan.resp == 200 || plan.resp == 206
      else if plan.rc == CURLE_WRITE_ERROR then AllTaken(plan.steps)
      else plan.rc == CURLE_ABORTED_BY_CALLBACK && !(400 <= plan.resp <= 500)
  }

  /** Exactly when file::write reports success, throws because of the response, asks for a
      retry, or cannot open the file. */
  lemma OutcomeIff(files: Files, pending: bool, loc: Location, overwrite: bool, plan: Plan)
    ensures var outcome := Try(files, pending, loc, overwrite, plan).outcome;
      var success := Succeeds(plan, Perform(StartOf(files, pending, loc, overwrite), plan.steps).stop);
      && (outcome == OpenFailed <==> plan.openFails)
      && (outcome == Returned(true) <==> !plan.openFails && success)
      && (outcome == HttpError <==> !plan.openFails && !success && 400 <= plan.resp <= 500)
      && (outcome == Returned(false) <==> !plan.openFails && !success && !(400 <= plan.resp <= 500))
  {
    if !plan.openFails {
      var x := StartOf(files, pending, loc, overwrite);
      ShortWriteMeansFailed(x, plan.steps);
      if Perform(x, plan.steps).stop == Running {
        SoundIff(x, plan.steps);
      }
    }
  }

  /** A file that cannot be opened stays as it is, and so does the signal flag. */
  lemma OpenFailedChangesNothing(files: Files, pending: bool, loc: Location, overwrite: bool, plan: Plan)
    requires Try(files, pending, loc, overwrite, plan).outcome == OpenFailed
    ensures var a := Try(files, pending, loc, overwrite, plan); a.files == files && a.pending == pending
  {
    OutcomeIff(files, pending, loc, overwrite, plan);
  }

  /** The stream survives a transfer that is not stopped exactly if it takes every chunk. */
  lemma {:induction false} SoundIff(x: Xfer, steps: seq<Step>)
    requires !x.stream.failed && Perform(x, steps).stop == Running
    ensures !Perform(x, steps).stream.failed <==> AllTaken(steps)
    decreases |steps|
  {
    if steps != [] {
      var y := After(x, steps[0]);
      assert Perform(x, steps) == Perform(y, steps[1..]);
      assert forall c :: c in steps <==> c == steps[0] || c in steps[1..];
      if y.stream.failed {
        FailedStoresNothing(y, steps[1..]);
      } else {
        SoundIff(y, steps[1..]);
      }
    }
  }

  /** A transfer of a single chunk that the stream takes. */
  lemma OneChunk(x: Xfer, data: seq<Byte>, kept: nat)
    requires x.stop == Running && !x.stream.failed
    ensures Perform(x, [Chunk(data, kept, true)])
         == Xfer(Stream(x.stream.content + data, false), x.pending, Running)
  {
    assert [Chunk(data, kept, true)][1..] == [];
  }

  /** One stored byte, then a write error of libcurl's own in a 503 answer: a success. */
  lemma ForeignWriteErrorSucceeds(path: string)
    ensures var a := Try(map[], false, Location(path, 0, false), false,
                         Plan(false, [Chunk([1], 1, true)], CURLE_WRITE_ERROR, 503));
      a.outcome == Returned(true) && a.files[path] == [1]
  {
    OneChunk(StartOf(map[], false, Location(path, 0, false), false), [1], 1);
  }

  lemma {:induction false} ShortWriteMeansFailed(x: Xfer, steps: seq<Step>)
    requires x.stop == ShortWrite ==> x.stream.failed
    ensures Perform(x, steps).stop == ShortWrite ==> Perform(x, steps).stream.failed
    decreases |steps|
  {
    if steps != [] && x.stop == Running {
      ShortWriteMeansFailed(After(x, steps[0]), steps[1..]);
    }
  }

  /** A set flag is used up by an abort and by nothing else. */
  lemma {:induction false} FlagIff(x: Xfer, steps: seq<Step>)
    requires x.stop == Running
    ensures Perform(x, steps).pending <==> x.pending && Perform(x, steps).stop != Aborted
    decreases |steps|
  {
    if steps != [] {
      var y := After(x, steps[0]);
      assert Perform(x, steps) == Perform(y, steps[1..]);
      if y.stop == Running {
        FlagIff(y, steps[1..]);
      } else {
        assert Perform(y, steps[1..]) == y;
      }
    }
  }

  /** So it outlives an attempt that is not aborted. */
  lemma AttemptFlagIff(files: Files, pending: bool, loc: Location, overwrite: bool, plan: Plan)
    ensures Try(files, pending, loc, overwrite, plan).pending
       <==> pending && (plan.openFails || Perform(StartOf(files, pending, loc, overwrite), plan.steps).stop != Aborted)
  {
    FlagIff(StartOf(files, pending, loc, overwrite), plan.steps);
  }

  // ----- Where a transfer is cut off

  /** No callback for these steps objects. */
  predicate Smooth(pending: bool, steps: seq<Step>) {
    forall c :: c in steps ==> if c.Chunk? then c.ok else !c.signalled && !pending
  }

  /** Callbacks that do not object store everything and leave the flag. */
  lemma {:induction false} SmoothStart(x: Xfer, smooth: seq<Step>, rest: seq<Step>)
    requires x.stop == Running && !x.stream.failed && Smooth(x.pending, smooth)
    ensures Perform(x, smooth + rest)
         == Perform(Xfer(Stream(x.stream.content + Delivered(smooth), false), x.pending, Running), rest)
    decreases |smooth|
  {
    if smooth == [] {
      assert smooth + rest == rest && x.stream.content + [] == x.stream.content;
    } else {
      var c, y := smooth[0], After(x, smooth[0]);
      assert c in smooth && (smooth + rest)[1..] == smooth[1..] + rest;
      SmoothStart(y, smooth[1..], rest);
      var data := if c.Chunk? then c.data else [];
      Assoc(x.stream.content, data, Delivered(smooth[1..]));
      assert y == Xfer(Stream(x.stream.content + data, false), x.pending, Running);
    }
  }

  /** A transfer ends with the first callback that objects: a failing write keeps its part of
      the chunk and stops a transfer that handed over some bytes, a set flag aborts it and is
      used up; what comes behind has no effect. */
  lemma CutOff(x: Xfer, smooth: seq<Step>, last: Step, rest: seq<Step>)
    requires x.stop == Running && !x.stream.failed && Smooth(x.pending, smooth)
    ensures var bytes, y := x.stream.content + Delivered(smooth), Perform(x, smooth + ([last] + rest));
      match last
      case Chunk(data, kept, ok) =>
        && (!ok && data != [] ==>
              y == Xfer(Stream(bytes + data[..Min(kept, |data|)], true), x.pending, ShortWrite))
        && (!ok && data == [] ==> y == Perform(Xfer(Stream(bytes, true), x.pending, Running), rest))
      case Progress(signalled) =>
        x.pending || signalled ==> y == Xfer(Stream(bytes, false), false, Aborted)
    ensures Perform(x, smooth) == Xfer(Stream(x.stream.content + Delivered(smooth), false), x.pending, Running)
  {
    SmoothStart(x, smooth, [last] + rest);
    assert x.stream.content + Delivered(smooth) + [] == x.stream.content + Delivered(smooth);
    assert ([last] + rest)[1..] == rest;
    SmoothStart(x, smooth, []);
    assert smooth + [] == smooth;
  }

  // ----- SIGUSR1

  /** A pending signal aborts the transfer at the next progress call and is used up by it.
      The chunks before it are still stored. */
  lemma {:induction false} PendingAborts(x: Xfer, chunks: seq<Step>, signalled: bool, rest: seq<Step>)
    requires x.stop == Running && (x.pending || signalled)
    requires forall c :: c in chunks ==> c.Chunk?
    ensures var y := Perform(x, chunks + [Progress(signalled)] + rest);
            y.stop == ShortWrite || (y.stop == Aborted && !y.pending)
    decreases |chunks|
  {
    var steps := chunks + [Progress(signalled)] + rest;
    if chunks == [] {
      assert steps[0] == Progress(signalled);
    } else {
      var c := chunks[0];
      assert steps[0] == c;
      assert steps[1..] == chunks[1..] + [Progress(signalled)] + rest;
      var s := Written(x.stream, c.data, c.kept, c.ok);
      if !(s.failed && c.data != []) {
        PendingAborts(Xfer(s, x.pending, Running), chunks[1..], signalled, rest);
      }
    }
  }
}
