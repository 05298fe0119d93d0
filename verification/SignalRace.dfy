/** SIGUSR1 at the level of single memory accesses: the handler may run between the
    callback's test of the flag and its clearing. */
module SignalRace {
  import opened Common
  import opened Transfer

  /** Where the program is: in libcurl, or in progress_cb between test and clear. */
  datatype Place = Elsewhere | Clearing

  /** aborts counts the callbacks that returned 1; absorbed the signals that arrived while
      the flag was set already. */
  datatype State = State(flag: bool, place: Place, received: nat, aborts: nat, absorbed: nat)

  datatype Action = Signal | Test | Clear

  const START := State(false, Elsewhere, 0, 0, 0)

  predicate Enabled(s: State, a: Action) {
    match a
    case Signal => true
    case Test => s.place == Elsewhere
    case Clear => s.place == Clearing
  }

  function Step(s: State, a: Action): State
    requires Enabled(s, a)
  {
    match a
    case Signal => s.(flag := true, received := s.received + 1,
                      absorbed := if s.flag then s.absorbed + 1 else s.absorbed)
    case Test => if s.flag then s.(place := Clearing) else s
    case Clear => s.(flag := false, place := Elsewhere, aborts := s.aborts + 1)
  }

  /** The actions can happen in this order. */
  predicate Possible(s: State, run: seq<Action>)
    decreases |run|
  {
    run == [] || (Enabled(s, run[0]) && Possible(Step(s, run[0]), run[1..]))
  }

  function Run(s: State, run: seq<Action>): State
    requires Possible(s, run)
    decreases |run|
  {
    if run == [] then s else Run(Step(s, run[0]), run[1..])
  }

  /** Every signal has aborted a transfer, is pending, or was absorbed by a pending one. */
  predicate Accounted(s: State) {
    && s.received == s.aborts + s.absorbed + (if s.flag then 1 else 0)
    && (s.place == Clearing ==> s.flag)
  }

  /** In every reachable state the aborts, with one more for a flag that is pending or about
      to be cleared, are no more than the signals; the difference are absorbed signals. */
  lemma {:induction false} SignalsAccounted(s: State, run: seq<Action>)
    requires Accounted(s) && Possible(s, run)
    ensures var t := Run(s, run);
      && Accounted(t)
      && t.aborts + (if t.flag || t.place == Clearing then 1 else 0) <= t.received
    decreases |run|
  {
    if run != [] {
      SignalsAccounted(Step(s, run[0]), run[1..]);
    }
  }

  // ----- Test and clear may be taken as one step

  /** The coarse view, in which a callback tests and clears the flag at once. */
  datatype Atomic = Arrive | Poll

  /** The callback takes effect where it clears, or where it finds nothing to clear. */
  function Coarse(s: State, run: seq<Action>): seq<Atomic>
    requires Possible(s, run)
    decreases |run|
  {
    if run == [] then []
    else
      (match run[0]
       case Signal => [Arrive]
       case Test => if s.flag then [] else [Poll]
       case Clear => [Poll])
      + Coarse(Step(s, run[0]), run[1..])
  }

  /** Flag and number of aborts in the coarse view. */
  function RunCoarse(flag: bool, aborts: nat, run: seq<Atomic>): (bool, nat)
    decreases |run|
  {
    if run == [] then (flag, aborts)
    else match run[0]
      case Arrive => RunCoarse(true, aborts, run[1..])
      case Poll => RunCoarse(false, if flag then aborts + 1 else aborts, run[1..])
  }

  /** Whatever the interleaving, the coarse run with the same signals in the same order has
      the same aborts and leaves the flag the same. */
  lemma {:induction false} AtomicCallbackSuffices(s: State, run: seq<Action>)
    requires Accounted(s) && Possible(s, run)
    ensures var t := Run(s, run);
      RunCoarse(s.flag, s.aborts, Coarse(s, run)) == (t.flag, t.aborts)
    decreases |run|
  {
    if run != [] {
      var u := Step(s, run[0]);
      var rest := Coarse(u, run[1..]);
      AtomicCallbackSuffices(u, run[1..]);
      if run[0] == Test && s.flag {
        assert [] + rest == rest;
      } else {
        var first := if run[0] == Signal then Arrive else Poll;
        assert ([first] + rest)[1..] == rest;
      }
    }
  }

  // ----- A pending signal is acted upon

  function Signals(n: nat): seq<Action> { if n == 0 then [] else [Signal] + Signals(n - 1) }

  /** The state after n signals that find the flag set. */
  function Absorb(s: State, n: nat): State {
    s.(received := s.received + n, absorbed := s.absorbed + n)
  }

  lemma SignalFirst(s: State, run: seq<Action>)
    requires Possible(Step(s, Signal), run)
    ensures Possible(s, [Signal] + run) && Run(s, [Signal] + run) == Run(Step(s, Signal), run)
  {
    assert ([Signal] + run)[1..] == run;
  }

  lemma {:induction false} SignalsThen(s: State, n: nat, rest: seq<Action>)
    requires s.flag && Possible(Absorb(s, n), rest)
    ensures Possible(s, Signals(n) + rest) && Run(s, Signals(n) + rest) == Run(Absorb(s, n), rest)
    decreases n
  {
    if n == 0 {
      assert Signals(0) + rest == rest;
    } else {
      var u := Step(s, Signal);
      assert Absorb(u, n - 1) == Absorb(s, n);
      SignalsThen(u, n - 1, rest);
      SignalFirst(s, Signals(n - 1) + rest);
      assert Signals(n) + rest == [Signal] + (Signals(n - 1) + rest);
    }
  }

  /** Once the flag is set the next callback aborts, and clears the flag, however many
      signals arrive before its test or between test and clear; those are absorbed. */
  lemma NextCallbackAborts(s: State, m: nat, n: nat)
    requires s.flag && s.place == Elsewhere
    ensures var run := Signals(m) + ([Test] + (Signals(n) + [Clear]));
      && Possible(s, run)
      && Run(s, run) == State(false, Elsewhere, s.received + m + n, s.aborts + 1, s.absorbed + m + n)
  {
    var s1 := Absorb(s, m);
    var s2 := s1.(place := Clearing);
    var s3 := Absorb(s2, n);
    assert [Clear][1..] == [];
    assert Run(s3, [Clear]) == Step(s3, Clear);
    SignalsThen(s2, n, [Clear]);
    var tail := [Test] + (Signals(n) + [Clear]);
    assert tail[1..] == Signals(n) + [Clear];
    assert Run(s1, tail) == Run(s2, Signals(n) + [Clear]);
    SignalsThen(s, m, tail);
  }

  /** A signal between test and clear leaves no trace: two signals, one abort, no flag. */
  lemma SignalLost()
    ensures Possible(START, [Signal, Test, Signal, Clear])
    ensures Run(START, [Signal, Test, Signal, Clear]) == State(false, Elsewhere, 2, 1, 1)
  {
  }

  // ----- The link to a transfer

  /** A progress call of a transfer, seen coarsely. */
  function AsAtomic(signalled: bool): seq<Atomic> {
    if signalled then [Arrive, Poll] else [Poll]
  }

  /** The accesses to the flag during a series of callbacks. */
  function Calls(steps: seq<Transfer.Step>): seq<Atomic>
    decreases |steps|
  {
    if steps == [] then []
    else (if steps[0].Progress? then AsAtomic(steps[0].signalled) else []) + Calls(steps[1..])
  }

  /** The number of callbacks made: those up to the first that stops the transfer. */
  function Made(x: Xfer, steps: seq<Transfer.Step>): (n: nat)
    ensures n <= |steps|
    decreases |steps|
  {
    if steps == [] || x.stop != Running then 0
    else 1 + Made(After(x, steps[0]), steps[1..])
  }

  lemma OneCall(pending: bool, aborts: nat, signalled: bool, rest: seq<Atomic>)
    ensures RunCoarse(pending, aborts, AsAtomic(signalled) + rest)
         == RunCoarse(false, if pending || signalled then aborts + 1 else aborts, rest)
  {
    var calls := AsAtomic(signalled) + rest;
    if signalled {
      assert calls[1..] == [Poll] + rest && calls[1..][1..] == rest;
    } else {
      assert calls[1..] == rest;
    }
  }

  /** A transfer treats the flag as the coarse run of its callbacks does: it is aborted
      exactly when that run counts an abort, and the same flag is left. */
  lemma {:induction false} TransferIsCoarseRun(x: Xfer, steps: seq<Transfer.Step>)
    requires x.stop == Running
    ensures var y := Perform(x, steps);
      && (y.stop == Running ==> Made(x, steps) == |steps|)
      && RunCoarse(x.pending, 0, Calls(steps[..Made(x, steps)]))
         == (y.pending, if y.stop == Aborted then 1 else 0)
    decreases |steps|
  {
    if steps != [] {
      var y, n := After(x, steps[0]), Made(x, steps);
      var made := steps[..n];
      assert made[1..] == steps[1..][..n - 1];
      if y.stop == Running {
        TransferIsCoarseRun(y, steps[1..]);
      }
      match steps[0] {
        case Chunk(_, _, _) =>
          assert [] + Calls(made[1..]) == Calls(made[1..]);
        case Progress(signalled) => OneCall(x.pending, 0, signalled, Calls(made[1..]));
      }
    }
  }

  /** Signals that come in a row count as one. */
  function Merged(run: seq<Atomic>): seq<Atomic> {
    if run == [] then []
    else if run[0] == Arrive && |run| > 1 && run[1] == Arrive then Merged(run[1..])
    else [run[0]] + Merged(run[1..])
  }

  lemma {:induction false} MergedIsSame(flag: bool, aborts: nat, run: seq<Atomic>)
    ensures RunCoarse(flag, aborts, Merged(run)) == RunCoarse(flag, aborts, run)
    decreases |run|
  {
    if run != [] {
      var rest := run[1..];
      if run[0] == Arrive && rest != [] && rest[0] == Arrive {
        MergedIsSame(flag, aborts, rest);
        assert RunCoarse(flag, aborts, rest) == RunCoarse(true, aborts, rest[1..]);
      } else {
        assert ([run[0]] + Merged(rest))[1..] == Merged(rest);
        match run[0]
        case Arrive => MergedIsSame(true, aborts, rest);
        case Poll => MergedIsSame(false, if flag then aborts + 1 else aborts, rest);
      }
    }
  }

  /** The signals behind the last callback, as one. */
  function Late(run: seq<Atomic>): seq<Atomic> {
    if run != [] && run[|run| - 1] == Arrive then [Arrive] else []
  }

  lemma {:induction false} LateSetsFlag(flag: bool, aborts: nat, calls: seq<Atomic>, late: seq<Atomic>)
    requires late == [] || late == [Arrive]
    ensures var (f, n) := RunCoarse(flag, aborts, calls);
      RunCoarse(flag, aborts, calls + late) == (f || late != [], n)
    decreases |calls|
  {
    if calls == [] {
      assert [] + late == late && [Arrive][1..] == [];
    } else {
      assert (calls + late)[1..] == calls[1..] + late;
      match calls[0]
      case Arrive => LateSetsFlag(true, aborts, calls[1..], late);
      case Poll => LateSetsFlag(false, if flag then aborts + 1 else aborts, calls[1..], late);
    }
  }

  /** However the handler interleaves with the callbacks of a transfer, between test and
      clear too, the transfer is aborted exactly when one of them clears the flag, and the
      flag left is that of the transfer unless signals come behind the last callback. */
  lemma InterleavedTransfer(x: Xfer, steps: seq<Transfer.Step>, s: State, run: seq<Action>)
    requires x.stop == Running && Accounted(s) && s.flag == x.pending && s.aborts == 0
    requires Possible(s, run)
    requires Merged(Coarse(s, run)) == Calls(steps[..Made(x, steps)]) + Late(Coarse(s, run))
    ensures var t, y := Run(s, run), Perform(x, steps);
      && t.flag == (y.pending || Late(Coarse(s, run)) != [])
      && t.aborts == if y.stop == Aborted then 1 else 0
  {
    AtomicCallbackSuffices(s, run);
    MergedIsSame(s.flag, s.aborts, Coarse(s, run));
    LateSetsFlag(s.flag, s.aborts, Calls(steps[..Made(x, steps)]), Late(Coarse(s, run)));
    TransferIsCoarseRun(x, steps);
  }

  /** The progress calls that a coarse run amounts to. */
  function ProgressCalls(run: seq<Atomic>): seq<Transfer.Step> {
    if run == [] then []
    else if run[0] == Poll then [Progress(false)] + ProgressCalls(run[1..])
    else if |run| == 1 || run[1] == Arrive then ProgressCalls(run[1..])
    else [Progress(true)] + ProgressCalls(run[2..])
  }

  lemma PollFirst(rest: seq<Atomic>, steps: seq<Transfer.Step>)
    requires Merged(rest) == Calls(steps) + Late(rest)
    ensures Merged([Poll] + rest) == Calls([Progress(false)] + steps) + Late([Poll] + rest)
  {
    assert ([Poll] + rest)[1..] == rest;
    CallsCons(false, steps);
    Assoc([Poll], Calls(steps), Late(rest));
  }

  lemma ArriveFirst(rest: seq<Atomic>, steps: seq<Transfer.Step>)
    requires Merged(rest) == Calls(steps) + Late(rest)
    ensures Merged([Arrive, Poll] + rest) == Calls([Progress(true)] + steps) + Late([Arrive, Poll] + rest)
  {
    var run := [Arrive, Poll] + rest;
    assert run[1..] == [Poll] + rest && ([Poll] + rest)[1..] == rest;
    Assoc([Arrive], [Poll], Merged(rest));
    CallsCons(true, steps);
    Assoc([Arrive, Poll], Calls(steps), Late(rest));
  }

  /** Nothing is left out: every interleaving amounts to some progress calls, with signals
      behind the last one or without. */
  lemma {:induction false} EveryRunIsCalls(run: seq<Atomic>)
    ensures Merged(run) == Calls(ProgressCalls(run)) + Late(run)
    decreases |run|
  {
    if run != [] {
      if run[0] == Poll {
        EveryRunIsCalls(run[1..]);
        PollFirst(run[1..], ProgressCalls(run[1..]));
        assert [Poll] + run[1..] == run;
      } else if |run| == 1 {
        assert Merged(run[1..]) == [];
      } else if run[1] == Arrive {
        EveryRunIsCalls(run[1..]);
      } else {
        EveryRunIsCalls(run[2..]);
        ArriveFirst(run[2..], ProgressCalls(run[2..]));
        assert [Arrive, Poll] + run[2..] == run;
      }
    }
  }

  lemma CallsCons(signalled: bool, steps: seq<Transfer.Step>)
    ensures Calls([Progress(signalled)] + steps) == AsAtomic(signalled) + Calls(steps)
  {
    assert ([Progress(signalled)] + steps)[1..] == steps;
  }

  predicate OnlyProgress(steps: seq<Transfer.Step>) {
    forall c :: c in steps ==> c.Progress?
  }

  lemma {:induction false} OnlyProgressCalls(run: seq<Atomic>)
    ensures OnlyProgress(ProgressCalls(run))
    decreases |run|
  {
    if run != [] {
      OnlyProgressCalls(run[1..]);
      if |run| > 1 {
        OnlyProgressCalls(run[2..]);
      }
    }
  }

  /** One transfer after the other, each beginning where the one before was aborted: the flag
      in the end, and the number of those aborted. */
  function Transfers(pending: bool, steps: seq<Transfer.Step>): (bool, nat)
    decreases |steps|
  {
    var x := Xfer(Stream([], false), pending, Running);
    var y, n := Perform(x, steps), Made(x, steps);
    if y.stop != Aborted || n == 0 then (y.pending, 0)
    else
      var (flag, aborted) := Transfers(y.pending, steps[n..]);
      (flag, aborted + 1)
  }

  lemma TransfersStep(pending: bool, steps: seq<Transfer.Step>)
    requires steps != [] && steps[0].Progress?
    ensures var (flag, aborted) := Transfers(false, steps[1..]);
      Transfers(pending, steps) == (flag, if pending || steps[0].signalled then aborted + 1 else aborted)
  {
    var x := Xfer(Stream([], false), pending, Running);
    var y, rest := After(x, steps[0]), steps[1..];
    assert Perform(x, steps) == Perform(y, rest) && Made(x, steps) == 1 + Made(y, rest);
    assert steps[1 + Made(y, rest)..] == rest[Made(y, rest)..];
  }

  lemma CoarseStep(pending: bool, aborts: nat, steps: seq<Transfer.Step>)
    requires steps != [] && steps[0].Progress?
    ensures RunCoarse(pending, aborts, Calls(steps))
         == RunCoarse(false, if pending || steps[0].signalled then aborts + 1 else aborts, Calls(steps[1..]))
  {
    OneCall(pending, aborts, steps[0].signalled, Calls(steps[1..]));
  }

  lemma {:induction false} TransfersAreCoarseRun(pending: bool, aborts: nat, steps: seq<Transfer.Step>)
    returns (flag: bool, aborted: nat)
    requires OnlyProgress(steps)
    ensures Transfers(pending, steps) == (flag, aborted)
    ensures RunCoarse(pending, aborts, Calls(steps)) == (flag, aborts + aborted)
    decreases |steps|
  {
    if steps == [] {
      return pending, 0;
    }
    assert steps[0] in steps;
    var first := if pending || steps[0].signalled then 1 else 0;
    flag, aborted := TransfersAreCoarseRun(false, aborts + first, steps[1..]);
    TransfersStep(pending, steps);
    CoarseStep(pending, aborts, steps);
    aborted := aborted + first;
  }

  /** Every interleaving of handler and callbacks aborts as many transfers as there are when
      each callback is one step, and leaves the same flag. */
  lemma EveryInterleaving(s: State, run: seq<Action>)
    requires Accounted(s) && Possible(s, run)
    ensures var t, r := Run(s, run), Coarse(s, run);
      var (flag, aborted) := Transfers(s.flag, ProgressCalls(r));
      t.aborts == s.aborts + aborted && t.flag == (flag || Late(r) != [])
  {
    var r := Coarse(s, run);
    AtomicCallbackSuffices(s, run);
    MergedIsSame(s.flag, s.aborts, r);
    EveryRunIsCalls(r);
    LateSetsFlag(s.flag, s.aborts, Calls(ProgressCalls(r)), Late(r));
    OnlyProgressCalls(r);
    var flag, aborted := TransfersAreCoarseRun(s.flag, s.aborts, ProgressCalls(r));
  }

  /** Unless a write fails first, what all the callbacks together would count decides. */
  lemma {:induction false} AbortedIff(x: Xfer, steps: seq<Transfer.Step>)
    requires x.stop == Running && !x.stream.failed
    requires forall c :: c in steps && c.Chunk? ==> c.ok
    ensures Perform(x, steps).stop == Aborted <==> RunCoarse(x.pending, 0, Calls(steps)).1 > 0
    decreases |steps|
  {
    if steps != [] {
      var y, rest := After(x, steps[0]), Calls(steps[1..]);
      match steps[0] {
        case Chunk(_, _, _) =>
          assert [] + rest == rest;
          AbortedIff(y, steps[1..]);
        case Progress(signalled) =>
          OneCall(x.pending, 0, signalled, rest);
          if y.stop == Aborted { AbortsStay(y.pending, 1, rest); } else { AbortedIff(y, steps[1..]); }
      }
    }
  }

  lemma {:induction false} AbortsStay(flag: bool, aborts: nat, run: seq<Atomic>)
    ensures RunCoarse(flag, aborts, run).1 >= aborts
    decreases |run|
  {
    if run != [] {
      match run[0]
      case Arrive => AbortsStay(true, aborts, run[1..]);
      case Poll => AbortsStay(false, if flag then aborts + 1 else aborts, run[1..]);
    }
  }
}
