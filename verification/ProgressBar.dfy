/** Progress accounting: throttled updates, the final correction, the dot-line layout. */
module ProgressBar {
  import opened Common

  datatype Mode = Dotline | Simple | Normal

  /** The fields of cc::progressbar. Byte counts are integers, times microseconds since the
      transfer was started; out is what the dot-line mode has printed. */
  datatype Bar = Bar(
    content: int, initial: int, received: int,
    lastUpdate: int, interval: nat,
    numDots: nat, failed: bool, done: bool,
    mode: Mode, out: string)

  /** What a render shows, and when. */
  datatype Frame = Frame(size: int, percent: int, at: int)

  const MICROSECONDS := 1_000_000

  function Created(content: int, initial: int, interval: nat, mode: Mode): Bar {
    Bar(content, initial, 0, 0, interval, 0, false, false, mode, "")
  }

  /** Conversion of a quotient to int truncates. */
  function Truncated(a: int, b: int): int
    requires b > 0
  {
    if a >= 0 then a / b else -((-a) / b)
  }

  function Percent(size: int, content: int): int {
    if content <= 0 then 0
    else if Truncated(100 * size, content) >= 100 then 100
    else Truncated(100 * size, content)
  }

  // ----- The dot line

  function Dot(n: nat): string { if n % 3 == 0 then ". " else "." }

  /** The dots numbered a + 1 to b. */
  function Dots(a: nat, b: nat): string
    decreases b - a
  {
    if a >= b then "" else Dot(a + 1) + Dots(a + 1, b)
  }

  lemma DotMoves(out: string, n: nat)
    requires 0 < n <= 30
    ensures out + Dots(n - 1, 30) == (out + Dot(n)) + Dots(n, 30)
  {
  }

  /** Output and dot counter after one render. */
  function Rendered(out: string, numDots: nat, done: bool, info: string): (string, nat) {
    var n := numDots + 1;
    if done then (out + Dots(numDots, 30) + info, if n < 31 then 31 else n)
    else if n >= 31 then (out + info + "\n", 0)
    else (out + Dot(n), n)
  }

  // ----- Updates

  /** update(dlnow) at time now; info is the text of the numbers. */
  function Updated(b: Bar, dlnow: int, now: int, info: string): (Bar, Option<Frame>) {
    if dlnow == 0 || b.failed then (b, None)
    else if !b.done && now - b.lastUpdate < b.interval * MICROSECONDS then (b, None)
    else
      var bytes := if b.done then b.content else dlnow;
      var size := if b.done then bytes else bytes + b.initial;
      var line := if b.mode == Dotline then Rendered(b.out, b.numDots, b.done, info) else (b.out, b.numDots);
      (b.(received := bytes, lastUpdate := now, out := line.0, numDots := line.1),
       Some(Frame(size, Percent(size, b.content), now)))
  }

  /** The length is corrected if more was received than announced. */
  function Corrected(b: Bar): Bar {
    if b.content > 0 && b.received + b.initial > b.content
    then b.(content := b.initial + b.received) else b
  }

  function Finished(b: Bar, now: int, info: string): (Bar, Option<Frame>) {
    if b.failed then (Corrected(b), None)
    else Updated(Corrected(b).(done := true), -1, now, info)
  }

  class Progress {
    var content: int
    var initial: int
    var received: int
    var lastUpdate: int
    var interval: nat
    var numDots: nat
    var failed: bool
    var done: bool
    var mode: Mode
    var out: string

    ghost function State(): Bar reads this {
      Bar(content, initial, received, lastUpdate, interval, numDots, failed, done, mode, out)
    }

    constructor (content: int, initial: int, interval: nat, mode: Mode)
      ensures State() == Created(content, initial, interval, mode)
    {
      this.content, this.initial, this.interval, this.mode := content, initial, interval, mode;
      received, lastUpdate, numDots := 0, 0, 0;
      failed, done, out := false, false, "";
    }

    method RenderDotline(info: string)
      modifies this`numDots, this`out
      ensures (out, numDots) == Rendered(old(out), old(numDots), done, info)
    {
      ghost var total := out + Dots(numDots, 30);
      numDots := numDots + 1;
      if done {
        while numDots < 31
          invariant 0 < numDots <= (if old(numDots) < 31 then 31 else old(numDots) + 1)
          invariant old(numDots) >= 31 ==> numDots == old(numDots) + 1
          invariant out + Dots(numDots - 1, 30) == total
          decreases 31 - numDots
        {
          DotMoves(out, numDots);
          out := out + Dot(numDots);
          numDots := numDots + 1;
        }
        assert out + "" == out;
        out := out + info;
        return;
      }
      if numDots >= 31 {
        out := out + info + "\n";
        numDots := 0;
      } else {
        out := out + Dot(numDots);
      }
    }

    method Update(dlnow: int, now: int, info: string) returns (frame: Option<Frame>)
      modifies this
      ensures (State(), frame) == Updated(old(State()), dlnow, now, info)
    {
      if dlnow == 0 || failed {
        return None;
      }
      var bytes := dlnow;
      if done {
        bytes := content;
      } else if now - lastUpdate < interval * MICROSECONDS {
        return None;
      }
      var size := bytes;
      if !done {
        size := size + initial;
      }
      var percent := 0;
      if content > 0 {
        percent := Truncated(100 * size, content);
        if percent >= 100 {
          percent := 100;
        }
      }
      received := bytes;
      lastUpdate := now;
      if mode == Dotline {
        RenderDotline(info);
      }
      return Some(Frame(size, percent, now));
    }

    /** Called on destruction. */
    method Finish(now: int, info: string) returns (frame: Option<Frame>)
      modifies this
      ensures (State(), frame) == Finished(old(State()), now, info)
    {
      if content > 0 && received + initial > content {
        content := initial + received;
      }
      if failed {
        return None;
      }
      done := true;
      frame := Update(-1, now, info);
    }
  }

  // ----- Accounting over a whole transfer

  /** A progress callback. */
  datatype Tick = Tick(dlnow: int, now: int, info: string)

  function Frames(b: Bar, ticks: seq<Tick>): (Bar, seq<Frame>)
    decreases |ticks|
  {
    if ticks == [] then (b, [])
    else
      var (c, f) := Updated(b, ticks[0].dlnow, ticks[0].now, ticks[0].info);
      var (d, fs) := Frames(c, ticks[1..]);
      (d, (if f.Some? then [f.value] else []) + fs)
  }

  /** The byte counts start at from and never go back. */
  predicate Growing(from: int, ticks: seq<Tick>) {
    && (forall i :: 0 <= i < |ticks| ==> from <= ticks[i].dlnow)
    && (forall i, j :: 0 <= i < j < |ticks| ==> ticks[i].dlnow <= ticks[j].dlnow)
  }

  lemma QuotientBelow(x: int, c: int, q: int)
    requires c > 0 && x < c * q
    ensures x / c < q
  {
  }

  lemma DivisionMonotone(a: int, b: int, c: int)
    requires 0 <= a <= b && c > 0
    ensures 0 <= a / c <= b / c
  {
    assert b == c * (b / c) + b % c;
    assert b < c * (b / c + 1);
    QuotientBelow(a, c, b / c + 1);
  }

  lemma PercentMonotone(a: int, b: int, content: int)
    requires 0 <= a <= b && content > 0
    ensures 0 <= Percent(a, content) <= Percent(b, content) <= 100
  {
    DivisionMonotone(100 * a, 100 * b, content);
  }

  lemma WholePercent(content: int)
    requires content > 0
    ensures Percent(content, content) == 100
  {
  }

  predicate Rising(fs: seq<Frame>) {
    forall i, j :: 0 <= i < j < |fs| ==> fs[i].size <= fs[j].size && fs[i].percent <= fs[j].percent
  }

  lemma RisingCons(f: Frame, fs: seq<Frame>)
    requires Rising(fs)
    requires forall g :: g in fs ==> f.size <= g.size && f.percent <= g.percent
    ensures Rising([f] + fs)
  {
  }

  lemma RisingSnoc(fs: seq<Frame>, f: Frame)
    requires Rising(fs)
    requires forall g :: g in fs ==> g.size <= f.size && g.percent <= f.percent
    ensures Rising(fs + [f])
  {
  }

  /** While the transfer runs. */
  lemma {:induction false} FramesRise(b: Bar, ticks: seq<Tick>)
    requires b.content > 0 && b.initial >= 0 && b.received >= 0 && !b.failed && !b.done
    requires Growing(b.received, ticks)
    ensures var (d, fs) := Frames(b, ticks);
      && Rising(fs)
      && (forall f :: f in fs ==> b.received + b.initial <= f.size <= d.received + d.initial)
      && (forall f :: f in fs ==> 0 <= f.percent <= 100 && f.percent == Percent(f.size, b.content))
      && d.content == b.content && d.initial == b.initial && d.received >= b.received
      && !d.failed && !d.done
    decreases |ticks|
  {
    if ticks != [] {
      var t := ticks[0];
      var (c, f) := Updated(b, t.dlnow, t.now, t.info);
      assert Growing(c.received, ticks[1..]);
      FramesRise(c, ticks[1..]);
      var (d, fs) := Frames(c, ticks[1..]);
      if f.Some? {
        PercentMonotone(f.value.size, f.value.size, b.content);
        forall g | g in fs ensures f.value.percent <= g.percent {
          PercentMonotone(f.value.size, g.size, b.content);
        }
        RisingCons(f.value, fs);
      }
    }
  }

  /** All frames of a transfer that does not fail, the last one from the destructor. */
  function AllFrames(b: Bar, ticks: seq<Tick>, now: int, info: string): seq<Frame> {
    var (d, fs) := Frames(b, ticks);
    var (_, f) := Finished(d, now, info);
    fs + if f.Some? then [f.value] else []
  }

  /** Size and percentage never go back, the percentage stays in 0..100 and ends at 100. */
  lemma ProgressNeverGoesBack(content: int, initial: int, interval: nat, mode: Mode,
                              ticks: seq<Tick>, now: int, info: string)
    requires content > 0 && initial >= 0
    requires Growing(0, ticks)
    ensures var fs := AllFrames(Created(content, initial, interval, mode), ticks, now, info);
      && fs != [] && fs[|fs| - 1].percent == 100
      && Rising(fs)
      && (forall f :: f in fs ==> 0 <= f.percent <= 100)
  {
    var b := Created(content, initial, interval, mode);
    FramesRise(b, ticks);
    var (d, fs) := Frames(b, ticks);
    var last := Finished(d, now, info).1.value;
    WholePercent(Corrected(d).content);
    assert last.percent == 100 && last.size >= d.received + d.initial;
    RisingSnoc(fs, last);
  }

  /** Render k comes at least k + 1 steps after last. */
  predicate Spaced(fs: seq<Frame>, last: int, step: nat) {
    forall k :: 0 <= k < |fs| ==> fs[k].at >= last + (k + 1) * step
  }

  /** The k-th render comes no earlier than k intervals after the start. */
  lemma {:induction false} RendersAreSpaced(b: Bar, ticks: seq<Tick>)
    requires !b.done
    ensures Spaced(Frames(b, ticks).1, b.lastUpdate, b.interval * MICROSECONDS)
    decreases |ticks|
  {
    if ticks != [] {
      var t := ticks[0];
      var (c, f) := Updated(b, t.dlnow, t.now, t.info);
      RendersAreSpaced(c, ticks[1..]);
      if f.Some? {
        SpacedCons(f.value, Frames(c, ticks[1..]).1, b.lastUpdate, b.interval * MICROSECONDS);
      }
    }
  }

  lemma SpacedCons(f: Frame, rest: seq<Frame>, last: int, step: nat)
    requires f.at >= last + step && Spaced(rest, f.at, step)
    ensures Spaced([f] + rest, last, step)
  {
  }

  // ----- What is shown, told from the ticks alone

  /** A whole percentage is the share rounded down, but never more than 100. */
  predicate IsPercent(percent: int, size: int, content: int) {
    if content <= 0 then percent == 0
    else if size >= content then percent == 100
    else 0 <= percent < 100 && content * percent <= 100 * size < content * percent + content
  }

  lemma RoundedDown(x: int, c: int)
    requires x >= 0 && c > 0
    ensures c * (x / c) <= x < c * (x / c) + c && x / c >= 0
  {
    assert x == c * (x / c) + x % c;
  }

  lemma ShareBelow(size: int, content: int)
    requires 0 <= size < content
    ensures var p := Percent(size, content);
      0 <= p < 100 && content * p <= 100 * size < content * p + content
  {
    var x := 100 * size;
    RoundedDown(x, content);
    QuotientBelow(x, content, 100);
  }

  lemma ShareRoundedDown(size: int, content: int)
    requires size >= 0
    ensures IsPercent(Percent(size, content), size, content)
  {
    if 0 < content <= size {
      WholePercent(content);
      PercentMonotone(content, size, content);
    } else if content > 0 {
      ShareBelow(size, content);
    }
  }

  /** The frame shows what the tick reports, on top of what was there initially. */
  predicate Shows(f: Frame, t: Tick, content: int, initial: int) {
    f.at == t.now && f.size == t.dlnow + initial && IsPercent(f.percent, f.size, content)
  }

  /** The frames show the marked ticks, one after the other. */
  predicate ShowMarked(fs: seq<Frame>, ticks: seq<Tick>, marks: seq<bool>, content: int, initial: int)
    requires |marks| == |ticks|
    decreases |ticks|
  {
    if ticks == [] then fs == []
    else if marks[0] then
      fs != [] && Shows(fs[0], ticks[0], content, initial)
      && ShowMarked(fs[1..], ticks[1..], marks[1..], content, initial)
    else ShowMarked(fs, ticks[1..], marks[1..], content, initial)
  }

  /** The time of the last marked tick in front of tick j; start if there is none. */
  function LastTime(ticks: seq<Tick>, marks: seq<bool>, j: nat, start: int): int
    requires j <= |ticks| == |marks|
  {
    if j == 0 then start else if marks[j - 1] then ticks[j - 1].now else LastTime(ticks, marks, j - 1, start)
  }

  /** The bytes that the last marked tick reports. */
  function LastBytes(ticks: seq<Tick>, marks: seq<bool>, j: nat, start: int): int
    requires j <= |ticks| == |marks|
  {
    if j == 0 then start else if marks[j - 1] then ticks[j - 1].dlnow else LastBytes(ticks, marks, j - 1, start)
  }

  /** Marked are the ticks that report some bytes and come at least step after the last
      marked one. */
  predicate MarksDue(ticks: seq<Tick>, marks: seq<bool>, start: int, step: int)
    requires |marks| == |ticks|
  {
    forall j :: 0 <= j < |ticks| ==>
      (marks[j] <==> ticks[j].dlnow != 0 && ticks[j].now - LastTime(ticks, marks, j, start) >= step)
  }

  lemma {:induction false} LastBehind(ticks: seq<Tick>, marks: seq<bool>, j: nat, start: int, bytes: int)
    requires 0 < j <= |ticks| == |marks|
    ensures LastTime(ticks, marks, j, start)
         == LastTime(ticks[1..], marks[1..], j - 1, if marks[0] then ticks[0].now else start)
    ensures LastBytes(ticks, marks, j, bytes)
         == LastBytes(ticks[1..], marks[1..], j - 1, if marks[0] then ticks[0].dlnow else bytes)
  {
    if j > 1 {
      LastBehind(ticks, marks, j - 1, start, bytes);
      assert marks[1..][j - 2] == marks[j - 1] && ticks[1..][j - 2] == ticks[j - 1];
    }
  }

  lemma MarksCons(t: Tick, ticks: seq<Tick>, m: bool, marks: seq<bool>, start: int, step: int, bytes: int)
    requires |marks| == |ticks| && (m <==> t.dlnow != 0 && t.now - start >= step)
    requires MarksDue(ticks, marks, if m then t.now else start, step)
    ensures MarksDue([t] + ticks, [m] + marks, start, step)
    ensures LastBytes([t] + ticks, [m] + marks, |ticks| + 1, bytes)
         == LastBytes(ticks, marks, |ticks|, if m then t.dlnow else bytes)
  {
    var ts, ms := [t] + ticks, [m] + marks;
    assert ts[1..] == ticks && ms[1..] == marks;
    forall j | 0 <= j < |ts|
      ensures ms[j] <==> ts[j].dlnow != 0 && ts[j].now - LastTime(ts, ms, j, start) >= step
    {
      if j > 0 {
        LastBehind(ts, ms, j, start, 0);
        assert ms[j] == marks[j - 1] && ts[j] == ticks[j - 1];
      }
    }
    LastBehind(ts, ms, |ts|, start, bytes);
  }

  lemma TickShown(b: Bar, t: Tick)
    requires !b.done && !b.failed && b.initial >= 0 && t.dlnow >= 0
    ensures var (c, f) := Updated(b, t.dlnow, t.now, t.info);
      && (f.Some? <==> t.dlnow != 0 && t.now - b.lastUpdate >= b.interval * MICROSECONDS)
      && (f.Some? ==> Shows(f.value, t, b.content, b.initial))
      && c == b.(received := if f.Some? then t.dlnow else b.received,
                 lastUpdate := if f.Some? then t.now else b.lastUpdate, out := c.out, numDots := c.numDots)
  {
    ShareRoundedDown(t.dlnow + b.initial, b.content);
  }

  lemma ShowMarkedCons(f: Option<Frame>, fs: seq<Frame>, t: Tick, ticks: seq<Tick>, marks: seq<bool>,
                       content: int, initial: int)
    requires |marks| == |ticks| && ShowMarked(fs, ticks, marks, content, initial)
    requires f.Some? ==> Shows(f.value, t, content, initial)
    ensures ShowMarked((if f.Some? then [f.value] else []) + fs, [t] + ticks, [f.Some?] + marks, content, initial)
  {
    var all := (if f.Some? then [f.value] else []) + fs;
    assert ([t] + ticks)[1..] == ticks && ([f.Some?] + marks)[1..] == marks;
    assert if f.Some? then all[1..] == fs else all == fs;
  }

  /** While a transfer runs: a tick is shown exactly when it is due, and then as it is. */
  lemma {:induction false} FramesShowTicks(b: Bar, ticks: seq<Tick>) returns (marks: seq<bool>)
    requires !b.done && !b.failed && b.initial >= 0
    requires forall t :: t in ticks ==> t.dlnow >= 0
    ensures |marks| == |ticks| && MarksDue(ticks, marks, b.lastUpdate, b.interval * MICROSECONDS)
    ensures var (d, fs) := Frames(b, ticks);
      && ShowMarked(fs, ticks, marks, b.content, b.initial)
      && d.received == LastBytes(ticks, marks, |ticks|, b.received)
      && d.content == b.content && d.initial == b.initial && !d.done && !d.failed
    decreases |ticks|
  {
    if ticks == [] {
      return [];
    }
    var t, more := ticks[0], ticks[1..];
    assert t in ticks && ticks == [t] + more;
    var (c, f) := Updated(b, t.dlnow, t.now, t.info);
    TickShown(b, t);
    var rest := FramesShowTicks(c, more);
    marks := [f.Some?] + rest;
    MarksCons(t, more, f.Some?, rest, b.lastUpdate, b.interval * MICROSECONDS, b.received);
    ShowMarkedCons(f, Frames(c, more).1, t, more, rest, b.content, b.initial);
  }

  function Larger(a: int, b: int): int { if a >= b then a else b }

  /** A whole transfer that does not fail: the ticks that are due, and at the end the whole
      length, which is the announced one or, if that is more, what was there initially and
      what was shown last. */
  lemma TransferShowsTicks(content: int, initial: nat, interval: nat, mode: Mode,
                           ticks: seq<Tick>, now: int, info: string) returns (marks: seq<bool>)
    requires forall t :: t in ticks ==> t.dlnow >= 0
    ensures |marks| == |ticks| && MarksDue(ticks, marks, 0, interval * MICROSECONDS)
    ensures var fs := AllFrames(Created(content, initial, interval, mode), ticks, now, info);
      && fs != []
      && ShowMarked(fs[..|fs| - 1], ticks, marks, content, initial)
      && fs[|fs| - 1] == (if content > 0
                          then Frame(Larger(content, initial + LastBytes(ticks, marks, |ticks|, 0)), 100, now)
                          else Frame(content, 0, now))
  {
    var b := Created(content, initial, interval, mode);
    marks := FramesShowTicks(b, ticks);
    var (d, fs) := Frames(b, ticks);
    var last := Finished(d, now, info).1.value;
    assert (fs + [last])[..|fs|] == fs;
    if content > 0 {
      WholePercent(Corrected(d).content);
    }
  }

  /** Once the transfer has failed nothing is shown, at the end either. */
  lemma {:induction false} FailedShowsNothing(b: Bar, ticks: seq<Tick>, now: int, info: string)
    requires b.failed
    ensures AllFrames(b, ticks, now, info) == [] && Frames(b, ticks).0 == b
    decreases |ticks|
  {
    if ticks != [] {
      FailedShowsNothing(b, ticks[1..], now, info);
    }
  }

  // ----- The layout of the dot line

  /** The output of renders with the given info texts. */
  function Lines(out: string, numDots: nat, infos: seq<string>): (string, nat)
    decreases |infos|
  {
    if infos == [] then (out, numDots)
    else
      var (o, n) := Rendered(out, numDots, false, infos[0]);
      Lines(o, n, infos[1..])
  }

  /** Groups of three dots. */
  function Groups(n: nat): string { if n == 0 then "" else "... " + Groups(n - 1) }

  /** One line for every 31 renders, showing the last one's numbers behind the dots. */
  function FullLines(dots: string, infos: seq<string>): string
    decreases |infos|
  {
    if |infos| < 31 then "" else dots + infos[30] + "\n" + FullLines(dots, infos[31..])
  }

  lemma {:induction false} DotsSplit(a: nat, b: nat, c: nat)
    requires a <= b <= c
    ensures Dots(a, c) == Dots(a, b) + Dots(b, c)
    decreases b - a
  {
    if a < b {
      DotsSplit(a + 1, b, c);
    }
  }

  lemma ThreeDots(g: nat)
    ensures Dots(3 * g, 3 * g + 3) == "... "
  {
    var a := 3 * g;
    assert (a + 1) % 3 == 1 && (a + 2) % 3 == 2 && (a + 3) % 3 == 0;
    assert Dots(a + 2, a + 3) == Dot(a + 3) + Dots(a + 3, a + 3);
    assert Dots(a + 1, a + 3) == Dot(a + 2) + Dots(a + 2, a + 3);
    assert Dots(a, a + 3) == Dot(a + 1) + Dots(a + 1, a + 3);
  }

  lemma {:induction false} DotsAreGroups(g: nat, h: nat)
    ensures Dots(3 * g, 3 * (g + h)) == Groups(h)
    decreases h
  {
    if h > 0 {
      DotsSplit(3 * g, 3 * g + 3, 3 * (g + h));
      ThreeDots(g);
      DotsAreGroups(g + 1, h - 1);
    }
  }

  /** Fewer renders than fill the line only add dots. */
  lemma {:induction false} DotsOnly(out: string, n: nat, infos: seq<string>)
    requires n + |infos| <= 30
    ensures Lines(out, n, infos) == (out + Dots(n, n + |infos|), n + |infos|)
    decreases |infos|
  {
    if infos == [] {
      assert out + "" == out;
    } else {
      DotsOnly(out + Dot(n + 1), n + 1, infos[1..]);
      assert out + Dot(n + 1) + Dots(n + 1, n + |infos|) == out + (Dot(n + 1) + Dots(n + 1, n + |infos|));
    }
  }

  /** dots is what the dots of a line amount to, wherever the line is interrupted. */
  predicate IsLine(dots: string) {
    forall n :: 0 <= n <= 30 ==> dots == Dots(0, n) + Dots(n, 30)
  }

  lemma TenGroups()
    ensures IsLine(Groups(10))
  {
    DotsAreGroups(0, 10);
    forall n | 0 <= n <= 30 ensures Groups(10) == Dots(0, n) + Dots(n, 30) {
      DotsSplit(0, n, 30);
    }
  }

  /** The renders that finish the line begun with n dots; the last one prints the numbers. */
  lemma {:induction false} LineFills(out: string, n: nat, infos: seq<string>, rest: seq<string>)
    requires n <= 30 && |infos| == 31 - n
    ensures Lines(out, n, infos + rest) == Lines(out + (Dots(n, 30) + (infos[30 - n] + "\n")), 0, rest)
    decreases 30 - n
  {
    assert (infos + rest)[1..] == infos[1..] + rest && (infos + rest)[0] == infos[0];
    if n == 30 {
      assert infos[1..] + rest == rest;
      assert Dots(n, 30) + (infos[0] + "\n") == infos[0] + "\n";
      Assoc(out, infos[0], "\n");
    } else {
      var tail := infos[30 - n] + "\n";
      LineFills(out + Dot(n + 1), n + 1, infos[1..], rest);
      Assoc(Dot(n + 1), Dots(n + 1, 30), tail);
      Assoc(out, Dot(n + 1), Dots(n + 1, 30) + tail);
    }
  }

  lemma OneLineMore(out: string, dots: string, infos: seq<string>, n: nat)
    requires |infos| >= 31 && IsLine(dots) && n == 0
    ensures Lines(out, n, infos) == Lines(out + (dots + infos[30] + "\n"), 0, infos[31..])
  {
    var a, b := infos[..31], infos[31..];
    assert infos == a + b;
    assert dots == Dots(0, n) + Dots(n, 30) == Dots(n, 30);
    Assoc(dots, infos[30], "\n");
    LineFills(out, n, a, b);
  }

  lemma FullLinesStep(dots: string, infos: seq<string>) returns (line: string, more: string)
    requires |infos| >= 31
    ensures line == dots + infos[30] + "\n" && more == FullLines(dots, infos[31..])
    ensures FullLines(dots, infos) == line + more
  {
    line, more := dots + infos[30] + "\n", FullLines(dots, infos[31..]);
  }

  /** Every 31 renders give a full line and start anew. */
  lemma {:induction false} LinesAreFull(out: string, dots: string, infos: seq<string>)
    returns (o: string, rest: seq<string>)
    requires IsLine(dots)
    ensures o == out + FullLines(dots, infos) && |rest| == |infos| % 31
    ensures Lines(out, 0, infos) == Lines(o, 0, rest)
    decreases |infos|
  {
    if |infos| < 31 {
      assert out + "" == out;
      return out, infos;
    }
    OneLineMore(out, dots, infos, 0);
    var line, more := FullLinesStep(dots, infos);
    o, rest := LinesAreFull(out + line, dots, infos[31..]);
    Assoc(out, line, more);
  }

  /** After any number of renders: full lines, then the dots of the line begun. */
  lemma DotLineLayout(dots: string, infos: seq<string>)
    requires IsLine(dots)
    ensures Lines("", 0, infos) == (FullLines(dots, infos) + Dots(0, |infos| % 31), |infos| % 31)
  {
    var o, rest := LinesAreFull("", dots, infos);
    assert o == FullLines(dots, infos);
    DotsOnly(o, 0, rest);
  }

  /** The final render completes the line begun. */
  lemma FinalLineIsFull(lines: string, dots: string, n: nat, last: string)
    requires IsLine(dots) && n <= 30
    ensures Rendered(lines + Dots(0, n), n, true, last).0 == lines + (dots + last)
  {
    assert dots == Dots(0, n) + Dots(n, 30);
    Assoc(lines, Dots(0, n), Dots(n, 30));
    Assoc(lines, dots, last);
  }

  /** The info texts of the ticks that are not throttled. */
  function Shown(b: Bar, ticks: seq<Tick>): seq<string>
    decreases |ticks|
  {
    if ticks == [] then []
    else
      var (c, f) := Updated(b, ticks[0].dlnow, ticks[0].now, ticks[0].info);
      (if f.Some? then [ticks[0].info] else []) + Shown(c, ticks[1..])
  }

  lemma {:induction false} OutputIsLines(b: Bar, ticks: seq<Tick>)
    requires b.mode == Dotline && !b.done && !b.failed
    ensures var d := Frames(b, ticks).0;
      && (d.out, d.numDots) == Lines(b.out, b.numDots, Shown(b, ticks))
      && d.mode == Dotline && !d.done && !d.failed
    decreases |ticks|
  {
    if ticks != [] {
      var t := ticks[0];
      var (c, f) := Updated(b, t.dlnow, t.now, t.info);
      OutputIsLines(c, ticks[1..]);
      var rest := Shown(c, ticks[1..]);
      if f.Some? {
        assert Shown(b, ticks) == [t.info] + rest && ([t.info] + rest)[1..] == rest;
      } else {
        assert Shown(b, ticks) == [] + rest == rest;
      }
    }
  }

  lemma PrintsFullLines(b: Bar, ticks: seq<Tick>, now: int, last: string, dots: string)
    requires b.mode == Dotline && !b.done && !b.failed && b.out == "" && b.numDots == 0
    requires IsLine(dots)
    ensures var d, infos := Frames(b, ticks).0, Shown(b, ticks);
      && d.numDots == |infos| % 31
      && Finished(d, now, last).0.out == FullLines(dots, infos) + (dots + last)
  {
    var infos := Shown(b, ticks);
    OutputIsLines(b, ticks);
    DotLineLayout(dots, infos);
    FinalLineIsFull(FullLines(dots, infos), dots, |infos| % 31, last);
  }

  /** All that a transfer that does not fail prints in dot-line mode: lines of ten groups of
      three dots with numbers behind them, one for every 31 renders, and a last one that
      finish completes. In between the counter stays in 0..30. */
  lemma TransferPrintsFullLines(content: int, initial: int, interval: nat, ticks: seq<Tick>,
                                now: int, last: string)
    ensures var b := Created(content, initial, interval, Dotline);
      var d := Frames(b, ticks).0;
      && d.numDots == |Shown(b, ticks)| % 31
      && Finished(d, now, last).0.out
         == FullLines(Groups(10), Shown(b, ticks)) + (Groups(10) + last)
  {
    TenGroups();
    PrintsFullLines(Created(content, initial, interval, Dotline), ticks, now, last, Groups(10));
  }
}
