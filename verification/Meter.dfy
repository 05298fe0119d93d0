/** The terminal width with its unsigned arithmetic, the meter of the normal progress bar,
    and the signal handler that makes the width be asked for again. */
module Meter {
  import opened Common

  const SIZE_MAX: int := 0xffff_ffff_ffff_ffff
  const LONG_MAX: int := 0x7fff_ffff_ffff_ffff

  /** size_t */
  newtype Size = x: int | 0 <= x <= SIZE_MAX

  /** size_t arithmetic wraps around. */
  function Wrapped(x: int): Size {
    (x % (SIZE_MAX + 1)) as Size
  }

  const SIGWINCH := 28
  const SIGUSR1 := 10
  const DEFAULT_WIDTH: Size := 80

  class Globals {
    var recvSigwinch: bool
    var recvSigusr1: bool
    var maxWidth: Size

    constructor ()
      ensures !recvSigwinch && !recvSigusr1 && maxWidth == 0
    {
      recvSigwinch, recvSigusr1, maxWidth := false, false, 0;
    }

    method DefaultHandler(n: int)
      modifies this`recvSigwinch, this`recvSigusr1
      ensures recvSigwinch == (old(recvSigwinch) || n == SIGWINCH)
      ensures recvSigusr1 == (old(recvSigusr1) || n == SIGUSR1)
    {
      if n == SIGWINCH {
        recvSigwinch := true;
      } else if n == SIGUSR1 {
        recvSigusr1 := true;
      }
    }

    /** queried is what the terminal answers now, 0 when it cannot be asked. Nothing ever
        clears the flag, so that after one SIGWINCH the terminal is asked every time. */
    method CalcTermSpaceleft(len: Size, queried: Size) returns (space: Size, width: Size)
      modifies this`maxWidth
      ensures width == maxWidth == Width(old(maxWidth), recvSigwinch, queried)
      ensures recvSigwinch || old(maxWidth) == 0 ==> width == Answer(queried)
      ensures !recvSigwinch && old(maxWidth) != 0 ==> width == old(maxWidth)
      ensures space == SpaceLeft(width, len)
    {
      if maxWidth == 0 || recvSigwinch {
        maxWidth := queried;
        if maxWidth == 0 {
          maxWidth := DEFAULT_WIDTH;
        }
      }
      width := maxWidth;
      space := Wrapped(maxWidth as int - len as int - 1);
    }
  }

  /** The terminal's answer, or 80 when it has none. */
  function Answer(queried: Size): Size { if queried == 0 then DEFAULT_WIDTH else queried }

  function Width(cached: Size, winch: bool, queried: Size): Size {
    if cached == 0 || winch then Answer(queried) else cached
  }

  /** A signal is handled, or the width is needed while the terminal gives some answer. */
  datatype Happening = Handled(n: int) | Needed(queried: Size)

  /** Width and flag after these, in order. */
  function WidthAfter(cached: Size, winch: bool, hs: seq<Happening>): (Size, bool)
    decreases |hs|
  {
    if hs == [] then (cached, winch)
    else match hs[0]
      case Handled(n) => WidthAfter(cached, winch || n == SIGWINCH, hs[1..])
      case Needed(queried) => WidthAfter(Width(cached, winch, queried), winch, hs[1..])
  }

  /** The first answer is kept until a SIGWINCH; from then on every new answer counts. */
  lemma {:induction false} AskedAgainIff(cached: Size, winch: bool, hs: seq<Happening>, queried: Size)
    ensures var (width, _) := WidthAfter(cached, winch, hs + [Needed(queried)]);
      width == if winch || Handled(SIGWINCH) in hs then Answer(queried)
               else if cached != 0 then cached
               else FirstAnswer(hs + [Needed(queried)])
    decreases |hs|
  {
    var all := hs + [Needed(queried)];
    if hs == [] {
      assert all[1..] == [];
    } else {
      assert all[1..] == hs[1..] + [Needed(queried)];
      assert forall h :: h in hs <==> h == hs[0] || h in hs[1..];
      match hs[0]
      case Handled(n) => AskedAgainIff(cached, winch || n == SIGWINCH, hs[1..], queried);
      case Needed(q) => AskedAgainIff(Width(cached, winch, q), winch, hs[1..], queried);
    }
  }

  function FirstAnswer(hs: seq<Happening>): Size {
    if hs == [] then 0 else if hs[0].Needed? then Answer(hs[0].queried) else FirstAnswer(hs[1..])
  }

  function SpaceLeft(width: Size, len: Size): Size {
    Wrapped(width as int - len as int - 1)
  }

  function Repeat(c: char, n: nat): string {
    if n == 0 then "" else Repeat(c, n - 1) + [c]
  }

  /** n cells of which the first filled are full. */
  function Cells(filled: nat, n: nat): string {
    Repeat('#', Min(filled, n)) + Repeat('-', n - Min(filled, n))
  }

  lemma {:induction false} RepeatLength(c: char, n: nat)
    ensures |Repeat(c, n)| == n && forall i :: 0 <= i < n ==> Repeat(c, n)[i] == c
  {
    if n > 0 {
      RepeatLength(c, n - 1);
    }
  }

  lemma CellsSnoc(filled: nat, n: nat)
    ensures Cells(filled, n + 1) == Cells(filled, n) + [if n < filled then '#' else '-']
  {
  }

  /** The cells that the given space leaves room for between the brackets. */
  function CellCount(space: int): nat { if space <= 1 then 0 else space - 1 }

  /** render_meter, for a whole percentage. The position of the output stream, which starts
      behind the opening bracket, is what ends the loop. */
  method RenderMeter(percent: nat, space: nat) returns (o: string)
    ensures o == "[" + Cells(space * percent / 100, CellCount(space)) + "]"
  {
    o := "[";
    var m := space * percent / 100;
    var i := 0;
    while |o| < space
      invariant o == "[" + Cells(m, i) && |o| == i + 1
      invariant i <= CellCount(space)
      decreases space - |o|
    {
      CellsSnoc(m, i);
      assert "[" + Cells(m, i + 1) == o + [if i < m then '#' else '-'];
      o := o + [if i < m then '#' else '-'];
      i := i + 1;
    }
    o := o + "]";
  }

  /** render_normal: what is printed for the text s of the numbers. */
  method RenderNormal(g: Globals, s: string, percent: nat, queried: Size, done: bool) returns (line: string)
    requires |s| <= LONG_MAX && percent <= 100
    modifies g`maxWidth
    ensures g.maxWidth == Width(old(g.maxWidth), g.recvSigwinch, queried)
    ensures line == NormalLine(s, percent, g.maxWidth, done)
  {
    var space, width := g.CalcTermSpaceleft(|s| as Size, queried);
    if width > space {
      var meter := RenderMeter(percent, space as int);
      return meter + s + (if done then "\n" else "\r");
    }
    return "";
  }

  function NormalLine(s: string, percent: nat, width: Size, done: bool): string
    requires |s| <= LONG_MAX
  {
    var space := SpaceLeft(width, |s| as Size);
    if width > space
    then MeterText(percent, space as int) + s + (if done then "\n" else "\r")
    else ""
  }

  function MeterText(percent: nat, space: nat): string {
    "[" + Cells(space * percent / 100, CellCount(space)) + "]"
  }

  /** The guard of render_normal, wrap-around included: the line is printed exactly when
      the text and one more column fit. */
  lemma GuardIff(width: Size, len: Size)
    requires width > 0 && len as int <= LONG_MAX
    ensures width > SpaceLeft(width, len) <==> len as int + 1 <= width as int
  {
  }

  /** The printed line, without its line end, is as wide as the terminal exactly when two
      columns are left for the brackets; with a single one left it is one too wide. */
  lemma LineWidth(s: string, percent: nat, width: Size, done: bool)
    requires width > 0 && |s| <= LONG_MAX && percent <= 100
    ensures var line := NormalLine(s, percent, width, done);
      && (line == "" <==> |s| + 1 > width as int)
      && (line != "" ==> |line| - 1 == if |s| + 2 <= width as int then width as int else width as int + 1)
  {
    GuardIff(width, |s| as Size);
    if |s| + 1 <= width as int {
      var space := width as int - |s| - 1;
      CellsLayout(space * percent / 100, CellCount(space));
    }
  }

  function Count(c: char, s: string): nat {
    if s == "" then 0 else Count(c, s[..|s| - 1]) + if s[|s| - 1] == c then 1 else 0
  }

  lemma CountSnoc(c: char, s: string, d: char)
    ensures Count(c, s + [d]) == Count(c, s) + if c == d then 1 else 0
  {
    assert (s + [d])[..|s|] == s;
  }

  lemma {:induction false} CountBehind(c: char, a: string, d: char, n: nat)
    ensures Count(c, a + Repeat(d, n)) == Count(c, a) + if c == d then n else 0
  {
    if n == 0 {
      assert a + "" == a;
    } else {
      CountBehind(c, a, d, n - 1);
      assert a + Repeat(d, n) == a + Repeat(d, n - 1) + [d];
      CountSnoc(c, a + Repeat(d, n - 1), d);
    }
  }

  /** The number of full cells is the share of the space, but never more than there are. */
  lemma FullCells(percent: nat, space: nat)
    requires space >= 1
    ensures Count('#', MeterText(percent, space)) == Min(space * percent / 100, space - 1)
  {
    var filled, n := space * percent / 100, CellCount(space);
    var k := Min(filled, n);
    var head := "[" + Repeat('#', k);
    CountBehind('#', "[", '#', k);
    CountBehind('#', head, '-', n - k);
    var text := MeterText(percent, space);
    assert text[..|text| - 1] == head + Repeat('-', n - k);
    assert "["[..0] == "";
  }

  lemma CellsLayout(filled: nat, n: nat)
    ensures |Cells(filled, n)| == n
    ensures forall i :: 0 <= i < n ==> Cells(filled, n)[i] == if i < filled then '#' else '-'
  {
    RepeatLength('#', Min(filled, n));
    RepeatLength('-', n - Min(filled, n));
  }

  /** From left to right: the full cells and the empty ones in brackets, the numbers, and a
      line end exactly when the transfer is done. */
  lemma LineLayout(s: string, percent: nat, width: Size, done: bool) returns (full: nat, cells: string)
    requires |s| <= LONG_MAX && NormalLine(s, percent, width, done) != ""
    ensures NormalLine(s, percent, width, done) == "[" + cells + "]" + s + (if done then "\n" else "\r")
    ensures forall i :: 0 <= i < |cells| ==> cells[i] == if i < full then '#' else '-'
  {
    var space := SpaceLeft(width, |s| as Size) as int;
    full := space * percent / 100;
    cells := Cells(full, CellCount(space));
    CellsLayout(full, CellCount(space));
  }
}
