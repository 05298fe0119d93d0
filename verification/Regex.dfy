/** A small backtracking matcher for the fixed patterns of the program, with PCRE's rules:
    leftmost start, first alternative, greedy before short, lazy before long. */
module Regex {
  import opened Common

  /** Classes of characters. Dot is any character but newline. */
  datatype Class = Is(c: char) | Quote | Space | NonSpace | Dot

  predicate IsSpace(c: char) {
    c == ' ' || c == '\t' || c == '\n' || c == '\r' || c as int == 12
  }

  predicate IsQuote(c: char) { c == '"' || c == '\'' }

  /** By their codes: tab, newline, form feed, return and space; the two quotes. */
  lemma CodesOfClasses(c: char)
    ensures IsSpace(c) <==> c as int in {9, 10, 12, 13, 32}
    ensures IsQuote(c) <==> c as int in {34, 39}
  {
  }

  predicate In(c: char, k: Class) {
    match k
    case Is(d) => c == d
    case Quote => IsQuote(c)
    case Space => IsSpace(c)
    case NonSpace => !IsSpace(c)
    case Dot => c != '\n'
  }

  /** Mark records the position reached, as the parentheses of a group do. */
  datatype Item = One(k: Class) | Many(k: Class, least: nat, greedy: bool) | Start | End | Mark

  type Pattern = seq<Item>

  /** The length of the run of k at i. */
  function Run(k: Class, s: string, i: nat): (n: nat)
    requires i <= |s|
    ensures i + n <= |s|
    ensures forall j :: i <= j < i + n ==> In(s[j], k)
    ensures i + n < |s| ==> !In(s[i + n], k)
    decreases |s| - i
  {
    if i < |s| && In(s[i], k) then 1 + Run(k, s, i + 1) else 0
  }

  /** `$` also matches before a newline that ends the string. */
  predicate AtEnd(s: string, i: nat)
    requires i <= |s|
  {
    i == |s| || (i == |s| - 1 && s[i] == '\n')
  }

  /** The recorded positions and the end of the preferred match of p at i. */
  function Match(p: Pattern, s: string, i: nat): Option<seq<nat>>
    requires i <= |s|
    decreases |p|, 0
  {
    if p == [] then Some([i])
    else match p[0]
      case One(k) => if i < |s| && In(s[i], k) then Match(p[1..], s, i + 1) else None
      case Many(k, least, greedy) => MatchMany(p[1..], s, i, least, Run(k, s, i), greedy)
      case Start => if i == 0 then Match(p[1..], s, i) else None
      case End => if AtEnd(s, i) then Match(p[1..], s, i) else None
      case Mark =>
        match Match(p[1..], s, i)
        case None => None
        case Some(ms) => Some([i] + ms)
  }

  /** Tries p behind lo to hi repetitions, in order of preference. */
  function MatchMany(p: Pattern, s: string, i: nat, lo: nat, hi: int, greedy: bool): Option<seq<nat>>
    requires i + hi <= |s|
    decreases |p|, 1, hi - lo
  {
    if lo > hi then None
    else
      var m := Match(p, s, i + if greedy then hi else lo);
      if m.Some? then m
      else if greedy then MatchMany(p, s, i, lo, hi - 1, greedy)
      else MatchMany(p, s, i, lo + 1, hi, greedy)
  }

  /** The fewest characters a match of p takes. */
  function Width(p: Pattern): nat {
    if p == [] then 0
    else Width(p[1..]) + match p[0] case One(_) => 1 case Many(_, least, _) => least case _ => 0
  }

  function Last(ms: seq<nat>): nat { if ms == [] then 0 else ms[|ms| - 1] }

  lemma {:induction false} MatchWidth(p: Pattern, s: string, i: nat)
    requires i <= |s|
    ensures var m := Match(p, s, i); m.Some? ==> m.value != [] && i + Width(p) <= Last(m.value) <= |s|
    decreases |p|, 0
  {
    if p != [] {
      match p[0]
      case One(_) => if i < |s| { MatchWidth(p[1..], s, i + 1); }
      case Many(k, least, greedy) => ManyWidth(p[1..], s, i, least, Run(k, s, i), greedy);
      case _ => MatchWidth(p[1..], s, i);
    }
  }

  lemma {:induction false} ManyWidth(p: Pattern, s: string, i: nat, lo: nat, hi: int, greedy: bool)
    requires i + hi <= |s|
    ensures var m := MatchMany(p, s, i, lo, hi, greedy);
      m.Some? ==> m.value != [] && i + lo + Width(p) <= Last(m.value) <= |s|
    decreases |p|, 1, hi - lo
  {
    if lo <= hi {
      MatchWidth(p, s, i + if greedy then hi else lo);
      if greedy {
        ManyWidth(p, s, i, lo, hi - 1, greedy);
      } else {
        ManyWidth(p, s, i, lo + 1, hi, greedy);
      }
    }
  }

  /** A greedy repetition takes the largest count behind which the rest matches. */
  lemma {:induction false} GreedyIsLargest(p: Pattern, s: string, i: nat, lo: nat, hi: int, n: nat)
    requires i + hi <= |s| && lo <= n <= hi
    requires Match(p, s, i + n).Some?
    requires forall j :: i + n < j <= i + hi ==> Match(p, s, j) == None
    ensures MatchMany(p, s, i, lo, hi, true) == Match(p, s, i + n)
    decreases hi
  {
    if n < hi {
      GreedyIsLargest(p, s, i, lo, hi - 1, n);
    }
  }

  lemma {:induction false} GreedyFails(p: Pattern, s: string, i: nat, lo: nat, hi: int)
    requires i + hi <= |s|
    requires forall j :: i + lo <= j <= i + hi ==> Match(p, s, j) == None
    ensures MatchMany(p, s, i, lo, hi, true) == None
    decreases hi - lo
  {
    if lo <= hi {
      GreedyFails(p, s, i, lo, hi - 1);
    }
  }

  // ----- Searching and replacing

  /** The preferred match at i of any of the alternatives. */
  function MatchAny(alts: seq<Pattern>, s: string, i: nat): Option<seq<nat>>
    requires i <= |s|
  {
    if alts == [] then None
    else
      var m := Match(alts[0], s, i);
      if m.Some? then m else MatchAny(alts[1..], s, i)
  }

  /** Every alternative takes at least one character. */
  predicate Proper(alts: seq<Pattern>) {
    forall k :: 0 <= k < |alts| ==> Width(alts[k]) > 0
  }

  lemma {:induction false} ProperMatch(alts: seq<Pattern>, s: string, i: nat)
    requires Proper(alts) && i <= |s|
    ensures MatchAny(alts, s, i).Some? ==> i < Last(MatchAny(alts, s, i).value) <= |s|
  {
    if alts != [] {
      MatchWidth(alts[0], s, i);
      ProperMatch(alts[1..], s, i);
    }
  }

  datatype Found = Found(start: nat, marks: seq<nat>)

  /** The leftmost match that starts at i or later. */
  function Search(alts: seq<Pattern>, s: string, i: nat): Option<Found>
    requires i <= |s|
    decreases |s| - i
  {
    var m := MatchAny(alts, s, i);
    if m.Some? then Some(Found(i, m.value))
    else if i < |s| then Search(alts, s, i + 1)
    else None
  }

  lemma {:induction false} SearchBounds(alts: seq<Pattern>, s: string, i: nat)
    requires Proper(alts) && i <= |s|
    ensures var m := Search(alts, s, i);
      m.Some? ==> i <= m.value.start < Last(m.value.marks) <= |s|
    decreases |s| - i
  {
    ProperMatch(alts, s, i);
    if i < |s| {
      SearchBounds(alts, s, i + 1);
    }
  }

  /** RE::GlobalReplace on s[i..] with a literal replacement. */
  function GlobalReplace(alts: seq<Pattern>, sub: string, s: string, i: nat): string
    requires Proper(alts) && i <= |s|
    decreases |s| - i
  {
    SearchBounds(alts, s, i);
    match Search(alts, s, i)
    case None => s[i..]
    case Some(m) => s[i..m.start] + sub + GlobalReplace(alts, sub, s, Last(m.marks))
  }

  /** RE::Replace: the first match only. */
  function Replace(alts: seq<Pattern>, sub: string, s: string): string
    requires Proper(alts)
  {
    SearchBounds(alts, s, 0);
    match Search(alts, s, 0)
    case None => s
    case Some(m) => s[..m.start] + sub + s[Last(m.marks)..]
  }

  /** Global replacement, one position at a time. */
  lemma ReplaceStep(alts: seq<Pattern>, sub: string, s: string, i: nat)
    requires Proper(alts) && i <= |s|
    ensures var m := MatchAny(alts, s, i);
      GlobalReplace(alts, sub, s, i)
      == if m.Some? then (ProperMatch(alts, s, i); sub + GlobalReplace(alts, sub, s, Last(m.value)))
         else if i < |s| then [s[i]] + GlobalReplace(alts, sub, s, i + 1)
         else []
  {
    ProperMatch(alts, s, i);
    if MatchAny(alts, s, i) == None && i < |s| {
      SearchBounds(alts, s, i + 1);
      match Search(alts, s, i + 1)
      case None => assert s[i..] == [s[i]] + s[i + 1..];
      case Some(m) => assert s[i..m.start] == [s[i]] + s[i + 1..m.start];
    }
  }

  /** std::string RE::GlobalReplace, as the loop over matches that it is. */
  method ReplaceAll(alts: seq<Pattern>, sub: string, s: string) returns (out: string)
    requires Proper(alts)
    ensures out == GlobalReplace(alts, sub, s, 0)
  {
    out := "";
    var start := 0;
    while true
      invariant 0 <= start <= |s|
      invariant GlobalReplace(alts, sub, s, 0) == out + GlobalReplace(alts, sub, s, start)
      decreases |s| - start
    {
      SearchBounds(alts, s, start);
      var m := Search(alts, s, start);
      if m == None {
        break;
      }
      out := out + s[start..m.value.start] + sub;
      start := Last(m.value.marks);
    }
    out := out + s[start..];
  }
}
