/** Title translation rules: splitting s/pat/sub/flags and /pat/flags at their slashes. */
module Rules {
  import opened Common
  import opened Regex

  const ANY := Many(Dot, 0, true)
  const SLASH := One(Is('/'))

  // The pieces of the two rule patterns, from the back.
  const LAST_GROUP: Pattern := [Mark, ANY, Mark, End]
  const SPLIT_ONE: Pattern := [Mark, SLASH] + LAST_GROUP
  const TWO_GROUPS: Pattern := [Mark, ANY] + SPLIT_ONE
  const SPLIT_TWO: Pattern := [Mark, SLASH] + TWO_GROUPS
  const THREE_GROUPS: Pattern := [Mark, ANY] + SPLIT_TWO

  /** ^\/(.*)\/(.*)$ */
  const FILTER_RULE: seq<Pattern> := [[Start, SLASH] + TWO_GROUPS]

  /** ^s\/(.*)\/(.*)\/(.*)$ */
  const SUBST_RULE: seq<Pattern> := [[Start, One(Is('s')), SLASH] + THREE_GROUPS]

  /** ^s\/ */
  const SUBST_START: seq<Pattern> := [[Start, One(Is('s')), SLASH]]

  datatype Rule =
    | Subst(pat: string, sub: string, flags: string)
    | Filter(pat: string, flags: string)

  function Slice(s: string, a: nat, b: nat): string {
    if a <= b <= |s| then s[a..b] else ""
  }

  /** tr_subst's reading of a rule; None is the error it throws. */
  function SplitSubst(r: string): Option<Rule> {
    match Search(SUBST_RULE, r, 0)
    case Some(Found(_, ms)) =>
      if |ms| >= 6 then Some(Subst(Slice(r, ms[0], ms[1]), Slice(r, ms[2], ms[3]), Slice(r, ms[4], ms[5])))
      else None
    case None => None
  }

  function SplitFilter(r: string): Option<Rule> {
    match Search(FILTER_RULE, r, 0)
    case Some(Found(_, ms)) =>
      if |ms| >= 4 then Some(Filter(Slice(r, ms[0], ms[1]), Slice(r, ms[2], ms[3])))
      else None
    case None => None
  }

  /** cc::re::tr: which of the two a rule is. */
  function Split(r: string): Option<Rule> {
    if Search(SUBST_START, r, 0).Some? then SplitSubst(r) else SplitFilter(r)
  }

  function Print(rule: Rule): string {
    match rule
    case Subst(pat, sub, flags) => "s/" + (pat + ("/" + (sub + ("/" + flags))))
    case Filter(pat, flags) => "/" + (pat + ("/" + flags))
  }

  /** Where the first line of s ends; a dot matches up to there and no further. */
  function LineEnd(s: string): (e: nat)
    ensures e <= |s| && (e < |s| ==> s[e] == '\n') && forall j :: 0 <= j < e ==> s[j] != '\n'
  {
    Run(Dot, s, 0)
  }

  function Line(s: string): string { s[..LineEnd(s)] }

  /** Nothing but possibly a newline follows the first line. */
  predicate SingleLine(s: string) { AtEnd(s, LineEnd(s)) }

  // ----- The greedy matches

  predicate NoSlash(s: string, a: nat, b: nat)
    requires b <= |s|
  {
    forall j :: a <= j < b ==> s[j] != '/'
  }

  /** The last slash in s[i..e]. */
  function LastSlash(s: string, i: nat, e: nat): Option<nat>
    requires i <= e <= |s|
    ensures var q := LastSlash(s, i, e);
      if q.Some? then i <= q.value < e && s[q.value] == '/' && NoSlash(s, q.value + 1, e)
      else NoSlash(s, i, e)
    decreases e - i
  {
    if e == i then None
    else if s[e - 1] == '/' then Some(e - 1)
    else LastSlash(s, i, e - 1)
  }

  lemma DotToLineEnd(s: string, i: nat)
    requires i <= LineEnd(s)
    ensures Run(Dot, s, i) == LineEnd(s) - i
  {
  }

  lemma LastGroupMatch(s: string, i: nat, e: nat)
    requires i <= e == LineEnd(s)
    ensures Match(LAST_GROUP, s, i) == if SingleLine(s) then Some([i, e, e]) else None
  {
    var rest: Pattern, end: Pattern := [Mark, End], [End];
    var many: Pattern := [ANY, Mark, End];
    assert LAST_GROUP[1..] == many && many[1..] == rest && rest[1..] == end && end[1..] == [];
    DotToLineEnd(s, i);
    assert [e] + [e] == [e, e] && [i] + [e, e] == [i, e, e];
    if SingleLine(s) {
      assert Match(rest, s, e) == Some([e, e]);
      GreedyIsLargest(rest, s, i, 0, e - i, e - i);
    } else {
      assert forall j :: i <= j <= e ==> !AtEnd(s, j);
      GreedyFails(rest, s, i, 0, e - i);
    }
  }

  lemma SplitOneMatch(s: string, p: nat, e: nat)
    requires p <= e == LineEnd(s)
    ensures Match(SPLIT_ONE, s, p)
         == if p < e && s[p] == '/' && SingleLine(s) then Some([p, p + 1, e, e]) else None
  {
    var tail: Pattern := [SLASH] + LAST_GROUP;
    assert SPLIT_ONE[1..] == tail && tail[1..] == LAST_GROUP;
    if p < e {
      LastGroupMatch(s, p + 1, e);
      assert [p] + [p + 1, e, e] == [p, p + 1, e, e];
    }
  }

  lemma TwoGroupsMatch(s: string, i: nat, e: nat)
    requires i <= e == LineEnd(s)
    ensures Match(TWO_GROUPS, s, i)
         == match LastSlash(s, i, e)
            case Some(q) => if SingleLine(s) then Some([i, q, q + 1, e, e]) else None
            case None => None
  {
    var tail: Pattern := [ANY] + SPLIT_ONE;
    assert TWO_GROUPS[1..] == tail && tail[1..] == SPLIT_ONE;
    DotToLineEnd(s, i);
    forall j | i <= j <= e
      ensures Match(SPLIT_ONE, s, j) == if j < e && s[j] == '/' && SingleLine(s) then Some([j, j + 1, e, e]) else None
    {
      SplitOneMatch(s, j, e);
    }
    var q := LastSlash(s, i, e);
    if q.Some? && SingleLine(s) {
      GreedyIsLargest(SPLIT_ONE, s, i, 0, e - i, q.value - i);
      assert [i] + [q.value, q.value + 1, e, e] == [i, q.value, q.value + 1, e, e];
    } else {
      GreedyFails(SPLIT_ONE, s, i, 0, e - i);
    }
  }

  lemma SplitTwoMatch(s: string, p: nat, e: nat)
    requires p <= e == LineEnd(s)
    ensures Match(SPLIT_TWO, s, p)
         == if p < e && s[p] == '/' && SingleLine(s) && LastSlash(s, p + 1, e).Some?
            then var q := LastSlash(s, p + 1, e).value; Some([p, p + 1, q, q + 1, e, e])
            else None
  {
    var tail: Pattern := [SLASH] + TWO_GROUPS;
    assert SPLIT_TWO[1..] == tail && tail[1..] == TWO_GROUPS;
    if p < e {
      TwoGroupsMatch(s, p + 1, e);
      var q := LastSlash(s, p + 1, e);
      if q.Some? {
        assert [p] + [p + 1, q.value, q.value + 1, e, e] == [p, p + 1, q.value, q.value + 1, e, e];
      }
    }
  }

  lemma ThreeGroupsMatch(s: string, i: nat, p: nat, q: nat, e: nat)
    requires i <= p < q < e == LineEnd(s) && SingleLine(s) && s[p] == '/' && s[q] == '/'
    requires NoSlash(s, p + 1, q) && NoSlash(s, q + 1, e)
    ensures Match(THREE_GROUPS, s, i) == Some([i, p, p + 1, q, q + 1, e, e])
  {
    var tail: Pattern := [ANY] + SPLIT_TWO;
    assert THREE_GROUPS[1..] == tail && tail[1..] == SPLIT_TWO;
    DotToLineEnd(s, i);
    forall j | p < j <= e ensures Match(SPLIT_TWO, s, j) == None {
      SplitTwoMatch(s, j, e);
      if q <= j < e {
        assert LastSlash(s, j + 1, e) == None;
      }
    }
    SplitTwoMatch(s, p, e);
    assert LastSlash(s, p + 1, e) == Some(q);
    GreedyIsLargest(SPLIT_TWO, s, i, 0, e - i, p - i);
    assert [i] + [p, p + 1, q, q + 1, e, e] == [i, p, p + 1, q, q + 1, e, e];
  }

  // ----- Splitting and printing are inverse

  lemma MatchOnly(alts: seq<Pattern>, s: string, i: nat)
    requires |alts| == 1 && i <= |s|
    ensures MatchAny(alts, s, i) == Match(alts[0], s, i)
  {
  }

  lemma {:induction false} SearchAtStart(alts: seq<Pattern>, s: string, i: nat)
    requires |alts| == 1 && alts[0] != [] && alts[0][0] == Start
    requires i <= |s|
    ensures Search(alts, s, i)
         == match Match(alts[0], s, 0)
            case Some(ms) => if i == 0 then Some(Found(0, ms)) else None
            case None => None
    decreases |s| - i
  {
    MatchOnly(alts, s, i);
    if i < |s| {
      SearchAtStart(alts, s, i + 1);
    }
  }

  /** The slashes at which a substitution rule may be split. */
  predicate SplitsAt(r: string, p: nat, q: nat) {
    && |r| >= 2 && r[0] == 's' && r[1] == '/'
    && 2 <= p < q < |r| && r[p] == '/' && r[q] == '/'
    && NoSlash(r, p + 1, q) && NoSlash(r, q + 1, |r|)
  }

  /** Behind "s/" the pattern is down to its groups. */
  lemma SubstPrefix(r: string)
    ensures Match(SUBST_RULE[0], r, 0)
         == if |r| >= 2 && r[0] == 's' && r[1] == '/' then Match(THREE_GROUPS, r, 2) else None
  {
    var whole := SUBST_RULE[0];
    var second: Pattern, third: Pattern := [One(Is('s')), SLASH] + THREE_GROUPS, [SLASH] + THREE_GROUPS;
    assert whole[1..] == second && second[1..] == third && third[1..] == THREE_GROUPS;
    assert Match(whole, r, 0) == Match(second, r, 0);
    if |r| >= 1 {
      assert Match(third, r, 1) == if |r| >= 2 && r[1] == '/' then Match(THREE_GROUPS, r, 2) else None;
    }
  }

  lemma SubstSplits(r: string, p: nat, q: nat)
    requires SingleLine(r) && SplitsAt(Line(r), p, q)
    ensures SplitSubst(r) == Some(Subst(Line(r)[2..p], Line(r)[p + 1..q], Line(r)[q + 1..]))
  {
    var e := LineEnd(r);
    SearchAtStart(SUBST_RULE, r, 0);
    SubstPrefix(r);
    assert r[p] == Line(r)[p] && r[q] == Line(r)[q] && r[0] == Line(r)[0] && r[1] == Line(r)[1];
    assert forall j :: 0 <= j < e ==> r[j] == Line(r)[j];
    ThreeGroupsMatch(r, 2, p, q, e);
    assert r[2..p] == Line(r)[2..p] && r[p + 1..q] == Line(r)[p + 1..q] && r[q + 1..e] == Line(r)[q + 1..];
  }

  /** Without two slashes behind the first one, or with a second line, there is nothing to
      split. */
  lemma SubstFails(r: string)
    requires !SingleLine(r) || forall p: nat, q: nat :: !SplitsAt(Line(r), p, q)
    ensures SplitSubst(r) == None
  {
    var e := LineEnd(r);
    SearchAtStart(SUBST_RULE, r, 0);
    SubstPrefix(r);
    if |r| >= 2 && r[0] == 's' && r[1] == '/' {
      var tail: Pattern := [ANY] + SPLIT_TWO;
      assert THREE_GROUPS[1..] == tail && tail[1..] == SPLIT_TWO;
      assert e >= 2;
      DotToLineEnd(r, 2);
      forall j | 2 <= j <= e ensures Match(SPLIT_TWO, r, j) == None {
        NoSplitTwo(r, j, e);
      }
      GreedyFails(SPLIT_TWO, r, 2, 0, e - 2);
    }
  }

  lemma NoSplitTwo(r: string, j: nat, e: nat)
    requires 2 <= j <= e == LineEnd(r) && r[0] == 's' && r[1] == '/'
    requires !SingleLine(r) || forall p: nat, q: nat :: !SplitsAt(Line(r), p, q)
    ensures Match(SPLIT_TWO, r, j) == None
  {
    SplitTwoMatch(r, j, e);
    if SingleLine(r) && j < e && r[j] == '/' && LastSlash(r, j + 1, e).Some? {
      var q := LastSlash(r, j + 1, e).value;
      var p := LastSlash(r, j, q).value;
      assert forall k :: 0 <= k < e ==> r[k] == Line(r)[k];
      assert SplitsAt(Line(r), p, q);
    }
  }

  lemma CutAt(r: string, a: nat, p: nat)
    requires a <= p < |r| && r[p] == '/'
    ensures r[a..] == r[a..p] + ("/" + r[p + 1..])
  {
  }

  /** A printed rule whose later pieces hold no slash can be split where it was joined. */
  lemma PrintedSubst(r: string, pat: string, sub: string, flags: string) returns (p: nat, q: nat)
    requires r == Print(Subst(pat, sub, flags)) && '/' !in sub && '/' !in flags
    ensures SplitsAt(r, p, q) && r[2..p] == pat && r[p + 1..q] == sub && r[q + 1..] == flags
  {
    p := 2 + |pat|;
    q := p + 1 + |sub|;
    assert forall j :: p < j < q ==> r[j] == sub[j - p - 1];
    assert forall j :: q < j < |r| ==> r[j] == flags[j - q - 1];
  }

  lemma SplitSubstPrints(r: string, p: nat, q: nat)
    requires SplitsAt(r, p, q)
    ensures r == Print(Subst(r[2..p], r[p + 1..q], r[q + 1..]))
    ensures '/' !in r[p + 1..q] && '/' !in r[q + 1..]
  {
    CutAt(r, 2, p);
    CutAt(r, p + 1, q);
    assert r == "s/" + r[2..];
  }

  /** A rule is split at the last two slashes of its line: whatever slashes pat contains, the
      pieces are the ones printed exactly when sub and flags hold none. A rule of more than
      one line is refused. */
  lemma SplitSubstIff(r: string, pat: string, sub: string, flags: string)
    ensures SplitSubst(r) == Some(Subst(pat, sub, flags))
       <==> SingleLine(r) && Line(r) == Print(Subst(pat, sub, flags)) && '/' !in sub && '/' !in flags
  {
    var line := Line(r);
    if !SingleLine(r) {
      SubstFails(r);
    } else if line == Print(Subst(pat, sub, flags)) && '/' !in sub && '/' !in flags {
      var p, q := PrintedSubst(line, pat, sub, flags);
      SubstSplits(r, p, q);
    } else if p: nat, q: nat :| SplitsAt(line, p, q) {
      SubstSplits(r, p, q);
      SplitSubstPrints(line, p, q);
    } else {
      SubstFails(r);
    }
  }

  // ----- Filter rules

  lemma FilterPrefix(r: string, e: nat)
    requires e == LineEnd(r)
    ensures Match(FILTER_RULE[0], r, 0)
         == if r != "" && r[0] == '/' && SingleLine(r) && LastSlash(r, 1, e).Some?
            then var q := LastSlash(r, 1, e).value; Some([1, q, q + 1, e, e])
            else None
  {
    var whole := FILTER_RULE[0];
    var second: Pattern := [SLASH] + TWO_GROUPS;
    assert whole[1..] == second && second[1..] == TWO_GROUPS;
    assert Match(whole, r, 0) == Match(second, r, 0);
    if r != "" && r[0] == '/' {
      assert e >= 1;
      TwoGroupsMatch(r, 1, e);
    }
  }

  /** The slash at which a filter rule may be split. */
  predicate FilterSplitsAt(line: string, q: nat) {
    1 <= q < |line| && line[0] == '/' && line[q] == '/' && NoSlash(line, q + 1, |line|)
  }

  lemma FilterSplits(r: string, q: nat)
    requires SingleLine(r) && FilterSplitsAt(Line(r), q)
    ensures SplitFilter(r) == Some(Filter(Line(r)[1..q], Line(r)[q + 1..]))
  {
    var e, line := LineEnd(r), Line(r);
    SearchAtStart(FILTER_RULE, r, 0);
    FilterPrefix(r, e);
    assert forall j :: 0 <= j < e ==> r[j] == line[j];
    assert LastSlash(r, 1, e) == Some(q);
    assert r[1..q] == line[1..q] && r[q + 1..e] == line[q + 1..];
  }

  lemma FilterFails(r: string)
    requires !SingleLine(r) || forall q: nat :: !FilterSplitsAt(Line(r), q)
    ensures SplitFilter(r) == None
  {
    var e, line := LineEnd(r), Line(r);
    SearchAtStart(FILTER_RULE, r, 0);
    FilterPrefix(r, e);
    if SingleLine(r) && r != "" && r[0] == '/' {
      var q := LastSlash(r, 1, e);
      assert forall j :: 0 <= j < e ==> r[j] == line[j];
      assert q.Some? ==> FilterSplitsAt(line, q.value);
    }
  }

  lemma PrintedFilter(line: string, pat: string, flags: string)
    requires line == Print(Filter(pat, flags)) && '/' !in flags
    ensures var q := 1 + |pat|;
      FilterSplitsAt(line, q) && line[1..q] == pat && line[q + 1..] == flags
  {
  }

  lemma SplitFilterPrints(line: string, q: nat)
    requires FilterSplitsAt(line, q)
    ensures line == Print(Filter(line[1..q], line[q + 1..])) && '/' !in line[q + 1..]
  {
  }

  /** A filter rule is split at the last slash of its line. */
  lemma SplitFilterIff(r: string, pat: string, flags: string)
    ensures SplitFilter(r) == Some(Filter(pat, flags))
       <==> SingleLine(r) && Line(r) == Print(Filter(pat, flags)) && '/' !in flags
  {
    var line := Line(r);
    if !SingleLine(r) {
      FilterFails(r);
    } else if line == Print(Filter(pat, flags)) && '/' !in flags {
      PrintedFilter(line, pat, flags);
      FilterSplits(r, 1 + |pat|);
    } else if q: nat :| FilterSplitsAt(line, q) {
      FilterSplits(r, q);
      SplitFilterPrints(line, q);
    } else {
      FilterFails(r);
    }
  }

  // ----- Which of the two a rule is

  predicate StartsAsSubst(r: string) { |r| >= 2 && r[0] == 's' && r[1] == '/' }

  lemma SubstStartIff(r: string)
    ensures Search(SUBST_START, r, 0).Some? <==> StartsAsSubst(r)
  {
    SearchAtStart(SUBST_START, r, 0);
    var whole := SUBST_START[0];
    var second: Pattern, third: Pattern := [One(Is('s')), SLASH], [SLASH];
    assert whole[1..] == second && second[1..] == third && third[1..] == [];
    assert Match(whole, r, 0) == Match(second, r, 0);
    if |r| >= 1 {
      assert Match(third, r, 1).Some? <==> |r| >= 2 && r[1] == '/';
    }
  }

  /** All pieces but the first are free of slashes. */
  predicate Separable(rule: Rule) {
    match rule
    case Subst(_, sub, flags) => '/' !in sub && '/' !in flags
    case Filter(_, flags) => '/' !in flags
  }

  lemma LineStarts(r: string)
    ensures StartsAsSubst(r) <==> StartsAsSubst(Line(r))
  {
    assert forall j :: 0 <= j < LineEnd(r) ==> r[j] == Line(r)[j];
  }

  lemma PrintStarts(rule: Rule)
    ensures StartsAsSubst(Print(rule)) <==> rule.Subst?
  {
  }

  /** cc::re::tr reads a rule as the one whose printed form is its line: a substitution or a
      filter, by its beginning, and split as far behind as possible. */
  lemma SplitIff(r: string, rule: Rule)
    ensures Split(r) == Some(rule) <==> SingleLine(r) && Line(r) == Print(rule) && Separable(rule)
  {
    SubstStartIff(r);
    LineStarts(r);
    PrintStarts(rule);
    match rule
    case Subst(pat, sub, flags) => SplitSubstIff(r, pat, sub, flags);
    case Filter(pat, flags) => SplitFilterIff(r, pat, flags);
  }

  lemma NoNewline(r: string)
    requires '\n' !in r
    ensures Line(r) == r && SingleLine(r)
  {
    assert forall i :: 0 <= i < |r| ==> r[i] in r;
  }

  /** A printed rule is read back. */
  lemma PrintSplitRoundTrip(rule: Rule)
    requires '\n' !in Print(rule)
    ensures Split(Print(rule)) == Some(rule) <==> Separable(rule)
  {
    NoNewline(Print(rule));
    SplitIff(Print(rule), rule);
  }

  /** A line that begins with "s/" and has two more slashes, or begins with a slash and has
      one more. */
  ghost predicate HasSlashes(line: string) {
    if StartsAsSubst(line) then exists p, q :: 2 <= p < q < |line| && line[p] == '/' && line[q] == '/'
    else line != "" && line[0] == '/' && exists q :: 1 <= q < |line| && line[q] == '/'
  }

  /** Exactly these are accepted; every other rule is an error. */
  lemma SplitAcceptsIff(r: string)
    ensures Split(r).Some? <==> SingleLine(r) && HasSlashes(Line(r))
  {
    if Split(r).Some? {
      SplitIff(r, Split(r).value);
      PrintHasSlashes(Split(r).value);
    }
    if SingleLine(r) && HasSlashes(Line(r)) {
      var rule := RuleOf(Line(r));
      SplitIff(r, rule);
    }
  }

  lemma PrintHasSlashes(rule: Rule)
    ensures HasSlashes(Print(rule))
  {
    var line := Print(rule);
    match rule
    case Subst(pat, sub, flags) =>
      assert line[2 + |pat|] == '/' && line[3 + |pat| + |sub|] == '/';
    case Filter(pat, flags) =>
      assert line[1 + |pat|] == '/';
  }

  lemma RuleOf(line: string) returns (rule: Rule)
    requires HasSlashes(line)
    ensures line == Print(rule) && Separable(rule)
  {
    if StartsAsSubst(line) {
      var i, j :| 2 <= i < j < |line| && line[i] == '/' && line[j] == '/';
      var q := LastSlash(line, 2, |line|).value;
      var p := LastSlash(line, 2, q).value;
      SplitSubstPrints(line, p, q);
      rule := Subst(line[2..p], line[p + 1..q], line[q + 1..]);
    } else {
      var q := LastSlash(line, 1, |line|).value;
      SplitFilterPrints(line, q);
      rule := Filter(line[1..q], line[q + 1..]);
    }
  }
}
