/** The white space normaliser applied to titles: three substitutions in a row. */
module Trim {
  import opened Common
  import opened Regex
  import opened Rules

  /** ^[\s]+ */
  const LEADING: seq<Pattern> := [[Start, Many(Space, 1, true)]]
  /** \s+$ */
  const TRAILING: seq<Pattern> := [[Many(Space, 1, true), End]]
  /** \s\s+ */
  const DOUBLED: seq<Pattern> := [[One(Space), Many(Space, 1, true)]]

  lemma PatternsProper()
    ensures Proper(LEADING) && Proper(TRAILING) && Proper(DOUBLED)
  {
  }

  // The rules as they are written in the program, and the pattern texts in them.
  const LEADING_TEXT := "^[\\s]+"
  const TRAILING_TEXT := "\\s+$"
  const DOUBLED_TEXT := "\\s\\s+"

  /** Each of the three rules is split as meant: pattern, replacement, flags. */
  lemma LeadingRule()
    ensures SplitSubst("s/^[\\s]+//") == Some(Subst(LEADING_TEXT, "", ""))
  {
    assert "s/^[\\s]+//" == Print(Subst(LEADING_TEXT, "", ""));
    SplitsAsPrinted(LEADING_TEXT, "", "");
  }

  lemma TrailingRule()
    ensures SplitSubst("s/\\s+$//") == Some(Subst(TRAILING_TEXT, "", ""))
  {
    assert "s/\\s+$//" == Print(Subst(TRAILING_TEXT, "", ""));
    SplitsAsPrinted(TRAILING_TEXT, "", "");
  }

  lemma DoubledRule()
    ensures SplitSubst("s/\\s\\s+/ /g") == Some(Subst(DOUBLED_TEXT, " ", "g"))
  {
    assert "s/\\s\\s+/ /g" == Print(Subst(DOUBLED_TEXT, " ", "g"));
    SplitsAsPrinted(DOUBLED_TEXT, " ", "g");
  }

  lemma SplitsAsPrinted(pat: string, sub: string, flags: string)
    requires '\n' !in pat && '\n' !in sub && '\n' !in flags && '/' !in sub && '/' !in flags
    ensures SplitSubst(Print(Subst(pat, sub, flags))) == Some(Subst(pat, sub, flags))
  {
    var r := Print(Subst(pat, sub, flags));
    assert forall c :: c in r ==> c != '\n';
    assert LineEnd(r) == |r| && Line(r) == r;
    SplitSubstIff(r, pat, sub, flags);
  }

  /** tr_subst with a pattern known to the program. An empty title is left as it is. */
  method ApplySubst(alts: seq<Pattern>, sub: string, flags: string, s: string) returns (r: string)
    requires Proper(alts)
    ensures r == if s == "" then ""
                 else if 'g' in flags then GlobalReplace(alts, sub, s, 0)
                 else Replace(alts, sub, s)
  {
    if s == "" {
      return s;
    }
    if 'g' in flags {
      r := ReplaceAll(alts, sub, s);
    } else {
      r := Replace(alts, sub, s);
    }
  }

  /** trim. */
  method TrimTitle(title: string) returns (s: string)
    ensures s == Trimmed(title)
  {
    PatternsProper();
    s := ApplySubst(LEADING, "", "", title);
    LeadingReplaced(title);
    s := ApplySubst(TRAILING, "", "", s);
    TrailingReplaced(WithoutLeading(title));
    s := ApplySubst(DOUBLED, " ", "g", s);
    DoubledReplaced(WithoutTrailing(WithoutLeading(title)), 0);
  }

  // ----- What the three passes do

  function WithoutLeading(s: string): string { s[Run(Space, s, 0)..] }

  function WithoutTrailing(s: string): string {
    if s != "" && IsSpace(s[|s| - 1]) then WithoutTrailing(s[..|s| - 1]) else s
  }

  /** The position behind what is treated at i, and what is put in its place. */
  function Next(s: string, i: nat): nat
    requires i < |s|
  {
    if Run(Space, s, i) >= 2 then i + Run(Space, s, i) else i + 1
  }

  function Piece(s: string, i: nat): char
    requires i < |s|
  {
    if Run(Space, s, i) >= 2 then ' ' else s[i]
  }

  /** s[i..] with every run of two or more white space characters made a single space. */
  function Squeezed(s: string, i: nat): string
    requires i <= |s|
    decreases |s| - i
  {
    if i == |s| then "" else [Piece(s, i)] + Squeezed(s, Next(s, i))
  }

  function Trimmed(s: string): string {
    Squeezed(WithoutTrailing(WithoutLeading(s)), 0)
  }

  lemma ManySpaces(s: string, i: nat)
    requires i <= |s|
    ensures Match([Many(Space, 1, true)], s, i)
         == if Run(Space, s, i) > 0 then Some([i + Run(Space, s, i)]) else None
  {
  }

  lemma LeadingReplaced(s: string)
    ensures Proper(LEADING) && (if s == "" then "" else Replace(LEADING, "", s)) == WithoutLeading(s)
  {
    PatternsProper();
    SearchAtStart(LEADING, s, 0);
    assert LEADING[0][1..] == [Many(Space, 1, true)];
    ManySpaces(s, 0);
    assert s[0..] == s;
  }

  /** Trailing white space is matched exactly from where it begins. */
  lemma SpacesToEnd(s: string, i: nat)
    requires i <= |s|
    ensures Match(TRAILING[0], s, i)
         == if i < |s| && i + Run(Space, s, i) == |s| then Some([|s|]) else None
  {
    var end: Pattern := [End];
    assert TRAILING[0][1..] == end && end[1..] == [];
    var n := Run(Space, s, i);
    if n > 0 && i + n == |s| {
      GreedyIsLargest(end, s, i, 1, n, n);
    } else {
      GreedyFails(end, s, i, 1, n);
    }
  }

  lemma {:induction false} TrailingLength(s: string)
    ensures var t := WithoutTrailing(s);
      && t <= s && (forall j :: |t| <= j < |s| ==> IsSpace(s[j]))
      && (t != "" ==> !IsSpace(t[|t| - 1]))
  {
    if s != "" && IsSpace(s[|s| - 1]) {
      TrailingLength(s[..|s| - 1]);
    }
  }

  lemma {:induction false} TrailingFound(s: string, i: nat)
    requires i <= |WithoutTrailing(s)| <= |s|
    ensures var t := WithoutTrailing(s);
      Search(TRAILING, s, i) == if t == s then None else Some(Found(|t|, [|s|]))
    decreases |s| - i
  {
    TrailingLength(s);
    var t := WithoutTrailing(s);
    MatchOnly(TRAILING, s, i);
    SpacesToEnd(s, i);
    if i < |t| {
      assert t[|t| - 1] == s[|t| - 1];
      assert i + Run(Space, s, i) != |s|;
      TrailingFound(s, i + 1);
    } else {
      assert i + Run(Space, s, i) == |s|;
    }
  }

  lemma TrailingReplaced(s: string)
    ensures Proper(TRAILING) && (if s == "" then "" else Replace(TRAILING, "", s)) == WithoutTrailing(s)
  {
    PatternsProper();
    TrailingLength(s);
    TrailingFound(s, 0);
  }

  lemma DoubledMatch(s: string, i: nat)
    requires i <= |s|
    ensures MatchAny(DOUBLED, s, i)
         == if Run(Space, s, i) >= 2 then Some([i + Run(Space, s, i)]) else None
  {
    MatchOnly(DOUBLED, s, i);
    assert DOUBLED[0][1..] == [Many(Space, 1, true)];
    if i < |s| && IsSpace(s[i]) {
      ManySpaces(s, i + 1);
    }
  }

  lemma DoubledStep(s: string, i: nat)
    requires i < |s|
    ensures Proper(DOUBLED)
    ensures GlobalReplace(DOUBLED, " ", s, i) == [Piece(s, i)] + GlobalReplace(DOUBLED, " ", s, Next(s, i))
  {
    PatternsProper();
    DoubledMatch(s, i);
    ReplaceStep(DOUBLED, " ", s, i);
    assert Last([i + Run(Space, s, i)]) == i + Run(Space, s, i);
  }

  lemma {:induction false} DoubledReplaced(s: string, i: nat)
    requires i <= |s|
    ensures Proper(DOUBLED) && GlobalReplace(DOUBLED, " ", s, i) == Squeezed(s, i)
    decreases |s| - i
  {
    PatternsProper();
    if i < |s| {
      DoubledStep(s, i);
      DoubledReplaced(s, Next(s, i));
    } else {
      ReplaceStep(DOUBLED, " ", s, i);
      DoubledMatch(s, i);
    }
  }

  // ----- The result is normal

  predicate SingleSpaced(s: string) {
    forall i :: 0 <= i < |s| - 1 ==> !(IsSpace(s[i]) && IsSpace(s[i + 1]))
  }

  /** No white space at either end, and none next to another. */
  predicate Normal(s: string) {
    SingleSpaced(s) && (s != "" ==> !IsSpace(s[0]) && !IsSpace(s[|s| - 1]))
  }

  lemma SqueezedHead(s: string, i: nat)
    requires i <= |s|
    ensures Squeezed(s, i) == "" <==> i == |s|
    ensures i < |s| ==> (IsSpace(Squeezed(s, i)[0]) <==> IsSpace(s[i]))
  {
  }

  lemma {:induction false} SqueezedIsSingle(s: string, i: nat)
    requires i <= |s|
    ensures SingleSpaced(Squeezed(s, i))
    decreases |s| - i
  {
    if i < |s| {
      var j := Next(s, i);
      SqueezedIsSingle(s, j);
      SqueezedHead(s, j);
      assert IsSpace(s[i]) && j < |s| ==> !IsSpace(s[j]);
      assert IsSpace(Piece(s, i)) <==> IsSpace(s[i]);
      SingleCons(Piece(s, i), Squeezed(s, j));
    }
  }

  lemma SingleCons(c: char, t: string)
    requires SingleSpaced(t) && (t != "" ==> !(IsSpace(c) && IsSpace(t[0])))
    ensures SingleSpaced([c] + t)
  {
  }

  lemma {:induction false} SqueezedLast(s: string, i: nat)
    requires i < |s| && !IsSpace(s[|s| - 1])
    ensures var t := Squeezed(s, i); t != "" && t[|t| - 1] == s[|s| - 1]
    decreases |s| - i
  {
    var j := Next(s, i);
    if j < |s| {
      SqueezedLast(s, j);
    } else {
      assert Run(Space, s, i) < 2;
    }
  }

  /** Whatever the title, the result has no white space at its ends and no two adjacent
      white space characters. */
  lemma TrimmedIsNormal(s: string)
    ensures Normal(Trimmed(s))
  {
    var a := WithoutLeading(s);
    var b := WithoutTrailing(a);
    TrailingLength(a);
    SqueezedIsSingle(b, 0);
    SqueezedHead(b, 0);
    if b != "" {
      SqueezedLast(b, 0);
    }
  }

  lemma {:induction false} SqueezedStays(s: string, i: nat)
    requires i <= |s| && SingleSpaced(s)
    ensures Squeezed(s, i) == s[i..]
    decreases |s| - i
  {
    if i < |s| {
      assert !(i + 1 < |s| && IsSpace(s[i]) && IsSpace(s[i + 1]));
      SqueezedStays(s, i + 1);
    }
  }

  /** A normal title is left unchanged; so trimming twice is the same as trimming once. */
  lemma NormalStays(s: string)
    requires Normal(s)
    ensures Trimmed(s) == s
  {
    assert WithoutLeading(s) == s;
    SqueezedStays(s, 0);
  }

  lemma TrimIdempotent(s: string)
    ensures Trimmed(Trimmed(s)) == Trimmed(s)
  {
    TrimmedIsNormal(s);
    NormalStays(Trimmed(s));
  }

  // ----- The words survive

  /** The maximal runs of non-space characters. */
  function Words(s: string): (ws: seq<string>)
    ensures s != "" && !IsSpace(s[0]) ==> ws != []
  {
    if s == "" then []
    else if IsSpace(s[0]) then Words(s[1..])
    else if |s| == 1 || IsSpace(s[1]) then [[s[0]]] + Words(s[1..])
    else
      var ws := Words(s[1..]);
      [[s[0]] + ws[0]] + ws[1..]
  }

  lemma {:induction false} WordsSkip(s: string, k: nat)
    requires k <= |s| && forall j :: 0 <= j < k ==> IsSpace(s[j])
    ensures Words(s) == Words(s[k..])
  {
    if k > 0 {
      WordsSkip(s[1..], k - 1);
      assert s[1..][k - 1..] == s[k..];
    } else {
      assert s[0..] == s;
    }
  }

  lemma {:induction false} WordsWithoutTail(s: string, n: nat)
    requires n <= |s| && forall j :: n <= j < |s| ==> IsSpace(s[j])
    ensures Words(s[..n]) == Words(s)
  {
    if n == 0 {
      WordsSkip(s, |s|);
    } else {
      assert s[..n][1..] == s[1..][..n - 1];
      WordsWithoutTail(s[1..], n - 1);
    }
  }

  /** t follows the text from position j on: it begins alike. */
  predicate Follows(t: string, s: string, j: nat)
    requires j <= |s|
  {
    if j == |s| then t == "" else t != "" && (IsSpace(t[0]) <==> IsSpace(s[j]))
  }

  lemma WordsAfterOne(s: string, i: nat, t: string)
    requires i < |s| && Words(t) == Words(s[i + 1..]) && Follows(t, s, i + 1)
    ensures Words([s[i]] + t) == Words(s[i..])
  {
  }

  lemma WordsAfterRun(s: string, i: nat, n: nat, t: string)
    requires i + n <= |s| && forall j :: i <= j < i + n ==> IsSpace(s[j])
    requires Words(t) == Words(s[i + n..])
    ensures Words([' '] + t) == Words(s[i..])
  {
    var u := s[i..];
    assert forall j :: 0 <= j < n ==> u[j] == s[i + j];
    WordsSkip(u, n);
    assert u[n..] == s[i + n..];
    assert ([' '] + t)[1..] == t;
  }

  lemma {:induction false} SqueezedWords(s: string, i: nat) returns (t: string)
    requires i <= |s|
    ensures t == Squeezed(s, i) && Words(t) == Words(s[i..]) && Follows(t, s, i)
    decreases |s| - i
  {
    SqueezedHead(s, i);
    if i == |s| {
      return "";
    }
    var u := SqueezedWords(s, Next(s, i));
    t := [Piece(s, i)] + u;
    if Run(Space, s, i) >= 2 {
      WordsAfterRun(s, i, Run(Space, s, i), u);
    } else {
      WordsAfterOne(s, i, u);
    }
  }

  /** Trimming keeps every word of the title and keeps the words apart. */
  lemma TrimKeepsWords(s: string)
    ensures Words(Trimmed(s)) == Words(s)
  {
    var a := WithoutLeading(s);
    WordsSkip(s, Run(Space, s, 0));
    TrailingLength(a);
    var b := WithoutTrailing(a);
    WordsWithoutTail(a, |b|);
    assert a[..|b|] == b && b[0..] == b;
    var _ := SqueezedWords(b, 0);
  }
}
