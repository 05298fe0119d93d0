/** Splitting an --exec command into arguments. */
module Tokenizer {
  import opened Common
  import opened Regex

  /** ["'](.*?)["']|\S+ */
  const ARGUMENT: seq<Pattern> :=
    [[One(Quote), Many(Dot, 0, false), One(Quote)], [Many(NonSpace, 1, true)]]

  /** ["'] */
  const QUOTES: seq<Pattern> := [[One(Quote)]]

  lemma PatternsProper()
    ensures Proper(ARGUMENT) && Proper(QUOTES)
  {
  }

  /** The tokens of s[i..]: the specification of the consuming loop. */
  function Tokens(s: string, i: nat): seq<string>
    requires i <= |s|
    decreases |s| - i
  {
    PatternsProper();
    SearchBounds(ARGUMENT, s, i);
    match Search(ARGUMENT, s, i)
    case None => []
    case Some(m) =>
      [GlobalReplace(QUOTES, "", s[m.start..Last(m.marks)], 0)] + Tokens(s, Last(m.marks))
  }

  /** tokenize: FindAndConsume until nothing matches. */
  method Tokenize(s: string) returns (dst: seq<string>)
    ensures dst == Tokens(s, 0)
  {
    PatternsProper();
    dst := [];
    var sp := 0;
    while true
      invariant 0 <= sp <= |s|
      invariant Tokens(s, 0) == dst + Tokens(s, sp)
      decreases |s| - sp
    {
      SearchBounds(ARGUMENT, s, sp);
      var m := Search(ARGUMENT, s, sp);
      if m == None {
        break;
      }
      var t := ReplaceAll(QUOTES, "", s[m.value.start..Last(m.value.marks)]);
      dst := dst + [t];
      sp := Last(m.value.marks);
    }
  }

  // ----- What the patterns match

  /** The first quote at i or later on the same line. */
  function ClosingQuote(s: string, i: nat): Option<nat>
    requires i <= |s|
    ensures ClosingQuote(s, i).Some? ==> i <= ClosingQuote(s, i).value < |s|
    decreases |s| - i
  {
    if i == |s| then None
    else if IsQuote(s[i]) then Some(i)
    else if s[i] == '\n' then None
    else ClosingQuote(s, i + 1)
  }

  lemma OneQuote(s: string, i: nat)
    requires i <= |s|
    ensures Match([One(Quote)], s, i) == if i < |s| && IsQuote(s[i]) then Some([i + 1]) else None
  {
  }

  lemma {:induction false} LazyQuote(s: string, i: nat, lo: nat)
    requires i <= |s| && lo <= Run(Dot, s, i)
    ensures MatchMany([One(Quote)], s, i, lo, Run(Dot, s, i), false)
         == match ClosingQuote(s, i + lo) case None => None case Some(c) => Some([c + 1])
    decreases Run(Dot, s, i) - lo
  {
    var hi := Run(Dot, s, i);
    OneQuote(s, i + lo);
    if lo < hi {
      assert In(s[i + lo], Dot);
      LazyQuote(s, i, lo + 1);
    } else {
      assert MatchMany([One(Quote)], s, i, lo + 1, hi, false) == None;
    }
  }

  /** The end of the token at i, none where there is white space. */
  function TokenEnd(s: string, i: nat): (e: Option<nat>)
    requires i <= |s|
    ensures e.Some? ==> i < e.value <= |s|
    ensures e == None <==> i == |s| || IsSpace(s[i])
  {
    if i == |s| || IsSpace(s[i]) then None
    else if IsQuote(s[i]) && ClosingQuote(s, i + 1).Some? then Some(ClosingQuote(s, i + 1).value + 1)
    else Some(i + Run(NonSpace, s, i))
  }

  lemma QuotedMatch(s: string, i: nat)
    requires i <= |s|
    ensures Match(ARGUMENT[0], s, i)
         == if i < |s| && IsQuote(s[i]) && ClosingQuote(s, i + 1).Some?
            then Some([ClosingQuote(s, i + 1).value + 1]) else None
  {
    var quoted: Pattern, lazy: Pattern := ARGUMENT[0], [Many(Dot, 0, false), One(Quote)];
    assert quoted[1..] == lazy && lazy[1..] == [One(Quote)];
    if i < |s| && IsQuote(s[i]) {
      LazyQuote(s, i + 1, 0);
      assert Match(quoted, s, i) == Match(lazy, s, i + 1);
    }
  }

  lemma BareMatch(s: string, i: nat)
    requires i <= |s|
    ensures Match(ARGUMENT[1], s, i)
         == if Run(NonSpace, s, i) > 0 then Some([i + Run(NonSpace, s, i)]) else None
  {
  }

  /** Quoted text up to the next quote on the line, or else a run of non-space. */
  lemma ArgumentMatch(s: string, i: nat)
    requires i <= |s|
    ensures MatchAny(ARGUMENT, s, i)
         == match TokenEnd(s, i) case None => None case Some(e) => Some([e])
  {
    var second: seq<Pattern> := ARGUMENT[1..];
    QuotedMatch(s, i);
    BareMatch(s, i);
    assert second[0] == ARGUMENT[1] && second[1..] == [];
    assert MatchAny(second, s, i) == Match(ARGUMENT[1], s, i);
  }

  /** Removes the quotes. */
  function Unquoted(s: string): string {
    if s == [] then []
    else (if IsQuote(s[0]) then [] else [s[0]]) + Unquoted(s[1..])
  }

  lemma {:induction false} QuotesRemoved(s: string, i: nat)
    requires i <= |s|
    ensures Proper(QUOTES) && GlobalReplace(QUOTES, "", s, i) == Unquoted(s[i..])
    decreases |s| - i
  {
    PatternsProper();
    ReplaceStep(QUOTES, "", s, i);
    OneQuote(s, i);
    if i < |s| {
      QuotesRemoved(s, i + 1);
      assert s[i..][1..] == s[i + 1..];
    }
  }

  /** The tokens of s[i..], one position at a time. */
  function Split(s: string, i: nat): seq<string>
    requires i <= |s|
    decreases |s| - i
  {
    if i == |s| then []
    else match TokenEnd(s, i)
      case None => Split(s, i + 1)
      case Some(e) => [Unquoted(s[i..e])] + Split(s, e)
  }

  /** The leftmost match finds the next token, wherever the search starts before it. */
  lemma {:induction false} SearchFindsToken(s: string, i: nat)
    requires i <= |s|
    ensures Search(ARGUMENT, s, i)
         == match TokenEnd(s, i)
            case Some(e) => Some(Found(i, [e]))
            case None => if i < |s| then Search(ARGUMENT, s, i + 1) else None
  {
    ArgumentMatch(s, i);
  }

  /** The consuming loop splits the command as described. */
  lemma {:induction false} TokensAreSplit(s: string, i: nat)
    requires i <= |s|
    ensures Tokens(s, i) == Split(s, i)
    decreases |s| - i
  {
    PatternsProper();
    SearchFindsToken(s, i);
    match TokenEnd(s, i)
    case Some(e) =>
      TokensAreSplit(s, e);
      QuotesRemoved(s[i..e], 0);
      assert s[i..e][0..] == s[i..e];
    case None =>
      if i < |s| {
        TokensAreSplit(s, i + 1);
      }
  }

  // ----- Conservation

  function NonSpaces(s: string): string {
    if s == [] then []
    else (if IsSpace(s[0]) then [] else [s[0]]) + NonSpaces(s[1..])
  }

  lemma {:induction false} NonSpacesAppend(a: string, b: string)
    ensures NonSpaces(a + b) == NonSpaces(a) + NonSpaces(b)
  {
    if a == [] {
      assert a + b == b;
    } else {
      assert (a + b)[1..] == a[1..] + b;
      NonSpacesAppend(a[1..], b);
    }
  }

  lemma {:induction false} UnquotedAppend(a: string, b: string)
    ensures Unquoted(a + b) == Unquoted(a) + Unquoted(b)
  {
    if a == [] {
      assert a + b == b;
    } else {
      assert (a + b)[1..] == a[1..] + b;
      UnquotedAppend(a[1..], b);
    }
  }

  lemma ConserveCons(t: string, ts: seq<string>, u: string)
    requires NonSpaces(Concat(ts)) == NonSpaces(u)
    ensures NonSpaces(Concat([t] + ts)) == NonSpaces(t + u)
  {
    assert Concat([t] + ts) == t + Concat(([t] + ts)[1..]);
    NonSpacesAppend(t, Concat(ts));
    NonSpacesAppend(t, u);
  }

  lemma UnquotedSplit(s: string, i: nat, e: nat)
    requires i <= e <= |s|
    ensures Unquoted(s[i..]) == Unquoted(s[i..e]) + Unquoted(s[e..])
  {
    UnquotedAppend(s[i..e], s[e..]);
    assert s[i..] == s[i..e] + s[e..];
  }

  lemma SkippedSpace(s: string, i: nat)
    requires i < |s| && IsSpace(s[i])
    ensures NonSpaces(Unquoted(s[i..])) == NonSpaces(Unquoted(s[i + 1..]))
  {
  }

  lemma {:induction false} SplitConserves(s: string, i: nat)
    requires i <= |s|
    ensures NonSpaces(Concat(Split(s, i))) == NonSpaces(Unquoted(s[i..]))
    decreases |s| - i
  {
    if i < |s| {
      match TokenEnd(s, i)
      case None =>
        SplitConserves(s, i + 1);
        SkippedSpace(s, i);
      case Some(e) =>
        SplitConserves(s, e);
        UnquotedSplit(s, i, e);
        ConserveCons(Unquoted(s[i..e]), Split(s, e), Unquoted(s[e..]));
    }
  }

  /** Between tokens only white space is skipped, and within them only quotes are dropped:
      apart from these every character of the command ends up in the arguments, in order. */
  lemma TokensConserve(s: string)
    ensures NonSpaces(Concat(Tokens(s, 0))) == NonSpaces(Unquoted(s))
  {
    TokensAreSplit(s, 0);
    SplitConserves(s, 0);
    assert s[0..] == s;
  }

  lemma {:induction false} ClosesOnLine(s: string, i: nat)
    requires i <= |s| && ClosingQuote(s, i).Some?
    ensures forall j :: i <= j <= ClosingQuote(s, i).value ==> s[j] != '\n'
    decreases |s| - i
  {
    if !IsQuote(s[i]) {
      ClosesOnLine(s, i + 1);
    }
  }

  /** A token of the text lies on one line. */
  lemma TokenOnLine(s: string, i: nat, e: nat)
    requires i <= |s| && TokenEnd(s, i) == Some(e)
    ensures i < e <= |s| && forall j :: i <= j < e ==> s[j] != '\n'
  {
    if IsQuote(s[i]) && ClosingQuote(s, i + 1).Some? {
      ClosesOnLine(s, i + 1);
    } else {
      assert Run(NonSpace, s, i) > 0;
      assert forall j :: i <= j < e ==> In(s[j], NonSpace);
    }
  }

  lemma {:induction false} UnquotedKeeps(s: string)
    ensures forall c :: c in Unquoted(s) ==> c in s && !IsQuote(c)
  {
    if s != [] {
      UnquotedKeeps(s[1..]);
    }
  }

  lemma {:induction false} SplitPlain(s: string, i: nat)
    requires i <= |s|
    ensures forall t :: t in Split(s, i) ==> Plain(t)
    decreases |s| - i
  {
    if i < |s| && TokenEnd(s, i).Some? {
      var e := TokenEnd(s, i).value;
      TokenOnLine(s, i, e);
      SplitPlain(s, e);
      UnquotedKeeps(s[i..e]);
      assert Plain(Unquoted(s[i..e]));
    } else if i < |s| {
      SplitPlain(s, i + 1);
    }
  }

  /** No argument holds a quote or a newline. */
  lemma TokensPlain(s: string)
    ensures forall t :: t in Tokens(s, 0) ==> Plain(t)
  {
    TokensAreSplit(s, 0);
    SplitPlain(s, 0);
  }

  lemma {:induction false} NoSplitIff(s: string, i: nat)
    requires i <= |s|
    ensures Split(s, i) == [] <==> forall j :: i <= j < |s| ==> IsSpace(s[j])
    decreases |s| - i
  {
    if i < |s| {
      NoSplitIff(s, i + 1);
    }
  }

  /** There is a program to run exactly when the command is not blank. */
  lemma NoTokensIff(s: string)
    ensures Tokens(s, 0) == [] <==> forall c :: c in s ==> IsSpace(c)
  {
    TokensAreSplit(s, 0);
    NoSplitIff(s, 0);
    assert forall j :: 0 <= j < |s| ==> s[j] in s;
  }

  // ----- Round trip

  function Quoted(a: string): string { ['"'] + a + ['"'] }

  /** Each argument in double quotes, separated by spaces. */
  function Print(args: seq<string>): string {
    if args == [] then ""
    else if |args| == 1 then Quoted(args[0])
    else Quoted(args[0]) + ([' '] + Print(args[1..]))
  }

  predicate Plain(a: string) {
    forall c :: c in a ==> !IsQuote(c) && c != '\n'
  }

  lemma {:induction false} ClosesAt(s: string, i: nat, e: nat)
    requires i <= e < |s| && IsQuote(s[e])
    requires Plain(s[i..e])
    ensures ClosingQuote(s, i) == Some(e)
    decreases e - i
  {
    if i < e {
      assert s[i] in s[i..e];
      assert forall c :: c in s[i + 1..e] ==> c in s[i..e];
      ClosesAt(s, i + 1, e);
    }
  }

  lemma {:induction false} UnquotedPlain(a: string)
    requires Plain(a)
    ensures Unquoted(a) == a
  {
    if a != [] {
      assert a[0] in a && forall c :: c in a[1..] ==> c in a;
      UnquotedPlain(a[1..]);
    }
  }

  lemma QuotedText(a: string)
    requires Plain(a)
    ensures Unquoted(Quoted(a)) == a
  {
    UnquotedAppend(['"'] + a, ['"']);
    UnquotedAppend(['"'], a);
    UnquotedPlain(a);
  }

  lemma QuotedAt(s: string, i: nat, a: string, rest: string)
    requires i <= |s| && s[i..] == Quoted(a) + rest
    ensures i + 2 + |a| <= |s| && s[i + 2 + |a|..] == rest
    ensures s[i..i + 2 + |a|] == Quoted(a) && s[i + 1..i + 1 + |a|] == a
    ensures s[i] == '"' && s[i + 1 + |a|] == '"'
  {
  }

  lemma QuotedEnd(s: string, i: nat, a: string, rest: string)
    requires i <= |s| && s[i..] == Quoted(a) + rest && Plain(a)
    ensures TokenEnd(s, i) == Some(i + 2 + |a|)
  {
    QuotedAt(s, i, a, rest);
    ClosesAt(s, i + 1, i + 1 + |a|);
  }

  lemma SplitAt(s: string, i: nat, e: nat, t: string)
    requires i <= |s| && TokenEnd(s, i) == Some(e) && t == Unquoted(s[i..e])
    ensures Split(s, i) == [t] + Split(s, e)
  {
  }

  /** The token that a printed argument gives. */
  lemma PrintedToken(s: string, i: nat, a: string, rest: string) returns (j: nat)
    requires i <= |s| && s[i..] == Quoted(a) + rest && Plain(a)
    ensures j <= |s| && s[j..] == rest
    ensures Split(s, i) == [a] + Split(s, j)
  {
    j := i + 2 + |a|;
    QuotedEnd(s, i, a, rest);
    QuotedAt(s, i, a, rest);
    SplitAt(s, i, j, a) by {
      QuotedText(a);
    }
  }

  lemma OnlyArgument(s: string, i: nat, a: string)
    requires i <= |s| && s[i..] == Quoted(a) && Plain(a)
    ensures Split(s, i) == [a]
  {
    assert Quoted(a) == Quoted(a) + [];
    var j := PrintedToken(s, i, a, []);
  }

  lemma DropFirst(s: string, j: nat, c: char, rest: string)
    requires j <= |s| && s[j..] == [c] + rest
    ensures j < |s| && s[j] == c && s[j + 1..] == rest
  {
    assert s[j..][1..] == s[j + 1..] && s[j..][0] == s[j];
  }

  lemma FirstArgument(s: string, i: nat, a: string, rest: string) returns (j: nat)
    requires i <= |s| && s[i..] == Quoted(a) + ([' '] + rest) && Plain(a)
    ensures j <= |s| && s[j..] == rest && Split(s, i) == [a] + Split(s, j)
  {
    var k := PrintedToken(s, i, a, [' '] + rest);
    DropFirst(s, k, ' ', rest);
    return k + 1;
  }

  lemma {:induction false} PrintedTokens(s: string, i: nat, args: seq<string>)
    requires i <= |s| && s[i..] == Print(args)
    requires forall a :: a in args ==> Plain(a)
    ensures Split(s, i) == args
    decreases |args|
  {
    if args != [] {
      assert args[0] in args && args == [args[0]] + args[1..];
      if |args| == 1 {
        OnlyArgument(s, i, args[0]);
      } else {
        var j := FirstArgument(s, i, args[0], Print(args[1..]));
        PrintedTokens(s, j, args[1..]);
      }
    }
  }

  /** Tokenizing what is printed gives the arguments back, empty ones included, exactly when
      none of them holds a quote or a newline. */
  lemma RoundTrip(args: seq<string>)
    ensures Tokens(Print(args), 0) == args <==> forall a :: a in args ==> Plain(a)
  {
    var s := Print(args);
    TokensAreSplit(s, 0);
    if forall a :: a in args ==> Plain(a) {
      assert s[0..] == s;
      PrintedTokens(s, 0, args);
    }
    TokensPlain(s);
  }

  // ----- Either quote will do

  /** The same text but for the kind of its quotes. */
  predicate Alike(s: string, t: string) {
    |s| == |t| && forall i :: 0 <= i < |s| ==> s[i] == t[i] || {s[i], t[i]} == {'"', '\''}
  }

  lemma {:induction false} AlikeClosing(s: string, t: string, i: nat)
    requires Alike(s, t) && i <= |s|
    ensures ClosingQuote(s, i) == ClosingQuote(t, i)
    decreases |s| - i
  {
    if i < |s| {
      AlikeChars(s[i], t[i]);
      AlikeClosing(s, t, i + 1);
    }
  }

  lemma AlikeChars(c: char, d: char)
    requires c == d || {c, d} == {'"', '\''}
    ensures IsQuote(c) == IsQuote(d) && IsSpace(c) == IsSpace(d) && (c == '\n' <==> d == '\n')
    ensures !IsQuote(c) ==> c == d
  {
    assert c in {c, d} && d in {c, d};
  }

  lemma {:induction false} AlikeRun(s: string, t: string, i: nat)
    requires Alike(s, t) && i <= |s|
    ensures Run(NonSpace, s, i) == Run(NonSpace, t, i)
    decreases |s| - i
  {
    if i < |s| {
      AlikeChars(s[i], t[i]);
      AlikeRun(s, t, i + 1);
    }
  }

  lemma {:induction false} AlikeUnquoted(s: string, t: string)
    requires Alike(s, t)
    ensures Unquoted(s) == Unquoted(t)
  {
    if s != "" {
      AlikeChars(s[0], t[0]);
      AlikeUnquoted(s[1..], t[1..]);
    }
  }

  lemma AlikeToken(s: string, t: string, i: nat)
    requires Alike(s, t) && i <= |s|
    ensures TokenEnd(s, i) == TokenEnd(t, i)
    ensures TokenEnd(s, i).Some? ==> Unquoted(s[i..TokenEnd(s, i).value]) == Unquoted(t[i..TokenEnd(s, i).value])
  {
    if i < |s| {
      AlikeChars(s[i], t[i]);
      AlikeClosing(s, t, i + 1);
      AlikeRun(s, t, i);
      if TokenEnd(s, i).Some? {
        AlikeUnquoted(s[i..TokenEnd(s, i).value], t[i..TokenEnd(s, i).value]);
      }
    }
  }

  lemma {:induction false} AlikeSplit(s: string, t: string, i: nat)
    requires Alike(s, t) && i <= |s|
    ensures Split(s, i) == Split(t, i)
    decreases |s| - i
  {
    if i < |s| {
      AlikeToken(s, t, i);
      match TokenEnd(s, i)
      case None => AlikeSplit(s, t, i + 1);
      case Some(e) =>
        var token := Unquoted(s[i..e]);
        SplitAt(s, i, e, token);
        SplitAt(t, i, e, token);
        AlikeSplit(s, t, e);
    }
  }

  /** Double and single quotes may be exchanged for each other anywhere in a command. */
  lemma QuotesAlike(s: string, t: string)
    requires Alike(s, t)
    ensures Tokens(s, 0) == Tokens(t, 0)
  {
    TokensAreSplit(s, 0);
    TokensAreSplit(t, 0);
    AlikeSplit(s, t, 0);
  }
}
