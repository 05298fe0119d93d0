/** What cc::exec hands to a program: the command template expanded, then tokenized. */
module Command {
  import opened Common
  import opened Regex
  import opened Template
  import opened Tokenizer

  function ExpandAll(ts: seq<string>, values: map<char, string>): seq<string> {
    if ts == [] then [] else [AllAtOnce(ts[0], values)] + ExpandAll(ts[1..], values)
  }

  /** What the first step of the expansion of s reads and writes. */
  function FirstRead(s: string, values: map<char, string>): nat {
    if s == "" then 0 else if s[0] == '%' && |s| >= 2 && s[1] in values then 2 else 1
  }

  lemma FirstStep(s: string, values: map<char, string>) returns (u: string)
    requires s != ""
    ensures u == if FirstRead(s, values) == 2 then values[s[1]] else [s[0]]
    ensures AllAtOnce(s, values) == u + AllAtOnce(s[FirstRead(s, values)..], values)
  {
    u := if FirstRead(s, values) == 2 then values[s[1]] else [s[0]];
  }

  /** Expansion goes piece by piece, unless a sequence lies across the joint. */
  lemma {:induction false} AtOnceAppend(a: string, b: string, values: map<char, string>)
    requires b == "" || b[0] !in values
    ensures AllAtOnce(a + b, values) == AllAtOnce(a, values) + AllAtOnce(b, values)
  {
    if a == "" {
      assert a + b == b;
    } else {
      var n := FirstRead(a, values);
      assert FirstRead(a + b, values) == n;
      var u := FirstStep(a, values);
      var v := FirstStep(a + b, values);
      assert (a + b)[n..] == a[n..] + b;
      AtOnceAppend(a[n..], b, values);
      Assoc(u, AllAtOnce(a[n..], values), AllAtOnce(b, values));
    }
  }

  /** Neither the quotes nor the separating spaces are part of a sequence. */
  predicate Separate(values: map<char, string>) {
    '"' !in values && ' ' !in values
  }

  lemma SingleStays(c: char, values: map<char, string>)
    ensures AllAtOnce([c], values) == [c]
  {
  }

  lemma QuotedExpands(t: string, values: map<char, string>)
    requires Separate(values)
    ensures AllAtOnce(Quoted(t), values) == Quoted(AllAtOnce(t, values))
  {
    SingleStays('"', values);
    AtOnceAppend(['"'] + t, ['"'], values);
    QuoteInFront(t, values);
  }

  lemma QuoteInFront(t: string, values: map<char, string>)
    ensures AllAtOnce(['"'] + t, values) == ['"'] + AllAtOnce(t, values)
  {
  }

  lemma SpaceInFront(t: string, values: map<char, string>)
    ensures AllAtOnce([' '] + t, values) == [' '] + AllAtOnce(t, values)
  {
  }

  lemma {:induction false} PrintedExpands(ts: seq<string>, values: map<char, string>)
    requires Separate(values)
    ensures AllAtOnce(Print(ts), values) == Print(ExpandAll(ts, values))
  {
    if ts != [] {
      QuotedExpands(ts[0], values);
      var more := ExpandAll(ts[1..], values);
      if |ts| == 1 {
        assert more == [];
      } else {
        PrintedExpands(ts[1..], values);
        AtOnceAppend(Quoted(ts[0]), [' '] + Print(ts[1..]), values);
        SpaceInFront(Print(ts[1..]), values);
        assert more != [] && ExpandAll(ts, values)[1..] == more;
      }
    }
  }

  lemma {:induction false} ExpandedIsPlain(t: string, values: map<char, string>)
    requires Plain(t) && forall k :: k in values ==> Plain(values[k])
    ensures Plain(AllAtOnce(t, values))
  {
    if t != "" {
      assert t[0] in t;
      assert forall c :: c in t[1..] ==> c in t;
      if t[0] == '%' && |t| >= 2 && t[1] in values {
        assert forall c :: c in t[2..] ==> c in t;
        ExpandedIsPlain(t[2..], values);
      } else {
        ExpandedIsPlain(t[1..], values);
      }
    }
  }

  lemma {:induction false} AllExpandedPlain(ts: seq<string>, values: map<char, string>)
    requires (forall t :: t in ts ==> Plain(t)) && forall k :: k in values ==> Plain(values[k])
    ensures forall a :: a in ExpandAll(ts, values) ==> Plain(a)
  {
    if ts != [] {
      assert ts[0] in ts;
      ExpandedIsPlain(ts[0], values);
      AllExpandedPlain(ts[1..], values);
    }
  }

  /** The arguments that a command leads to. */
  function Arguments(command: string, path: string, name: string, title: string): seq<string> {
    Tokens(Pass(Pass(Pass(command, 'f', path), 'n', name), 't', title), 0)
  }

  /** The program gets exactly the given arguments, each with its sequences expanded. */
  predicate Fits(ts: seq<string>, path: string, name: string, title: string) {
    Arguments(Print(ts), path, name, title) == ExpandAll(ts, map['f' := path, 'n' := name, 't' := title])
  }

  /** Neither arguments nor values hold a quote or newline, nor the values a backslash, and no
      pass makes a sequence arise. */
  predicate Whole(ts: seq<string>, path: string, name: string, title: string) {
    && (forall t :: t in ts ==> Plain(t))
    && Plain(path) && Plain(name) && Plain(title)
    && '\\' !in path && '\\' !in name && '\\' !in title
    && AllSettled(Print(ts), 'f', path, 'n', name, 't')
  }

  /** A command written as quoted arguments reaches the program with these arguments: a path
      or title full of spaces does not fall apart. */
  lemma ArgumentsStayWhole(ts: seq<string>, path: string, name: string, title: string)
    requires Whole(ts, path, name, title)
    ensures Fits(ts, path, name, title)
  {
    var values := map['f' := path, 'n' := name, 't' := title];
    ThreePassesAreOne(Print(ts), 'f', path, 'n', name, 't', title);
    PrintedExpands(ts, values);
    AllExpandedPlain(ts, values);
    RoundTrip(ExpandAll(ts, values));
  }

  /** The loop body of cc::exec up to the call of invoke_exec. Whatever the values, apart from
      white space and quotes the whole expanded command ends up in the arguments, none of
      which holds a quote or a newline. */
  method PrepareArguments(command: string, path: string, name: string, title: string) returns (args: seq<string>)
    ensures args == Arguments(command, path, name, title)
    ensures NonSpaces(Concat(args))
         == NonSpaces(Unquoted(Pass(Pass(Pass(command, 'f', path), 'n', name), 't', title)))
    ensures forall a :: a in args ==> Plain(a)
    ensures forall ts | command == Print(ts) && Whole(ts, path, name, title) ::
      args == ExpandAll(ts, map['f' := path, 'n' := name, 't' := title])
  {
    var e := ExpandCommand(command, path, name, title);
    args := Tokenize(e);
    TokensConserve(e);
    TokensPlain(e);
    forall ts | command == Print(ts) && Whole(ts, path, name, title)
      ensures args == ExpandAll(ts, map['f' := path, 'n' := name, 't' := title])
    {
      ArgumentsStayWhole(ts, path, name, title);
    }
  }

  // ----- The exact condition on the command

  lemma {:induction false} PercentsKept(s: string)
    ensures Percents(NonSpaces(Unquoted(s))) == Percents(s)
  {
    if s != "" {
      PercentsKept(s[1..]);
      var u := Unquoted(s[1..]);
      if !IsQuote(s[0]) {
        assert Unquoted(s) == [s[0]] + u && ([s[0]] + u)[1..] == u;
        if !IsSpace(s[0]) {
          PercentsCons(s[0], NonSpaces(u));
          assert NonSpaces([s[0]] + u) == [s[0]] + NonSpaces(u);
        } else {
          assert NonSpaces([s[0]] + u) == [] + NonSpaces(u) == NonSpaces(u);
        }
      } else {
        assert Unquoted(s) == [] + u == u;
      }
    }
  }

  /** A command whose expansion loses percent signs has other arguments. */
  lemma LostPercentsShow(ts: seq<string>, path: string, name: string, title: string)
    requires forall t :: t in ts ==> Plain(t)
    requires Plain(path) && Plain(name) && Plain(title)
    requires LosePercents(Print(ts), 'f', path, 'n', name, 't', title)
    ensures !Fits(ts, path, name, title)
  {
    var values := map['f' := path, 'n' := name, 't' := title];
    var e := Pass(Pass(Pass(Print(ts), 'f', path), 'n', name), 't', title);
    var d := AllAtOnce(Print(ts), values);
    PrintedExpands(ts, values);
    AllExpandedPlain(ts, values);
    RoundTrip(ExpandAll(ts, values));
    TokensConserve(e);
    TokensConserve(d);
    PercentsKept(e);
    PercentsKept(d);
  }

  predicate Ordinary(v: string) { Plain(v) && PercentFree(v) }

  lemma EscapedDoesNotFit(ts: seq<string>) returns (path: string, name: string)
    requires forall t :: t in ts ==> Plain(t)
    requires Escaped(Print(ts), 'f') || Escaped(Print(ts), 'n')
    ensures Ordinary(path) && Ordinary(name) && !Fits(ts, path, name, "")
  {
    if Escaped(Print(ts), 'f') {
      path, name := "n", "";
      FirstKeyEscaped(Print(ts), 'f', 'n', 't');
    } else {
      path, name := "", "t";
      SecondKeyEscaped(Print(ts), 'f', 'n', 't');
    }
    LostPercentsShow(ts, path, name, "");
  }

  lemma UnescapedFits(ts: seq<string>, path: string, name: string, title: string)
    requires forall t :: t in ts ==> Plain(t)
    requires Ordinary(path) && Ordinary(name) && Ordinary(title)
    requires !Escaped(Print(ts), 'f') && !Escaped(Print(ts), 'n')
    ensures Fits(ts, path, name, title)
  {
    PercentFreeIsHarmless(path, {'n', 't'});
    PercentFreeIsHarmless(name, {'t'});
    UnescapedSettles(Print(ts), 'f', path, 'n', name, 't');
    ArgumentsStayWhole(ts, path, name, title);
  }

  /** The arguments stay whole for all ordinary values exactly when the command contains
      neither %%f nor %%n. */
  lemma ArgumentsIff(ts: seq<string>)
    requires forall t :: t in ts ==> Plain(t)
    ensures (forall path, name, title | Ordinary(path) && Ordinary(name) && Ordinary(title) ::
               Fits(ts, path, name, title))
       <==> !Escaped(Print(ts), 'f') && !Escaped(Print(ts), 'n')
  {
    if Escaped(Print(ts), 'f') || Escaped(Print(ts), 'n') {
      var path, name := EscapedDoesNotFit(ts);
      assert Ordinary("");
    } else {
      forall path, name, title | Ordinary(path) && Ordinary(name) && Ordinary(title)
        ensures Fits(ts, path, name, title)
      {
        UnescapedFits(ts, path, name, title);
      }
    }
  }
}
