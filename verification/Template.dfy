/** The % sequences of --filename-format and --exec: three global replacements in a row. */
module Template {
  import opened Common
  import opened Regex

  function KeyPattern(k: char): seq<Pattern> { [[One(Is('%')), One(Is(k))]] }

  lemma KeyProper(k: char)
    ensures Proper(KeyPattern(k))
  {
  }

  /** RE::Rewrite for a pattern without groups: a backslash before 0 stands for the match,
      before a backslash for itself, and otherwise ends the replacement. */
  function Rewrite(v: string, matched: string): string {
    if v == "" then ""
    else if v[0] != '\\' then [v[0]] + Rewrite(v[1..], matched)
    else if |v| == 1 then ""
    else if v[1] == '0' then matched + Rewrite(v[2..], matched)
    else if v[1] == '\\' then ['\\'] + Rewrite(v[2..], matched)
    else ""
  }

  /** One pass: every %k becomes the value. */
  function Pass(s: string, k: char, v: string): string {
    KeyProper(k);
    GlobalReplace(KeyPattern(k), Rewrite(v, ['%', k]), s, 0)
  }

  /** exec: the file's path, name and title in a command. */
  method ExpandCommand(command: string, path: string, name: string, title: string) returns (e: string)
    ensures e == Pass(Pass(Pass(command, 'f', path), 'n', name), 't', title)
    ensures AllSettled(command, 'f', path, 'n', name, 't') && '\\' !in path && '\\' !in name && '\\' !in title
        ==> e == AllAtOnce(command, map['f' := path, 'n' := name, 't' := title])
  {
    KeyProper('f');
    KeyProper('n');
    KeyProper('t');
    e := command;
    e := ReplaceAll(KeyPattern('f'), Rewrite(path, "%f"), e);
    e := ReplaceAll(KeyPattern('n'), Rewrite(name, "%n"), e);
    e := ReplaceAll(KeyPattern('t'), Rewrite(title, "%t"), e);
    if AllSettled(command, 'f', path, 'n', name, 't') && '\\' !in path && '\\' !in name && '\\' !in title {
      ThreePassesAreOne(command, 'f', path, 'n', name, 't', title);
    }
  }

  /** file::_init: the media's extension, id and (cleaned up) title in a file name. */
  method ExpandFileName(format: string, ext: string, id: string, title: string) returns (e: string)
    ensures AllSettled(format, 's', ext, 'i', id, 't') && '\\' !in ext && '\\' !in id && '\\' !in title
        ==> e == AllAtOnce(format, map['s' := ext, 'i' := id, 't' := title])
    ensures e == Pass(Pass(Pass(format, 's', ext), 'i', id), 't', title)
  {
    KeyProper('s');
    KeyProper('i');
    KeyProper('t');
    e := format;
    e := ReplaceAll(KeyPattern('s'), Rewrite(ext, "%s"), e);
    e := ReplaceAll(KeyPattern('i'), Rewrite(id, "%i"), e);
    e := ReplaceAll(KeyPattern('t'), Rewrite(title, "%t"), e);
    if AllSettled(format, 's', ext, 'i', id, 't') && '\\' !in ext && '\\' !in id && '\\' !in title {
      ThreePassesAreOne(format, 's', ext, 'i', id, 't', title);
    }
  }

  // ----- The reference: one left-to-right pass for all keys

  function AllAtOnce(s: string, values: map<char, string>): string {
    if s == "" then ""
    else if s[0] == '%' && |s| >= 2 && s[1] in values then values[s[1]] + AllAtOnce(s[2..], values)
    else [s[0]] + AllAtOnce(s[1..], values)
  }

  lemma KeyMatch(s: string, k: char, i: nat)
    requires i <= |s|
    ensures MatchAny(KeyPattern(k), s, i)
         == if i + 2 <= |s| && s[i] == '%' && s[i + 1] == k then Some([i + 2]) else None
  {
    var p: Pattern, q: Pattern := KeyPattern(k)[0], [One(Is(k))];
    assert p[1..] == q && q[1..] == [];
    assert MatchAny(KeyPattern(k)[1..], s, i) == None;
    if i < |s| {
      assert Match(q, s, i + 1) == if i + 1 < |s| && s[i + 1] == k then Some([i + 2]) else None;
    }
  }

  lemma {:induction false} ReplacedIsAllAtOnce(s: string, k: char, sub: string, i: nat)
    requires i <= |s|
    ensures Proper(KeyPattern(k))
    ensures GlobalReplace(KeyPattern(k), sub, s, i) == AllAtOnce(s[i..], map[k := sub])
    decreases |s| - i
  {
    KeyProper(k);
    ReplaceStep(KeyPattern(k), sub, s, i);
    KeyMatch(s, k, i);
    if i < |s| {
      assert s[i..][1..] == s[i + 1..];
      if i + 2 <= |s| && s[i] == '%' && s[i + 1] == k {
        assert s[i..][2..] == s[i + 2..];
        ReplacedIsAllAtOnce(s, k, sub, i + 2);
      } else {
        ReplacedIsAllAtOnce(s, k, sub, i + 1);
      }
    }
  }

  lemma {:induction false} RewriteLength(v: string, matched: string)
    requires '\\' !in matched
    ensures Backslashes(Rewrite(v, matched)) <= Backslashes(v)
    ensures '\\' in v ==> Backslashes(Rewrite(v, matched)) < Backslashes(v)
    ensures '\\' !in v ==> Rewrite(v, matched) == v
  {
    if v != "" {
      if v[0] != '\\' {
        RewriteLength(v[1..], matched);
      } else if |v| > 1 {
        RewriteLength(v[2..], matched);
        NoBackslashes(matched);
        BackslashesAppend(matched, Rewrite(v[2..], matched));
        assert Backslashes(v) == 1 + Backslashes(v[1..]);
        assert v[1..][1..] == v[2..];
      }
    }
  }

  function Backslashes(s: string): nat {
    if s == "" then 0 else (if s[0] == '\\' then 1 else 0) + Backslashes(s[1..])
  }

  lemma {:induction false} NoBackslashes(s: string)
    requires '\\' !in s
    ensures Backslashes(s) == 0
  {
    if s != "" {
      NoBackslashes(s[1..]);
    }
  }

  lemma {:induction false} BackslashesAppend(a: string, b: string)
    ensures Backslashes(a + b) == Backslashes(a) + Backslashes(b)
  {
    if a == "" {
      assert a + b == b;
    } else {
      assert (a + b)[1..] == a[1..] + b;
      BackslashesAppend(a[1..], b);
    }
  }

  /** A value is inserted as it is exactly when it holds no backslash. */
  lemma LiteralIff(v: string, k: char)
    requires k != '\\'
    ensures Rewrite(v, ['%', k]) == v <==> '\\' !in v
  {
    RewriteLength(v, ['%', k]);
  }

  /** A character, a backslash doubled. */
  function Twice(c: char): string { if c == '\\' then ['\\', '\\'] else [c] }

  function Doubled(v: string): string {
    if v == "" then "" else Twice(v[0]) + Doubled(v[1..])
  }

  lemma TwiceIsOnce(c: char, w: string, more: string, matched: string)
    requires w == Twice(c) + more
    ensures Rewrite(w, matched) == [c] + Rewrite(more, matched)
  {
    assert w[|Twice(c)|..] == more;
  }

  lemma DoubledCons(v: string, rest: string) returns (more: string)
    requires v != ""
    ensures more == Doubled(v[1..]) + rest && Doubled(v) + rest == Twice(v[0]) + more
  {
    more := Doubled(v[1..]) + rest;
  }

  lemma ConsHead(v: string, s: string)
    requires v != ""
    ensures [v[0]] + (v[1..] + s) == v + s
  {
  }

  lemma {:induction false} DoubledStart(v: string, w: string, rest: string, matched: string)
    requires w == Doubled(v) + rest
    ensures Rewrite(w, matched) == v + Rewrite(rest, matched)
  {
    if v == "" {
      assert w == rest;
    } else {
      var more := DoubledCons(v, rest);
      DoubledStart(v[1..], more, rest, matched);
      TwiceIsOnce(v[0], w, more, matched);
      ConsHead(v, Rewrite(rest, matched));
    }
  }

  /** With its backslashes doubled a value is inserted as it is; then a backslash before 0
      inserts the sequence itself, and one before another character, or at the end, drops the
      rest of the value. */
  lemma DoubledIsLiteral(v: string, rest: string, matched: string)
    ensures Rewrite(Doubled(v), matched) == v
    ensures Rewrite(Doubled(v) + (['\\', '0'] + rest), matched) == v + (matched + Rewrite(rest, matched))
    ensures rest == "" || (rest[0] != '0' && rest[0] != '\\') ==>
      Rewrite(Doubled(v) + (['\\'] + rest), matched) == v
  {
    DoubledStart(v, Doubled(v), "", matched);
    assert Doubled(v) + "" == Doubled(v) && v + "" == v;
    DoubledStart(v, Doubled(v) + (['\\', '0'] + rest), ['\\', '0'] + rest, matched);
    assert (['\\', '0'] + rest)[2..] == rest;
    DoubledStart(v, Doubled(v) + (['\\'] + rest), ['\\'] + rest, matched);
  }

  lemma PassIsAllAtOnce(s: string, k: char, v: string)
    requires k != '\\' && '\\' !in v
    ensures Pass(s, k, v) == AllAtOnce(s, map[k := v])
  {
    LiteralIff(v, k);
    ReplacedIsAllAtOnce(s, k, v, 0);
    assert s[0..] == s;
  }

  // ----- One pass, and the others after it

  /** In u, with t behind it, no percent sign is followed by one of the given keys. */
  predicate Quiet(u: string, t: string, keys: set<char>) {
    forall i :: 0 <= i < |u| && u[i] == '%' && i + 1 < |u + t| ==> (u + t)[i + 1] !in keys
  }

  /** Putting v in for %k makes no sequence for a later key that was not there before: not
      inside v, and not across the joints on either side of it. */
  predicate Settled(s: string, k: char, v: string, later: set<char>)
    decreases |s|
  {
    if s == "" then true
    else if s[0] == '%' && |s| >= 2 && s[1] == k then
      Quiet(v, AllAtOnce(s[2..], map[k := v]), later) && Settled(s[2..], k, v, later)
    else if s[0] == '%' && |s| >= 2 && s[1] in later then Settled(s[2..], k, v, later)
    else Quiet([s[0]], AllAtOnce(s[1..], map[k := v]), later) && Settled(s[1..], k, v, later)
  }

  lemma QuietTail(u: string, t: string, keys: set<char>)
    requires u != ""
    ensures Quiet(u, t, keys)
       <==> Quiet(u[1..], t, keys) && (u[0] == '%' && |u + t| > 1 ==> (u + t)[1] !in keys)
  {
    var w := u[1..];
    assert u + t == [u[0]] + (w + t);
    forall i | 0 <= i < |w| && w[i] == '%' && i + 1 < |w + t| && Quiet(u, t, keys)
      ensures (w + t)[i + 1] !in keys
    {
      assert u[i + 1] == '%' && (u + t)[i + 2] == (w + t)[i + 1];
    }
    forall i | 0 < i < |u| && u[i] == '%' && i + 1 < |u + t| && Quiet(w, t, keys)
      ensures (u + t)[i + 1] !in keys
    {
      assert w[i - 1] == '%' && (u + t)[i + 1] == (w + t)[i];
    }
  }

  /** What is quiet comes through a later pass unchanged. */
  lemma {:induction false} QuietPrefix(u: string, t: string, values: map<char, string>)
    requires Quiet(u, t, values.Keys)
    ensures AllAtOnce(u + t, values) == u + AllAtOnce(t, values)
  {
    if u == "" {
      assert u + t == t;
    } else {
      QuietTail(u, t, values.Keys);
      assert (u + t)[1..] == u[1..] + t;
      QuietPrefix(u[1..], t, values);
    }
  }

  lemma SequenceInFront(c: char, t: string, values: map<char, string>)
    ensures AllAtOnce(['%', c] + t, values)
         == if c in values then values[c] + AllAtOnce(t, values) else ['%'] + AllAtOnce([c] + t, values)
    ensures c != '%' ==> AllAtOnce([c] + t, values) == [c] + AllAtOnce(t, values)
  {
    assert (['%', c] + t)[2..] == t && (['%', c] + t)[1..] == [c] + t && ([c] + t)[1..] == t;
  }

  lemma CutTwo(s: string)
    requires |s| >= 2
    ensures s == [s[0], s[1]] + s[2..]
  {
  }

  /** A sequence for a later key passes the pass for k and is replaced by the next. */
  lemma SequencePasses(s: string, k: char, v: string, values: map<char, string>)
    requires |s| >= 2 && s[0] == '%' && s[1] in values && k !in values && '%' !in values
    ensures AllAtOnce(AllAtOnce(s, map[k := v]), values)
         == values[s[1]] + AllAtOnce(AllAtOnce(s[2..], map[k := v]), values)
  {
    var t := AllAtOnce(s[2..], map[k := v]);
    CutTwo(s);
    SequenceInFront(s[1], s[2..], map[k := v]);
    SequenceInFront(s[1], t, values);
    assert ['%'] + ([s[1]] + t) == ['%', s[1]] + t;
  }

  /** A pass for k before a pass for the other keys is a pass for all of them, if no
      sequence arises. */
  lemma {:induction false} PassesMerge(s: string, k: char, v: string, values: map<char, string>)
    requires k !in values && k != '%' && '%' !in values
    requires Settled(s, k, v, values.Keys)
    ensures AllAtOnce(AllAtOnce(s, map[k := v]), values) == AllAtOnce(s, values[k := v])
  {
    if s != "" {
      if s[0] == '%' && |s| >= 2 && s[1] == k {
        PassesMerge(s[2..], k, v, values);
        QuietPrefix(v, AllAtOnce(s[2..], map[k := v]), values);
      } else if s[0] == '%' && |s| >= 2 && s[1] in values {
        PassesMerge(s[2..], k, v, values);
        SequencePasses(s, k, v, values);
      } else {
        PassesMerge(s[1..], k, v, values);
        QuietPrefix([s[0]], AllAtOnce(s[1..], map[k := v]), values);
      }
    }
  }

  /** The later keys, all with empty values. */
  function Empties(keys: set<char>): map<char, string> { map c | c in keys :: "" }

  function Percents(s: string): nat {
    if s == "" then 0 else (if s[0] == '%' then 1 else 0) + Percents(s[1..])
  }

  lemma {:induction false} PercentsAppend(a: string, b: string)
    ensures Percents(a + b) == Percents(a) + Percents(b)
  {
    if a == "" {
      assert a + b == b;
    } else {
      assert (a + b)[1..] == a[1..] + b;
      PercentsAppend(a[1..], b);
    }
  }

  lemma PercentsCons(c: char, s: string)
    ensures Percents([c] + s) == (if c == '%' then 1 else 0) + Percents(s)
  {
    assert ([c] + s)[1..] == s;
  }

  lemma {:induction false} FewerUnlessQuiet(u: string, t: string, keys: set<char>)
    requires '%' !in keys
    ensures var e := Empties(keys);
      var l, r := Percents(AllAtOnce(u + t, e)), Percents(u) + Percents(AllAtOnce(t, e));
      l <= r && (!Quiet(u, t, keys) ==> l < r)
  {
    if u == "" {
      assert u + t == t;
    } else {
      var e := Empties(keys);
      assert e.Keys == keys;
      QuietTail(u, t, keys);
      var w := u[1..] + t;
      assert (u + t)[1..] == w;
      FewerUnlessQuiet(u[1..], t, keys);
      if u[0] == '%' && w != "" && w[0] in keys {
        assert (u + t)[1] == w[0] && (u + t)[2..] == w[1..];
        PercentsCons(w[0], AllAtOnce(w[1..], e));
        PercentsAppend("", AllAtOnce(w[1..], e));
      } else {
        PercentsCons(u[0], AllAtOnce(w, e));
      }
    }
  }

  /** A sequence that arises takes a percent sign away: with empty values there are fewer. */
  lemma {:induction false} FewerUnlessSettled(s: string, k: char, v: string, later: set<char>)
    requires k !in later && k != '%' && '%' !in later
    ensures var e := Empties(later);
      var l, r := Percents(AllAtOnce(AllAtOnce(s, map[k := v]), e)), Percents(AllAtOnce(s, e[k := v]));
      l <= r && (!Settled(s, k, v, later) ==> l < r)
  {
    var e := Empties(later);
    if s != "" {
      if s[0] == '%' && |s| >= 2 && s[1] == k {
        FewerUnlessSettled(s[2..], k, v, later);
        FewerUnlessQuiet(v, AllAtOnce(s[2..], map[k := v]), later);
        PercentsAppend(v, AllAtOnce(s[2..], e[k := v]));
      } else if s[0] == '%' && |s| >= 2 && s[1] in later {
        FewerUnlessSettled(s[2..], k, v, later);
        SequencePasses(s, k, v, e);
        PercentsAppend("", AllAtOnce(AllAtOnce(s[2..], map[k := v]), e));
        PercentsAppend("", AllAtOnce(s[2..], e[k := v]));
      } else {
        FewerUnlessSettled(s[1..], k, v, later);
        FewerUnlessQuiet([s[0]], AllAtOnce(s[1..], map[k := v]), later);
        PercentsCons(s[0], AllAtOnce(s[1..], e[k := v]));
        PercentsCons(s[0], "");
        assert [s[0]] + "" == [s[0]];
      }
    }
  }

  /** One pass can be made before the others, whatever values these bring. */
  ghost predicate Mergeable(s: string, k: char, v: string, later: set<char>) {
    forall values: map<char, string> | values.Keys == later ::
      AllAtOnce(AllAtOnce(s, map[k := v]), values) == AllAtOnce(s, values[k := v])
  }

  lemma MergeIff(s: string, k: char, v: string, later: set<char>)
    requires k !in later && k != '%' && '%' !in later
    ensures Mergeable(s, k, v, later) <==> Settled(s, k, v, later)
  {
    if Settled(s, k, v, later) {
      forall values: map<char, string> | values.Keys == later
        ensures AllAtOnce(AllAtOnce(s, map[k := v]), values) == AllAtOnce(s, values[k := v])
      {
        PassesMerge(s, k, v, values);
      }
    } else {
      var e := Empties(later);
      assert e.Keys == later;
      FewerUnlessSettled(s, k, v, later);
      assert AllAtOnce(AllAtOnce(s, map[k := v]), e) != AllAtOnce(s, e[k := v]);
    }
  }

  // ----- Three passes are one

  /** Three different keys, none of them special. */
  predicate Keys(a: char, b: char, c: char) {
    a != b && a != c && b != c
    && a != '%' && b != '%' && c != '%' && a != '\\' && b != '\\' && c != '\\'
  }

  /** Neither the first pass makes a sequence for the other two, nor the second one for the
      third. The value put in last may be any. */
  predicate AllSettled(s: string, a: char, x: string, b: char, y: string, c: char) {
    Settled(s, a, x, {b, c}) && Settled(AllAtOnce(s, map[a := x]), b, y, {c})
  }

  /** The three passes, one after the other. */
  function InOrder(s: string, a: char, x: string, b: char, y: string, c: char, z: string): string {
    Pass(Pass(Pass(s, a, x), b, y), c, z)
  }

  predicate Agree(s: string, a: char, x: string, b: char, y: string, c: char, z: string) {
    InOrder(s, a, x, b, y, c, z) == AllAtOnce(s, map[a := x, b := y, c := z])
  }

  lemma PassesAreAllAtOnce(s: string, a: char, x: string, b: char, y: string, c: char, z: string)
    requires Keys(a, b, c) && '\\' !in x && '\\' !in y && '\\' !in z
    ensures InOrder(s, a, x, b, y, c, z)
         == AllAtOnce(AllAtOnce(AllAtOnce(s, map[a := x]), map[b := y]), map[c := z])
  {
    PassIsAllAtOnce(s, a, x);
    PassIsAllAtOnce(Pass(s, a, x), b, y);
    PassIsAllAtOnce(Pass(Pass(s, a, x), b, y), c, z);
  }

  /** The three passes give what a single left-to-right pass for all three sequences gives,
      if no sequence arises in this order of the passes. */
  lemma ThreePassesAreOne(s: string, a: char, x: string, b: char, y: string, c: char, z: string)
    requires Keys(a, b, c) && '\\' !in x && '\\' !in y && '\\' !in z
    requires AllSettled(s, a, x, b, y, c)
    ensures Agree(s, a, x, b, y, c, z)
  {
    PassesAreAllAtOnce(s, a, x, b, y, c, z);
    ThreeMerge(s, a, x, b, y, c, z);
  }

  lemma ThreeMerge(s: string, a: char, x: string, b: char, y: string, c: char, z: string)
    requires Keys(a, b, c) && AllSettled(s, a, x, b, y, c)
    ensures AllAtOnce(AllAtOnce(AllAtOnce(s, map[a := x]), map[b := y]), map[c := z])
         == AllAtOnce(s, map[a := x, b := y, c := z])
  {
    var last := map[c := z];
    var two := last[b := y];
    assert last.Keys == {c} && two.Keys == {b, c};
    PassesMerge(AllAtOnce(s, map[a := x]), b, y, last);
    PassesMerge(s, a, x, two);
    assert two[a := x] == map[a := x, b := y, c := z];
  }

  // ----- Templates on which nothing can arise

  /** s contains %%k. */
  predicate Escaped(s: string, k: char) {
    |s| >= 3 && ((s[0] == '%' && s[1] == '%' && s[2] == k) || Escaped(s[1..], k))
  }

  /** A value that can be put in anywhere: no percent sign ends it or precedes a later key. */
  predicate Harmless(v: string, keys: set<char>) {
    Quiet(v, "", keys) && (v != "" ==> v[|v| - 1] != '%')
  }

  lemma HarmlessIsQuiet(v: string, t: string, keys: set<char>)
    requires Harmless(v, keys)
    ensures Quiet(v, t, keys)
  {
    forall i | 0 <= i < |v| && v[i] == '%' ensures i + 1 < |v| && (v + t)[i + 1] !in keys {
      assert (v + "")[i + 1] == v[i + 1];
    }
  }

  /** Without %%k a harmless value makes no sequence arise. */
  lemma {:induction false} UnescapedIsSettled(s: string, k: char, v: string, later: set<char>)
    requires k != '%' && '%' !in later && !Escaped(s, k) && Harmless(v, later)
    ensures Settled(s, k, v, later)
  {
    if s != "" {
      assert !Escaped(s[1..], k);
      if |s| >= 2 { assert s[1..][1..] == s[2..] && !Escaped(s[2..], k); }
      if s[0] == '%' && |s| >= 2 && s[1] == k {
        HarmlessIsQuiet(v, AllAtOnce(s[2..], map[k := v]), later);
        UnescapedIsSettled(s[2..], k, v, later);
      } else if s[0] == '%' && |s| >= 2 && s[1] in later {
        UnescapedIsSettled(s[2..], k, v, later);
      } else {
        UnescapedIsSettled(s[1..], k, v, later);
      }
    }
  }

  lemma {:induction false} EscapedBehind(u: string, t: string, k: char)
    requires k != '%' && Harmless(u, {k})
    ensures Escaped(u + t, k) <==> Escaped(t, k)
  {
    if u == "" {
      assert u + t == t;
    } else {
      var w := u[1..];
      QuietTail(u, "", {k});
      assert u + "" == u && w + "" == w;
      EscapedBehind(w, t, k);
      assert (u + t)[1..] == w + t;
      if u[0] == '%' {
        assert w != "" && (u + t)[1] == u[1];
        if u[1] == '%' {
          assert |u| >= 3 && u[2] != k && (u + t)[2] == u[2];
        }
      }
    }
  }

  /** A pass neither makes nor removes a %%b. */
  lemma {:induction false} EscapedStays(s: string, a: char, x: string, b: char)
    requires a != b && a != '%' && b != '%' && Harmless(x, {b}) && !Escaped(s, a)
    ensures Escaped(AllAtOnce(s, map[a := x]), b) <==> Escaped(s, b)
  {
    if s != "" {
      var m := map[a := x];
      assert !Escaped(s[1..], a);
      if |s| >= 2 { assert s[1..][1..] == s[2..]; }
      if s[0] == '%' && |s| >= 2 && s[1] == a {
        assert !Escaped(s[2..], a);
        EscapedStays(s[2..], a, x, b);
        EscapedBehind(x, AllAtOnce(s[2..], m), b);
      } else {
        EscapedStays(s[1..], a, x, b);
        var t := AllAtOnce(s[1..], m);
        assert ([s[0]] + t)[1..] == t;
        if s[0] == '%' {
          StartsAlike(s[1..], a, x, b);
        }
      }
    }
  }

  /** At the start, %b comes out exactly when it is there. */
  lemma StartsAlike(s: string, a: char, x: string, b: char)
    requires a != b && a != '%' && b != '%' && !Escaped(s, a)
    requires !(|s| >= 2 && s[0] == '%' && s[1] == a)
    ensures var t := AllAtOnce(s, map[a := x]);
      (|t| >= 2 && t[0] == '%' && t[1] == b) <==> (|s| >= 2 && s[0] == '%' && s[1] == b)
  {
    var m := map[a := x];
    if |s| >= 2 && s[0] == '%' {
      assert AllAtOnce(s, m) == [s[0]] + AllAtOnce(s[1..], m);
      assert s[1..][0] == s[1] && (|s| >= 3 ==> s[1..][1] == s[2]);
      assert AllAtOnce(s[1..], m) == [s[1]] + AllAtOnce(s[1..][1..], m);
    }
  }

  /** With harmless values and without %%a and %%b the three passes are one. */
  lemma UnescapedSettles(s: string, a: char, x: string, b: char, y: string, c: char)
    requires Keys(a, b, c) && !Escaped(s, a) && !Escaped(s, b)
    requires Harmless(x, {b, c}) && Harmless(y, {c})
    ensures AllSettled(s, a, x, b, y, c)
  {
    UnescapedIsSettled(s, a, x, {b, c});
    FewerKeys(x, b, c);
    EscapedStays(s, a, x, b);
    UnescapedIsSettled(AllAtOnce(s, map[a := x]), b, y, {c});
  }

  lemma FewerKeys(v: string, b: char, c: char)
    requires Harmless(v, {b, c})
    ensures Harmless(v, {b})
  {
  }

  lemma PercentFreeIsHarmless(v: string, keys: set<char>)
    requires '%' !in v
    ensures Harmless(v, keys)
  {
    assert forall i :: 0 <= i < |v| ==> v[i] in v;
  }

  /** %%k with a value that starts with a later key lets a sequence arise. */
  lemma {:induction false} EscapedUnsettles(s: string, k: char, v: string, later: set<char>)
    requires Escaped(s, k) && k != '%' && '%' !in later && k !in later
    requires v != "" && v[0] in later
    ensures !Settled(s, k, v, later)
  {
    if s[0] == '%' && s[1] == '%' && s[2] == k {
      assert s[1..][0] == '%' && s[1..][1] == k;
      var t := AllAtOnce(s[1..], map[k := v]);
      assert t == v + AllAtOnce(s[1..][2..], map[k := v]);
      var u := [s[0]];
      assert u[0] == '%' && (u + t)[0 + 1] == v[0];
      assert !Quiet(u, t, later);
    } else if s[0] == '%' && (s[1] == k || s[1] in later) {
      assert s[1..][0] == s[1] && s[1..][1..] == s[2..];
      EscapedUnsettles(s[2..], k, v, later);
    } else {
      EscapedUnsettles(s[1..], k, v, later);
    }
  }

  // ----- The exact condition on the template

  predicate PercentFree(v: string) { '%' !in v && '\\' !in v }

  lemma OneEmpty(b: char, y: string, c: char)
    requires b != c
    ensures Empties({c}) == map[c := ""]
    ensures Empties({c})[b := y] == map[b := y, c := ""]
  {
  }

  lemma FewerTwice(s: string, b: char, c: char)
    requires b != c && b != '%' && c != '%'
    ensures Percents(AllAtOnce(AllAtOnce(s, map[b := ""]), map[c := ""]))
         <= Percents(AllAtOnce(s, map[b := "", c := ""]))
  {
    FewerUnlessSettled(s, b, "", {c});
    OneEmpty(b, "", c);
  }

  lemma TwoEmpties(a: char, x: string, b: char, c: char)
    requires Keys(a, b, c)
    ensures Empties({b, c}) == map[b := "", c := ""]
    ensures Empties({b, c})[a := x] == map[a := x, b := "", c := ""]
  {
  }

  lemma FewerFirst(s: string, a: char, x: string, b: char, c: char)
    requires Keys(a, b, c) && !Settled(s, a, x, {b, c})
    ensures Percents(AllAtOnce(AllAtOnce(s, map[a := x]), map[b := "", c := ""]))
          < Percents(AllAtOnce(s, map[a := x, b := "", c := ""]))
  {
    FewerUnlessSettled(s, a, x, {b, c});
    TwoEmpties(a, x, b, c);
  }

  /** The passes leave fewer percent signs than the one substitution does. */
  predicate LosePercents(s: string, a: char, x: string, b: char, y: string, c: char, z: string) {
    Percents(InOrder(s, a, x, b, y, c, z)) < Percents(AllAtOnce(s, map[a := x, b := y, c := z]))
  }

  /** If the first pass makes a sequence arise, the passes differ once the other values are
      empty. */
  lemma UnsettledDiffers(s: string, a: char, x: string, b: char, c: char)
    requires Keys(a, b, c) && '\\' !in x && !Settled(s, a, x, {b, c})
    ensures LosePercents(s, a, x, b, "", c, "")
  {
    FewerFirst(s, a, x, b, c);
    FewerTwice(AllAtOnce(s, map[a := x]), b, c);
    PassesAreAllAtOnce(s, a, x, b, "", c, "");
  }

  /** Values with which the passes differ on a template with %%a. */
  lemma FirstKeyEscaped(s: string, a: char, b: char, c: char)
    requires Keys(a, b, c) && Escaped(s, a)
    ensures LosePercents(s, a, [b], b, "", c, "")
  {
    EscapedUnsettles(s, a, [b], {b, c});
    UnsettledDiffers(s, a, [b], b, c);
  }

  lemma FewerSecond(s: string, b: char, y: string, c: char)
    requires b != c && b != '%' && c != '%' && !Settled(s, b, y, {c})
    ensures Percents(AllAtOnce(AllAtOnce(s, map[b := y]), map[c := ""]))
          < Percents(AllAtOnce(s, map[b := y, c := ""]))
  {
    FewerUnlessSettled(s, b, y, {c});
    OneEmpty(b, y, c);
  }

  lemma FirstMerges(s: string, a: char, x: string, b: char, y: string, c: char, z: string)
    requires Keys(a, b, c) && Settled(s, a, x, {b, c})
    ensures AllAtOnce(AllAtOnce(s, map[a := x]), map[b := y, c := z]) == AllAtOnce(s, map[a := x, b := y, c := z])
  {
    var two := map[b := y, c := z];
    assert two.Keys == {b, c} && two[a := x] == map[a := x, b := y, c := z];
    PassesMerge(s, a, x, two);
  }

  /** Values with which the passes differ on a template with %%b. */
  lemma SecondKeyEscaped(s: string, a: char, b: char, c: char)
    requires Keys(a, b, c) && !Escaped(s, a) && Escaped(s, b)
    ensures LosePercents(s, a, "", b, [c], c, "")
  {
    var s1 := AllAtOnce(s, map[a := ""]);
    EscapedStays(s, a, "", b);
    EscapedUnsettles(s1, b, [c], {c});
    FewerSecond(s1, b, [c], c);
    UnescapedIsSettled(s, a, "", {b, c});
    FirstMerges(s, a, "", b, [c], c, "");
    PassesAreAllAtOnce(s, a, "", b, [c], c, "");
  }

  /** The three passes agree with one simultaneous substitution for all values without
      percent signs and backslashes exactly when the template contains neither %%a nor %%b;
      any other %% is harmless. */
  lemma TemplateIff(s: string, a: char, b: char, c: char)
    requires Keys(a, b, c)
    ensures (forall x, y, z | PercentFree(x) && PercentFree(y) && PercentFree(z) :: Agree(s, a, x, b, y, c, z))
       <==> !Escaped(s, a) && !Escaped(s, b)
  {
    if Escaped(s, a) {
      FirstKeyEscaped(s, a, b, c);
      assert PercentFree([b]) && PercentFree("") && !Agree(s, a, [b], b, "", c, "");
    } else if Escaped(s, b) {
      SecondKeyEscaped(s, a, b, c);
      assert PercentFree([c]) && PercentFree("") && !Agree(s, a, "", b, [c], c, "");
    } else {
      forall x, y, z | PercentFree(x) && PercentFree(y) && PercentFree(z) ensures Agree(s, a, x, b, y, c, z) {
        PercentFreeIsHarmless(x, {b, c});
        PercentFreeIsHarmless(y, {c});
        UnescapedSettles(s, a, x, b, y, c);
        ThreePassesAreOne(s, a, x, b, y, c, z);
      }
    }
  }

  // ----- The exact condition for any order

  /** The order of the passes does not matter. */
  predicate OrderFree(s: string, a: char, x: string, b: char, y: string, c: char, z: string) {
    var r := InOrder(s, a, x, b, y, c, z);
    && r == InOrder(s, b, y, c, z, a, x) && r == InOrder(s, c, z, a, x, b, y)
    && r == InOrder(s, b, y, a, x, c, z) && r == InOrder(s, a, x, c, z, b, y) && r == InOrder(s, c, z, b, y, a, x)
  }

  lemma {:induction false} PercentsAlike(s: string, m: map<char, string>, n: map<char, string>)
    requires m.Keys == n.Keys && forall k :: k in m ==> Percents(m[k]) == Percents(n[k])
    ensures Percents(AllAtOnce(s, m)) == Percents(AllAtOnce(s, n))
    decreases |s|
  {
    if s != "" {
      if s[0] == '%' && |s| >= 2 && s[1] in m {
        PercentsAlike(s[2..], m, n);
        PercentsAppend(m[s[1]], AllAtOnce(s[2..], m));
        PercentsAppend(n[s[1]], AllAtOnce(s[2..], n));
      } else {
        PercentsAlike(s[1..], m, n);
        PercentsCons(s[0], AllAtOnce(s[1..], m));
        PercentsCons(s[0], AllAtOnce(s[1..], n));
      }
    }
  }

  /** A value that is neither a percent sign nor a key can be put in anywhere. */
  lemma {:induction false} FreshIsSettled(s: string, k: char, d: char, later: set<char>)
    requires k != '%' && '%' !in later && d != '%' && d !in later
    ensures Settled(s, k, [d], later)
  {
    if s != "" {
      if s[0] == '%' && |s| >= 2 && (s[1] == k || s[1] in later) {
        FreshIsSettled(s[2..], k, d, later);
      } else {
        FreshIsSettled(s[1..], k, d, later);
        if s[0] == '%' && |s| >= 2 {
          var t := AllAtOnce(s[1..], map[k := [d]]);
          assert t[0] == d || t[0] == s[1];
        }
      }
    }
  }

  lemma FreshMerges(s: string, b: char, c: char, d: char)
    requires b != c && b != '%' && c != '%' && d != '%' && d != c
    ensures AllAtOnce(AllAtOnce(s, map[b := [d]]), map[c := [d]]) == AllAtOnce(s, map[b := [d], c := [d]])
  {
    var last := map[c := [d]];
    assert last.Keys == {c} && last[b := [d]] == map[b := [d], c := [d]];
    FreshIsSettled(s, b, d, {c});
    PassesMerge(s, b, [d], last);
  }

  /** A value without percent sign counts like an empty one. */
  lemma TwoCountAsEmpty(s: string, b: char, c: char, d: char)
    requires d != '%'
    ensures Percents(AllAtOnce(s, map[b := [d], c := [d]])) == Percents(AllAtOnce(s, map[b := "", c := ""]))
  {
    assert Percents([d]) == 0 by { assert [d][1..] == ""; }
    PercentsAlike(s, map[b := [d], c := [d]], map[b := "", c := ""]);
  }

  lemma CountAsEmpty(s: string, a: char, x: string, b: char, c: char, d: char)
    requires d != '%' && a != b && a != c
    ensures Percents(AllAtOnce(s, map[a := x, b := [d], c := [d]]))
         == Percents(AllAtOnce(s, map[a := x, b := "", c := ""]))
  {
    assert Percents([d]) == 0 by { assert [d][1..] == ""; }
    PercentsAlike(s, map[a := x, b := [d], c := [d]], map[a := x, b := "", c := ""]);
  }

  /** With fresh values to follow, an unsettled value loses percent signs all the same. */
  lemma FreshLoses(s: string, a: char, x: string, b: char, c: char, d: char)
    requires Keys(a, b, c) && '\\' !in x && d !in {a, b, c, '%', '\\'}
    requires !Settled(s, a, x, {b, c})
    ensures LosePercents(s, a, x, b, [d], c, [d])
  {
    PassesAreAllAtOnce(s, a, x, b, [d], c, [d]);
    FreshMerges(AllAtOnce(s, map[a := x]), b, c, d);
    TwoCountAsEmpty(AllAtOnce(s, map[a := x]), b, c, d);
    FewerFirst(s, a, x, b, c);
    CountAsEmpty(s, a, x, b, c, d);
  }

  /** Put in last, the value for a can do no harm. */
  lemma FreshFirst(s: string, a: char, x: string, b: char, c: char, d: char)
    requires Keys(a, b, c) && '\\' !in x && d !in {a, b, c, '%', '\\'}
    ensures InOrder(s, b, [d], c, [d], a, x) == AllAtOnce(s, map[a := x, b := [d], c := [d]])
  {
    FreshIsSettled(s, b, d, {c, a});
    FreshIsSettled(AllAtOnce(s, map[b := [d]]), c, d, {a});
    ThreePassesAreOne(s, b, [d], c, [d], a, x);
    assert map[b := [d], c := [d], a := x] == map[a := x, b := [d], c := [d]];
  }

  /** A letter that is none of the keys. */
  lemma FreshChar(a: char, b: char, c: char) returns (d: char)
    ensures d !in {a, b, c, '%', '\\'}
  {
    d := if 'p' !in {a, b, c} then 'p' else if 'q' !in {a, b, c} then 'q' else if 'r' !in {a, b, c} then 'r' else 'u';
  }

  /** With %%a in the template it matters whether a is replaced first or last. */
  lemma FirstIsNotLast(s: string, a: char, b: char, c: char) returns (d: char)
    requires Keys(a, b, c) && Escaped(s, a)
    ensures PercentFree([b]) && PercentFree([d])
    ensures InOrder(s, a, [b], b, [d], c, [d]) != InOrder(s, b, [d], c, [d], a, [b])
  {
    d := FreshChar(a, b, c);
    EscapedUnsettles(s, a, [b], {b, c});
    FreshLoses(s, a, [b], b, c, d);
    FreshFirst(s, a, [b], b, c, d);
  }

  /** Harmless values are inserted as they are. */
  predicate Benign(v: string, keys: set<char>) { Harmless(v, keys) && '\\' !in v }

  lemma PercentFreeIsBenign(v: string, keys: set<char>)
    requires PercentFree(v)
    ensures Benign(v, keys)
  {
    PercentFreeIsHarmless(v, keys);
  }

  /** With benign values and without %%a and %%b the passes are one substitution. */
  lemma UnescapedInOrder(s: string, a: char, x: string, b: char, y: string, c: char, z: string,
                         keys: set<char>, values: map<char, string>)
    requires Keys(a, b, c) && !Escaped(s, a) && !Escaped(s, b) && a in keys && b in keys && c in keys
    requires Benign(x, keys) && Benign(y, keys) && Benign(z, keys)
    requires values == map[a := x, b := y, c := z]
    ensures InOrder(s, a, x, b, y, c, z) == AllAtOnce(s, values)
  {
    assert Harmless(x, {b, c}) && Harmless(y, {c});
    UnescapedSettles(s, a, x, b, y, c);
    ThreePassesAreOne(s, a, x, b, y, c, z);
  }

  lemma SameValues(a: char, x: string, b: char, y: string, c: char, z: string)
    requires Keys(a, b, c)
    ensures var m := map[a := x, b := y, c := z];
      && m == map[b := y, c := z, a := x] && m == map[c := z, a := x, b := y]
      && m == map[b := y, a := x, c := z] && m == map[a := x, c := z, b := y] && m == map[c := z, b := y, a := x]
  {
  }

  /** Without %%c too they are so in every order. */
  lemma UnescapedOrderFree(s: string, a: char, x: string, b: char, y: string, c: char, z: string)
    requires Keys(a, b, c) && !Escaped(s, a) && !Escaped(s, b) && !Escaped(s, c)
    requires Benign(x, {a, b, c}) && Benign(y, {a, b, c}) && Benign(z, {a, b, c})
    ensures OrderFree(s, a, x, b, y, c, z)
  {
    var keys, values := {a, b, c}, map[a := x, b := y, c := z];
    SameValues(a, x, b, y, c, z);
    UnescapedInOrder(s, a, x, b, y, c, z, keys, values);
    UnescapedInOrder(s, b, y, c, z, a, x, keys, values);
    UnescapedInOrder(s, c, z, a, x, b, y, keys, values);
    UnescapedInOrder(s, b, y, a, x, c, z, keys, values);
    UnescapedInOrder(s, a, x, c, z, b, y, keys, values);
    UnescapedInOrder(s, c, z, b, y, a, x, keys, values);
  }

  /** The order of the passes does not matter, for all values without percent signs and
      backslashes, exactly when the template contains none of %%a, %%b and %%c. */
  lemma OrderIff(s: string, a: char, b: char, c: char)
    requires Keys(a, b, c)
    ensures (forall x, y, z | PercentFree(x) && PercentFree(y) && PercentFree(z) :: OrderFree(s, a, x, b, y, c, z))
       <==> !Escaped(s, a) && !Escaped(s, b) && !Escaped(s, c)
  {
    if Escaped(s, a) {
      var d := FirstIsNotLast(s, a, b, c);
      assert !OrderFree(s, a, [b], b, [d], c, [d]);
    } else if Escaped(s, b) {
      var d := FirstIsNotLast(s, b, c, a);
      assert !OrderFree(s, a, [d], b, [c], c, [d]);
    } else if Escaped(s, c) {
      var d := FirstIsNotLast(s, c, a, b);
      assert !OrderFree(s, a, [d], b, [d], c, [a]);
    } else {
      forall x, y, z | PercentFree(x) && PercentFree(y) && PercentFree(z) ensures OrderFree(s, a, x, b, y, c, z) {
        PercentFreeIsBenign(x, {a, b, c});
        PercentFreeIsBenign(y, {a, b, c});
        PercentFreeIsBenign(z, {a, b, c});
        UnescapedOrderFree(s, a, x, b, y, c, z);
      }
    }
  }

  // ----- The exact condition on a value

  /** A value may be put into every template without %%k exactly when it is harmless. */
  lemma HarmlessIff(k: char, v: string, later: set<char>, l: char)
    requires k != '%' && '%' !in later && k !in later && l in later
    ensures (forall s | !Escaped(s, k) :: Settled(s, k, v, later)) <==> Harmless(v, later)
  {
    if Harmless(v, later) {
      forall s | !Escaped(s, k) ensures Settled(s, k, v, later) {
        UnescapedIsSettled(s, k, v, later);
      }
    } else if !Quiet(v, "", later) {
      var s := ['%', k];
      InnerUnsettles(s, k, v, later);
      assert !Escaped(s, k);
    } else {
      var s := ['%', k, l];
      TrailingUnsettles(s, k, v, later, l);
      assert !Escaped(s[1..], k) && !Escaped(s, k);
    }
  }

  lemma InnerUnsettles(s: string, k: char, v: string, later: set<char>)
    requires k != '%' && s == ['%', k] && !Quiet(v, "", later)
    ensures !Settled(s, k, v, later)
  {
    assert s[2..] == "" && AllAtOnce(s[2..], map[k := v]) == "";
  }

  lemma TrailingUnsettles(s: string, k: char, v: string, later: set<char>, l: char)
    requires k != '%' && '%' !in later && l in later && s == ['%', k, l]
    requires v != "" && v[|v| - 1] == '%'
    ensures !Settled(s, k, v, later)
  {
    var u, m := s[2..], map[k := v];
    var t := AllAtOnce(u, m);
    assert u == [l] && u[1..] == "";
    assert t == [u[0]] + AllAtOnce(u[1..], m) == [l];
    var i := |v| - 1;
    assert v[i] == '%' && (v + t)[i + 1] == l;
  }

  /** With %%f in a command a name put in next is lost along with its percent sign. */
  lemma DoublePercentDiffers()
    ensures !Agree("%%f", 'f', "n", 'n', "", 't', "")
  {
    assert Escaped("%%f", 'f');
    FirstKeyEscaped("%%f", 'f', 'n', 't');
  }

  /** A path that holds %n has it replaced by the pass for the name. */
  lemma PercentInPathDiffers()
    ensures !Agree("%f", 'f', "%n", 'n', "", 't', "")
  {
    var x := "%n";
    assert "%f"[2..] == "" && x + "" == x;
    assert x[0] == '%' && (x + "")[0 + 1] == 'n';
    UnsettledDiffers("%f", 'f', x, 'n', 't');
  }

  /** A path that holds another percent sign is safe in every command without %%f and %%n. */
  lemma PercentInPathHarmless(command: string, name: string, title: string)
    requires !Escaped(command, 'f') && !Escaped(command, 'n')
    requires Harmless(name, {'t'}) && '\\' !in name && '\\' !in title
    ensures Agree(command, 'f', "100% cats.flv", 'n', name, 't', title)
  {
    var v := "100% cats.flv";
    assert forall i :: 0 <= i < |v| && v[i] == '%' ==> i == 3;
    assert (v + "")[3 + 1] == ' ';
    UnescapedSettles(command, 'f', v, 'n', name, 't');
    ThreePassesAreOne(command, 'f', v, 'n', name, 't', title);
  }

  lemma NameSettled()
    ensures AllSettled("%f%n", 'f', "p", 'n', "%f", 't')
  {
    var s := "%f%n";
    assert s[1..] == "f%n" && s[1..][1..] == "%n" && s[1..][1..][1..] == "n";
    assert !Escaped(s, 'f') && !Escaped(s, 'n');
    PercentFreeIsHarmless("p", {'n', 't'});
    assert Harmless("%f", {'t'}) by { assert ("%f" + "")[0 + 1] == 'f'; }
    UnescapedSettles(s, 'f', "p", 'n', "%f", 't');
  }

  lemma TwoSequences(s: string, c: char, d: char, values: map<char, string>)
    requires s == ['%', c, '%', d] && c != '%' && d != '%'
    ensures AllAtOnce(s, values)
         == (if c in values then values[c] else ['%', c]) + (if d in values then values[d] else ['%', d])
  {
    var t := ['%', d];
    assert s == ['%', c] + t && t == ['%', d] + "";
    SequenceInFront(c, t, values);
    SequenceInFront(d, "", values);
    if d !in values {
      assert [d] + "" == [d] && ['%'] + [d] == t;
    }
    if c !in values {
      assert ['%'] + ([c] + AllAtOnce(t, values)) == ['%', c] + AllAtOnce(t, values);
    }
  }

  lemma PathFirst(s: string, path: string, name: string)
    requires s == "%f%n" && path == "p" && name == "%f"
    requires AllSettled(s, 'f', path, 'n', name, 't')
    ensures InOrder(s, 'f', path, 'n', name, 't', "") == path + name
  {
    ThreePassesAreOne(s, 'f', path, 'n', name, 't', "");
    TwoSequences(s, 'f', 'n', map['f' := path, 'n' := name, 't' := ""]);
  }

  lemma NameFirst(s: string, path: string, name: string)
    requires s == "%f%n" && path == "p" && name == "%f"
    ensures InOrder(s, 'n', name, 'f', path, 't', "") == path + path
  {
    PassesAreAllAtOnce(s, 'n', name, 'f', path, 't', "");
    TwoSequences(s, 'f', 'n', map['n' := name]);
    var s1 := AllAtOnce(s, map['n' := name]);
    assert s1 == ['%', 'f', '%', 'f'];
    TwoSequences(s1, 'f', 'f', map['f' := path]);
    var u := path + path;
    assert Quiet(u, "", {'t'}) && u + "" == u;
    QuietPrefix(u, "", map['t' := ""]);
  }

  /** A name that holds %f has it replaced by the path in another order of the passes; so the
      order can matter even if no sequence arises in the order of the program. */
  lemma NameBeforePathDiffers()
    ensures AllSettled("%f%n", 'f', "p", 'n', "%f", 't')
    ensures !OrderFree("%f%n", 'f', "p", 'n', "%f", 't', "")
  {
    NameSettled();
    PathFirst("%f%n", "p", "%f");
    NameFirst("%f%n", "p", "%f");
  }
}
