/** The global capture filter /pat/g: repeated FindAndConsume with a user's pattern, of
    which only the outcome of a match is known. */
module Capture {
  import opened Common

  /** A match in a piece: its end, and where group 1 lies. */
  datatype Hit = Hit(end: nat, from: nat, to: nat)

  type Matcher = string -> Option<Hit>

  /** Positions lie within the piece. */
  ghost predicate Sane(find: Matcher) {
    forall p :: find(p).Some? ==>
      var h := find(p).value; h.end <= |p| && h.from <= h.to <= |p|
  }

  /** The pattern takes at least one character. */
  ghost predicate NeverEmpty(find: Matcher) {
    forall p :: find(p).Some? ==> find(p).value.end > 0
  }

  /** Group 1 does not reach beyond the match, as it could inside a lookahead. */
  ghost predicate CapturesInside(find: Matcher) {
    forall p :: find(p).Some? ==> find(p).value.to <= find(p).value.end
  }

  // ----- The turns of the loop

  /** The piece left after n turns of the loop; a turn without a match changes nothing. */
  function Rest(find: Matcher, p: string, n: nat): string
    decreases n
  {
    if n == 0 then p
    else match find(p)
      case None => p
      case Some(h) => Rest(find, if h.end <= |p| then p[h.end..] else "", n - 1)
  }

  /** The loop has left after at most n turns. */
  predicate Ends(find: Matcher, p: string, n: nat) {
    find(Rest(find, p, n)) == None
  }

  /** The loop meets an empty match after n turns. */
  predicate MeetsEmpty(find: Matcher, p: string, n: nat) {
    var h := find(Rest(find, p, n)); h.Some? && h.value.end == 0
  }

  lemma {:induction false} EmptyRepeats(find: Matcher, p: string, n: nat)
    requires find(p).Some? && find(p).value.end == 0
    ensures Rest(find, p, n) == p
  {
    if n > 0 {
      assert p[0..] == p;
      EmptyRepeats(find, p, n - 1);
    }
  }

  lemma {:induction false} RestAdds(find: Matcher, p: string, m: nat, n: nat)
    ensures Rest(find, p, m + n) == Rest(find, Rest(find, p, m), n)
    decreases m
  {
    if m > 0 {
      match find(p)
      case None => NoMatchStays(find, p, n);
      case Some(h) => RestAdds(find, if h.end <= |p| then p[h.end..] else "", m - 1, n);
    }
  }

  lemma NoMatchStays(find: Matcher, p: string, n: nat)
    requires find(p) == None
    ensures Rest(find, p, n) == p
  {
  }

  /** No turn of the loop meets an empty match. */
  ghost predicate Advances(find: Matcher, p: string) {
    forall k: nat :: !MeetsEmpty(find, p, k)
  }

  /** Then the piece shrinks, and what is left of it advances too. */
  lemma AdvancesOn(find: Matcher, p: string)
    requires Sane(find) && Advances(find, p) && find(p).Some?
    ensures find(p).value.end > 0 && Advances(find, p[find(p).value.end..])
  {
    assert !MeetsEmpty(find, p, 0);
    var q := p[find(p).value.end..];
    forall k: nat ensures !MeetsEmpty(find, q, k) {
      assert !MeetsEmpty(find, p, k + 1);
    }
  }

  lemma NeverEmptyAdvances(find: Matcher, p: string)
    requires NeverEmpty(find)
    ensures Advances(find, p)
  {
  }

  /** The captures, in order. */
  ghost function Captures(find: Matcher, p: string): seq<string>
    requires Sane(find) && Advances(find, p)
    decreases |p|
  {
    match find(p)
    case None => []
    case Some(h) =>
      AdvancesOn(find, p);
      [p[h.from..h.to]] + Captures(find, p[h.end..])
  }

  lemma {:induction false} ConcatSnoc(ts: seq<string>, t: string)
    ensures Concat(ts + [t]) == Concat(ts) + t
  {
    if ts == [] {
      assert Concat([t]) == t + Concat([]);
    } else {
      assert (ts + [t])[1..] == ts[1..] + [t];
      ConcatSnoc(ts[1..], t);
    }
  }

  lemma CapturesStep(find: Matcher, p: string, done: seq<string>)
    requires Sane(find) && Advances(find, p) && find(p).Some?
    ensures var h := find(p).value;
      var t := p[h.from..h.to];
      && h.end > 0 && Advances(find, p[h.end..])
      && done + Captures(find, p) == (done + [t]) + Captures(find, p[h.end..])
      && Concat(done + [t]) == Concat(done) + t
  {
    var h := find(p).value;
    AdvancesOn(find, p);
    ConcatSnoc(done, p[h.from..h.to]);
    Assoc(done, [p[h.from..h.to]], Captures(find, p[h.end..]));
  }

  /** The loop of tr_filter with the g flag: the title becomes its captures. It is not
      entered for an empty title. */
  method FilterGlobal(find: Matcher, title: string) returns (s: string)
    requires Sane(find) && (title != "" ==> Advances(find, title))
    ensures s == if title == "" then "" else Concat(Captures(find, title))
  {
    s := "";
    if title == "" {
      return;
    }
    var sp := title;
    ghost var all, done: seq<string> := Captures(find, title), [];
    while true
      invariant Advances(find, sp)
      invariant all == done + Captures(find, sp)
      invariant s == Concat(done)
      decreases |sp|
    {
      var m := find(sp);
      if m == None {
        assert done + [] == done;
        break;
      }
      var tmp := sp[m.value.from..m.value.to];
      CapturesStep(find, sp, done);
      s := s + tmp;
      done := done + [tmp];
      sp := sp[m.value.end..];
    }
  }

  // ----- The result is part of the title

  /** a is what is left of b after deleting some characters. */
  predicate Subsequence(a: string, b: string)
    decreases |b|
  {
    if a == [] then true
    else if b == [] then false
    else if a[0] == b[0] then Subsequence(a[1..], b[1..])
    else Subsequence(a, b[1..])
  }

  /** More of the text never hurts. */
  lemma {:induction false} SubsequenceBehind(a: string, u: string, b: string)
    requires Subsequence(a, b)
    ensures Subsequence(a, u + b)
    decreases |u|, |b|
  {
    if u == [] {
      assert u + b == b;
    } else if a != [] {
      assert (u + b)[1..] == u[1..] + b;
      if a[0] == u[0] {
        DropHead(a, b);
        SubsequenceBehind(a[1..], u[1..], b);
      } else {
        SubsequenceBehind(a, u[1..], b);
      }
    }
  }

  lemma {:induction false} DropHead(a: string, b: string)
    requires a != [] && Subsequence(a, b)
    ensures Subsequence(a[1..], b)
    decreases |b|
  {
    if a[0] == b[0] {
      if a[1..] != [] {
        if a[1] == b[0] { DropHead(a[1..], b[1..]); }
      }
    } else {
      DropHead(a, b[1..]);
      if a[1..] != [] && a[1] == b[0] {
        DropHead(a[1..], b[1..]);
      }
    }
  }

  // ----- What the turns copy

  /** A piece of the title that one turn copies. */
  datatype Span = Span(from: nat, to: nat)

  /** The matches that the turns find. */
  ghost function Turns(find: Matcher, p: string): seq<Hit>
    requires Sane(find) && Advances(find, p)
    decreases |p|
  {
    match find(p)
    case None => []
    case Some(h) =>
      AdvancesOn(find, p);
      [h] + Turns(find, p[h.end..])
  }

  /** What they copy, if the first is found at place n of the title. */
  function Spans(hits: seq<Hit>, n: nat): seq<Span> {
    if hits == [] then []
    else [Span(n + hits[0].from, n + hits[0].to)] + Spans(hits[1..], n + hits[0].end)
  }

  predicate Proper(spans: seq<Span>, to: nat) {
    forall k :: 0 <= k < |spans| ==> spans[k].from <= spans[k].to <= to
  }

  /** What a turn copies lies in front of what later turns copy, as it need not inside a
      lookahead. */
  predicate Apart(spans: seq<Span>) {
    forall k, l :: 0 <= k < l < |spans| && spans[k].from < spans[k].to && spans[l].from < spans[l].to
      ==> spans[k].to <= spans[l].from
  }

  // ----- Which characters are copied

  function Range(a: nat, b: nat): (r: seq<nat>)
    requires a <= b
    ensures |r| == b - a && forall i :: 0 <= i < b - a ==> r[i] == a + i
  {
    seq(b - a, i requires 0 <= i => a + i)
  }

  /** The places of the copied characters, in the order in which they are copied. */
  function Places(spans: seq<Span>, to: nat): seq<nat>
    requires Proper(spans, to)
  {
    if spans == [] then [] else Range(spans[0].from, spans[0].to) + Places(spans[1..], to)
  }

  predicate Increasing(ps: seq<nat>) {
    forall i, j :: 0 <= i < j < |ps| ==> ps[i] < ps[j]
  }

  predicate AllFrom(ps: seq<nat>, y: nat) {
    forall i :: 0 <= i < |ps| ==> ps[i] >= y
  }

  lemma IncreasingAppend(a: nat, b: nat, ps: seq<nat>)
    requires a <= b
    ensures Increasing(Range(a, b) + ps) <==> Increasing(ps) && (a < b ==> AllFrom(ps, b))
  {
    var r := Range(a, b);
    var all := r + ps;
    assert forall j :: 0 <= j < |ps| ==> all[|r| + j] == ps[j];
    if Increasing(all) {
      forall i, j | 0 <= i < j < |ps| ensures ps[i] < ps[j] {
        assert all[|r| + i] < all[|r| + j];
      }
      forall j | a < b && 0 <= j < |ps| ensures ps[j] >= b {
        assert all[|r| - 1] < all[|r| + j];
      }
    }
  }

  lemma AllFromAppend(a: seq<nat>, b: seq<nat>, y: nat)
    ensures AllFrom(a + b, y) <==> AllFrom(a, y) && AllFrom(b, y)
  {
    if AllFrom(a + b, y) {
      forall i | 0 <= i < |a| ensures a[i] >= y {
        assert (a + b)[i] >= y;
      }
      forall i | 0 <= i < |b| ensures b[i] >= y {
        assert (a + b)[|a| + i] >= y;
      }
    }
  }

  predicate BeginFrom(spans: seq<Span>, y: nat) {
    forall k :: 0 <= k < |spans| && spans[k].from < spans[k].to ==> spans[k].from >= y
  }

  lemma {:induction false} AllFromIff(spans: seq<Span>, to: nat, y: nat)
    requires Proper(spans, to)
    ensures AllFrom(Places(spans, to), y) <==> BeginFrom(spans, y)
  {
    if spans != [] {
      var r := Range(spans[0].from, spans[0].to);
      AllFromIff(spans[1..], to, y);
      AllFromAppend(r, Places(spans[1..], to), y);
      assert AllFrom(r, y) <==> (spans[0].from < spans[0].to ==> spans[0].from >= y) by {
        if spans[0].from < spans[0].to { assert r[0] == spans[0].from; }
      }
      assert forall k :: 0 < k < |spans| ==> spans[k] == spans[1..][k - 1];
    }
  }

  /** The places increase exactly when the spans lie apart. */
  lemma {:induction false} IncreasingIff(spans: seq<Span>, to: nat)
    requires Proper(spans, to)
    ensures Increasing(Places(spans, to)) <==> Apart(spans)
  {
    if spans != [] {
      var rest := spans[1..];
      IncreasingIff(rest, to);
      AllFromIff(rest, to, spans[0].to);
      IncreasingAppend(spans[0].from, spans[0].to, Places(rest, to));
      ApartCons(spans);
    }
  }

  lemma ApartCons(spans: seq<Span>)
    requires spans != []
    ensures Apart(spans)
       <==> Apart(spans[1..]) && (spans[0].from < spans[0].to ==> BeginFrom(spans[1..], spans[0].to))
  {
    var rest := spans[1..];
    assert forall k :: 0 <= k < |rest| ==> rest[k] == spans[k + 1];
    assert forall k :: 0 < k < |spans| ==> spans[k] == rest[k - 1];
  }

  predicate Within(ps: seq<nat>, from: nat, to: nat) {
    forall i :: 0 <= i < |ps| ==> from <= ps[i] < to
  }

  /** The characters at the given places. */
  function Picked(title: string, ps: seq<nat>): (r: string)
    requires Within(ps, 0, |title|)
    ensures |r| == |ps| && forall i :: 0 <= i < |ps| ==> r[i] == title[ps[i]]
  {
    seq(|ps|, i requires 0 <= i < |ps| => title[ps[i]])
  }

  lemma PickedAppend(title: string, a: seq<nat>, b: seq<nat>)
    requires Within(a, 0, |title|) && Within(b, 0, |title|)
    ensures Within(a + b, 0, |title|) && Picked(title, a + b) == Picked(title, a) + Picked(title, b)
  {
  }

  /** The texts are the pieces of the title that the spans are. */
  predicate ArePieces(title: string, ts: seq<string>, spans: seq<Span>) {
    && |ts| == |spans|
    && forall k :: 0 <= k < |spans| ==>
         spans[k].from <= spans[k].to <= |title| && ts[k] == title[spans[k].from..spans[k].to]
  }

  lemma {:induction false} PiecesArePicked(title: string, ts: seq<string>, spans: seq<Span>)
    requires ArePieces(title, ts, spans)
    ensures Proper(spans, |title|) && Within(Places(spans, |title|), 0, |title|)
    ensures Concat(ts) == Picked(title, Places(spans, |title|))
  {
    if spans != [] {
      var rest, r := spans[1..], Range(spans[0].from, spans[0].to);
      PiecesArePicked(title, ts[1..], rest);
      PickedAppend(title, r, Places(rest, |title|));
      assert Picked(title, r) == title[spans[0].from..spans[0].to];
    }
  }

  /** The matches can be found in p, one behind the other. */
  predicate Fit(p: string, hits: seq<Hit>)
    decreases |hits|
  {
    hits == [] || (hits[0].from <= hits[0].to <= |p| && hits[0].end <= |p| && Fit(p[hits[0].end..], hits[1..]))
  }

  function Groups(p: string, hits: seq<Hit>): seq<string>
    requires Fit(p, hits)
    decreases |hits|
  {
    if hits == [] then [] else [p[hits[0].from..hits[0].to]] + Groups(p[hits[0].end..], hits[1..])
  }

  lemma {:induction false} CapturesAreGroups(find: Matcher, p: string)
    requires Sane(find) && Advances(find, p)
    ensures Fit(p, Turns(find, p)) && Captures(find, p) == Groups(p, Turns(find, p))
    decreases |p|
  {
    match find(p)
    case None =>
    case Some(h) =>
      AdvancesOn(find, p);
      CapturesAreGroups(find, p[h.end..]);
      assert Turns(find, p)[1..] == Turns(find, p[h.end..]);
  }

  lemma SliceOfTail(title: string, n: nat, from: nat, to: nat)
    requires n + from <= n + to <= |title|
    ensures title[n..][from..to] == title[n + from..n + to] && title[n..][to..] == title[n + to..]
  {
  }

  lemma PiecesCons(title: string, t: string, ts: seq<string>, span: Span, spans: seq<Span>)
    requires ArePieces(title, ts, spans)
    requires span.from <= span.to <= |title| && t == title[span.from..span.to]
    ensures ArePieces(title, [t] + ts, [span] + spans)
  {
  }

  lemma FirstGroup(title: string, n: nat, hits: seq<Hit>)
    requires n <= |title| && hits != [] && Fit(title[n..], hits)
    ensures var h, rest := hits[0], hits[1..];
      var m := n + h.end;
      && h.from <= h.to && n + h.to <= |title| && m <= |title| && Fit(title[m..], rest)
      && Groups(title[n..], hits) == [title[n + h.from..n + h.to]] + Groups(title[m..], rest)
      && Spans(hits, n) == [Span(n + h.from, n + h.to)] + Spans(rest, m)
  {
    SliceOfTail(title, n, hits[0].from, hits[0].to);
    SliceOfTail(title, n, 0, hits[0].end);
  }

  lemma {:induction false} GroupsArePieces(title: string, n: nat, hits: seq<Hit>)
    requires n <= |title| && Fit(title[n..], hits)
    ensures ArePieces(title, Groups(title[n..], hits), Spans(hits, n))
    decreases |hits|
  {
    if hits != [] {
      var h, rest := hits[0], hits[1..];
      FirstGroup(title, n, hits);
      GroupsArePieces(title, n + h.end, rest);
      PiecesCons(title, title[n + h.from..n + h.to], Groups(title[n + h.end..], rest),
                 Span(n + h.from, n + h.to), Spans(rest, n + h.end));
    }
  }

  lemma {:induction false} PickedIsSubsequence(p: string, n: nat, ps: seq<nat>)
    requires n <= |p| && Within(ps, n, |p|) && Increasing(ps)
    ensures Subsequence(Picked(p, ps), p[n..])
    decreases |ps|
  {
    if ps != [] {
      var i, r := ps[0], Picked(p, ps);
      PickedIsSubsequence(p, i + 1, ps[1..]);
      assert r[1..] == Picked(p, ps[1..]) && p[i..][1..] == p[i + 1..];
      SubsequenceBehind(r, p[n..i], p[i..]);
      assert p[n..i] + p[i..] == p[n..];
    }
  }

  /** The result consists of the characters at the places copied, and these increase exactly
      when the turns copy what lies apart. */
  lemma CopiesInOrderIff(find: Matcher, title: string)
    requires Sane(find) && Advances(find, title)
    ensures var spans := Spans(Turns(find, title), 0);
      && Proper(spans, |title|) && Within(Places(spans, |title|), 0, |title|)
      && Concat(Captures(find, title)) == Picked(title, Places(spans, |title|))
      && (Increasing(Places(spans, |title|)) <==> Apart(spans))
  {
    assert title[0..] == title;
    var hits := Turns(find, title);
    CapturesAreGroups(find, title);
    GroupsArePieces(title, 0, hits);
    PiecesArePicked(title, Groups(title, hits), Spans(hits, 0));
    IncreasingIff(Spans(hits, 0), |title|);
  }

  /** When the turns copy what lies apart, the filtered title is a subsequence of it. */
  lemma CapturesAreSubsequence(find: Matcher, title: string)
    requires Sane(find) && Advances(find, title) && Apart(Spans(Turns(find, title), 0))
    ensures Subsequence(Concat(Captures(find, title)), title)
  {
    assert title[0..] == title;
    CopiesInOrderIff(find, title);
    PickedIsSubsequence(title, 0, Places(Spans(Turns(find, title), 0), |title|));
  }

  predicate NoRepeats(title: string) {
    forall i, j :: 0 <= i < j < |title| ==> title[i] != title[j]
  }

  lemma {:induction false} DistinctPicked(p: string, n: nat, ps: seq<nat>)
    requires n <= |p| && NoRepeats(p) && Within(ps, 0, |p|)
    requires Subsequence(Picked(p, ps), p[n..])
    ensures Increasing(ps) && AllFrom(ps, n)
    decreases |p| - n
  {
    if ps != [] {
      var r := Picked(p, ps);
      assert n < |p| && p[n..][1..] == p[n + 1..];
      if r[0] == p[n..][0] {
        assert ps[0] == n && r[1..] == Picked(p, ps[1..]);
        DistinctPicked(p, n + 1, ps[1..]);
      } else {
        DistinctPicked(p, n + 1, ps);
      }
    }
  }

  /** On a title in which no character occurs twice that is exact. */
  lemma SubsequenceIff(find: Matcher, title: string)
    requires Sane(find) && Advances(find, title) && NoRepeats(title)
    ensures Subsequence(Concat(Captures(find, title)), title) <==> Apart(Spans(Turns(find, title), 0))
  {
    assert title[0..] == title;
    CopiesInOrderIff(find, title);
    if Apart(Spans(Turns(find, title), 0)) {
      CapturesAreSubsequence(find, title);
    } else if Subsequence(Concat(Captures(find, title)), title) {
      DistinctPicked(title, 0, Places(Spans(Turns(find, title), 0), |title|));
    }
  }

  /** No group begins in front of the end of the group before. */
  predicate Follow(spans: seq<Span>) {
    forall k :: 0 <= k < |spans| - 1 ==> spans[k].to <= spans[k + 1].from
  }

  /** It is enough to compare each group with the next, empty ones included. */
  lemma {:induction false} FollowingIsApart(spans: seq<Span>, to: nat)
    requires Proper(spans, to) && Follow(spans)
    ensures Apart(spans)
    ensures forall k :: 0 < k < |spans| ==> spans[0].to <= spans[k].from
  {
    if |spans| > 1 {
      var rest := spans[1..];
      assert forall k :: 0 <= k < |rest| ==> rest[k] == spans[k + 1];
      FollowingIsApart(rest, to);
      ApartCons(spans);
    }
  }

  lemma {:induction false} EndedFollow(hits: seq<Hit>, n: nat)
    requires forall h :: h in hits ==> h.to <= h.end
    ensures Follow(Spans(hits, n)) && (hits != [] ==> Spans(hits, n) != [] && Spans(hits, n)[0].from >= n)
  {
    if hits != [] {
      EndedFollow(hits[1..], n + hits[0].end);
      if hits[1..] == [] { assert Spans(hits[1..], n + hits[0].end) == []; }
    }
  }

  /** So it is for groups that lie inside their matches, as all do outside a lookahead. */
  lemma InsideIsApart(find: Matcher, title: string)
    requires Sane(find) && Advances(find, title) && CapturesInside(find)
    ensures Apart(Spans(Turns(find, title), 0))
  {
    InsideEnded(find, title);
    EndedFollow(Turns(find, title), 0);
    CopiesInOrderIff(find, title);
    FollowingIsApart(Spans(Turns(find, title), 0), |title|);
  }

  lemma {:induction false} InsideEnded(find: Matcher, p: string)
    requires Sane(find) && Advances(find, p) && CapturesInside(find)
    ensures forall h :: h in Turns(find, p) ==> h.to <= h.end
    decreases |p|
  {
    if find(p).Some? {
      AdvancesOn(find, p);
      InsideEnded(find, p[find(p).value.end..]);
    }
  }

  /** The outcome of (?=(..))., whose group is two characters long and the match one. */
  function LookAhead(p: string): Option<Hit> {
    if |p| >= 2 then Some(Hit(1, 0, 2)) else None
  }

  lemma LookAheadAdvances(p: string)
    ensures Sane(LookAhead) && Advances(LookAhead, p)
  {
    NeverEmptyAdvances(LookAhead, p);
  }

  lemma LongerIsNoPart()
    ensures !Subsequence("abbc", "abc")
  {
    assert "abbc"[1..] == "bbc" && "bbc"[1..] == "bc" && "abc"[1..] == "bc" && "bc"[1..] == "c";
    assert !Subsequence("bc", "c") by { assert "c"[1..] == ""; }
    assert !Subsequence("bbc", "bc");
  }

  lemma LookAheadCaptures()
    ensures Sane(LookAhead) && Advances(LookAhead, "abc")
    ensures Captures(LookAhead, "abc") == ["ab", "bc"]
  {
    LookAheadAdvances("abc");
    LookAheadAdvances("bc");
    LookAheadAdvances("c");
    assert "abc"[1..] == "bc" && "bc"[1..] == "c" && "bc"[0..2] == "bc" && "abc"[0..2] == "ab";
    assert Captures(LookAhead, "c") == [];
    assert Captures(LookAhead, "bc") == ["bc"];
  }

  /** With a group in a lookahead the result may be longer than the title. */
  lemma LookAheadRepeats()
    ensures Sane(LookAhead) && Advances(LookAhead, "abc")
    ensures Concat(Captures(LookAhead, "abc")) == "abbc"
    ensures !Subsequence("abbc", "abc") && !Apart(Spans(Turns(LookAhead, "abc"), 0))
  {
    LookAheadCaptures();
    LongerIsNoPart();
    assert Concat(["bc"]) == "bc" by { assert ["bc"][1..] == []; }
    assert ["ab", "bc"][1..] == ["bc"];
    SubsequenceIff(LookAhead, "abc");
  }

  // ----- When the loop ends

  lemma {:induction false} ShrinksOrEnds(find: Matcher, p: string, n: nat)
    requires Sane(find) && Advances(find, p)
    ensures Ends(find, p, n) || |Rest(find, p, n)| + n <= |p|
  {
    if n > 0 {
      match find(p) {
        case None => NoMatchStays(find, p, n);
        case Some(h) =>
          AdvancesOn(find, p);
          ShrinksOrEnds(find, p[h.end..], n - 1);
      }
    }
  }

  /** The loop comes to an end on the piece p. */
  ghost predicate LoopEnds(find: Matcher, p: string) {
    exists n: nat :: Ends(find, p, n)
  }

  /** The loop ends exactly when none of its turns meets an empty match. */
  lemma EndsIff(find: Matcher, p: string)
    requires Sane(find)
    ensures LoopEnds(find, p) <==> Advances(find, p)
  {
    if Advances(find, p) {
      ShrinksOrEnds(find, p, |p| + 1);
      assert Ends(find, p, |p| + 1);
    }
    if n: nat, k: nat :| Ends(find, p, n) && MeetsEmpty(find, p, k) {
      if n <= k {
        RestAdds(find, p, n, k - n);
        NoMatchStays(find, Rest(find, p, n), k - n);
      } else {
        RestAdds(find, p, k, n - k);
        EmptyRepeats(find, Rest(find, p, k), n - k);
      }
      assert false;
    }
  }

  /** The loop ends on every piece exactly when the pattern never matches the empty text. */
  lemma AlwaysEndsIff(find: Matcher)
    requires Sane(find)
    ensures (forall p :: LoopEnds(find, p)) <==> NeverEmpty(find)
  {
    forall p ensures LoopEnds(find, p) <==> Advances(find, p) {
      EndsIff(find, p);
    }
    if NeverEmpty(find) {
      forall p ensures Advances(find, p) {
        NeverEmptyAdvances(find, p);
      }
    } else {
      var p :| find(p).Some? && find(p).value.end == 0;
      assert MeetsEmpty(find, p, 0) && !Advances(find, p);
      assert !LoopEnds(find, p);
    }
  }
}
