/** Expansion of the command line, of standard input and of (nested) URI list files into
    the list of media URLs. */
module Input {
  import opened Common
  import opened Dedup

  datatype Error = BadUri(uri: string, message: string) | Unreadable(path: string) | NoInput

  datatype Result = Success(urls: seq<string>) | Failure(error: Error)

  /** What GLib and the file system say: the scheme of a string ("" if none), the entries of
      a text/uri-list, the path of a file URI, the text of a file. */
  datatype Env = Env(
    scheme: string -> string,
    uris: string -> seq<string>,
    pathOf: string -> Option<string>,
    textOf: string -> Option<string>)

  const NOT_A_URI := "an invalid URI"
  const NOT_AN_INPUT := "neither a valid URI or a local file"
  const NOT_CONVERTED := "conversion failed"

  /** Something to resolve: the arguments of determine_input. */
  datatype Entry = Entry(text: string, tryFile: bool, message: string)

  /** The entries of a list file, and those of the command line. */
  function Listed(ss: seq<string>): (es: seq<Entry>)
    ensures |es| == |ss| && forall i :: 0 <= i < |ss| ==> es[i] == Entry(ss[i], false, NOT_A_URI)
  {
    seq(|ss|, i requires 0 <= i < |ss| => Entry(ss[i], false, NOT_A_URI))
  }

  function Given(ss: seq<string>): (es: seq<Entry>)
    ensures |es| == |ss| && forall i :: 0 <= i < |ss| ==> es[i] == Entry(ss[i], true, NOT_AN_INPUT)
  {
    seq(|ss|, i requires 0 <= i < |ss| => Entry(ss[i], true, NOT_AN_INPUT))
  }

  /** A result in the making: a media URL, or what is wrong with an entry. */
  datatype Item = Url(url: string) | Bad(error: Error)

  /** What a single entry stands for: an item, or further entries in its place. */
  datatype Expansion = Emit(item: Item) | Push(entries: seq<Entry>)

  function ExpandFile(env: Env, path: string): Expansion {
    match env.textOf(path)
    case None => Emit(Bad(Unreadable(path)))
    case Some(text) => Push(Listed(env.uris(text)))
  }

  function Expand(env: Env, e: Entry): Expansion {
    var c := env.scheme(e.text);
    if c == "" && e.tryFile then ExpandFile(env, e.text)
    else if c == "http" || c == "https" then Emit(Url(e.text))
    else if c == "file" then
      match env.pathOf(e.text)
      case None => Emit(Bad(BadUri(e.text, NOT_CONVERTED)))
      case Some(path) => ExpandFile(env, path)
    else Emit(Bad(BadUri(e.text, e.message)))
  }

  /** The URLs in front of the first error, and that error. */
  function UrlsOf(items: seq<Item>): seq<string> {
    if items == [] || items[0].Bad? then [] else [items[0].url] + UrlsOf(items[1..])
  }

  function FirstError(items: seq<Item>): Option<Error> {
    if items == [] then None
    else if items[0].Bad? then Some(items[0].error)
    else FirstError(items[1..])
  }

  lemma {:induction false} UrlsAppend(a: seq<Item>, b: seq<Item>)
    ensures FirstError(a + b) == if FirstError(a).Some? then FirstError(a) else FirstError(b)
    ensures UrlsOf(a + b) == UrlsOf(a) + if FirstError(a).Some? then [] else UrlsOf(b)
  {
    if a == [] {
      assert a + b == b;
    } else {
      assert (a + b)[1..] == a[1..] + b;
      UrlsAppend(a[1..], b);
    }
  }

  /** The items an entry stands for, left to right and depth first, up to the first error.
      None if that takes more than d lists inside each other. */
  function ItemsOf(env: Env, e: Entry, d: nat): Option<seq<Item>>
    decreases d, 0
  {
    match Expand(env, e)
    case Emit(item) => Some([item])
    case Push(es) => if d == 0 then None else Items(env, es, d - 1)
  }

  function Items(env: Env, es: seq<Entry>, d: nat): Option<seq<Item>>
    decreases d, |es| + 1
  {
    if es == [] then Some([])
    else
      var first := ItemsOf(env, es[0], d);
      if first == None || FirstError(first.value).Some? then first
      else
        match Items(env, es[1..], d)
        case None => None
        case Some(rest) => Some(first.value + rest)
  }

  /** A larger bound changes nothing. */
  lemma {:induction false} ItemsStable(env: Env, es: seq<Entry>, d: nat, m: nat)
    requires d <= m && Items(env, es, d).Some?
    ensures Items(env, es, m) == Items(env, es, d)
    decreases d, |es|
  {
    if es != [] {
      match Expand(env, es[0]) {
        case Emit(_) =>
        case Push(inner) => ItemsStable(env, inner, d - 1, m - 1);
      }
      if FirstError(ItemsOf(env, es[0], d).value) == None {
        ItemsStable(env, es[1..], d, m);
      }
    }
  }

  /** There is a bound on how deeply the lists that are read lie inside each other. */
  ghost predicate Resolvable(env: Env, es: seq<Entry>) {
    exists d: nat :: Items(env, es, d).Some?
  }

  // ----- The resolver

  /** The vector that the resolver fills. */
  class Vector {
    var items: seq<string>
    constructor ()
      ensures items == []
    { items := []; }
  }

  method DetermineInput(env: Env, dst: Vector, s: string, tryFile: bool, message: string, ghost d: nat)
    returns (error: Option<Error>)
    requires ItemsOf(env, Entry(s, tryFile, message), d).Some?
    modifies dst
    ensures var items := ItemsOf(env, Entry(s, tryFile, message), d).value;
      error == FirstError(items) && dst.items == old(dst.items) + UrlsOf(items)
    decreases d, 1
  {
    ghost var e := Entry(s, tryFile, message);
    var c := env.scheme(s);
    if c == "" && tryFile {
      error := ReadList(env, dst, s, e, d);
    } else if c == "http" || c == "https" {
      dst.items := dst.items + [s];
      return None;
    } else if c == "file" {
      var path := env.pathOf(s);
      if path == None {
        return Some(BadUri(s, NOT_CONVERTED));
      }
      error := ReadList(env, dst, path.value, e, d);
    } else {
      return Some(BadUri(s, message));
    }
  }

  /** Reads the list at path, to which the entry e refers. */
  method ReadList(env: Env, dst: Vector, path: string, ghost e: Entry, ghost d: nat)
    returns (error: Option<Error>)
    requires Expand(env, e) == ExpandFile(env, path) && ItemsOf(env, e, d).Some?
    modifies dst
    ensures var items := ItemsOf(env, e, d).value;
      error == FirstError(items) && dst.items == old(dst.items) + UrlsOf(items)
    decreases d, 0
  {
    var text := env.textOf(path);
    if text == None {
      return Some(Unreadable(path));
    }
    error := ExtractUris(env, dst, text.value, d - 1);
  }

  method ExtractUris(env: Env, dst: Vector, text: string, ghost d: nat) returns (error: Option<Error>)
    requires Items(env, Listed(env.uris(text)), d).Some?
    modifies dst
    ensures var items := Items(env, Listed(env.uris(text)), d).value;
      error == FirstError(items) && dst.items == old(dst.items) + UrlsOf(items)
    decreases d, 3
  {
    error := ResolveEach(env, dst, Listed(env.uris(text)), d);
  }

  /** One entry after the other, up to the first that fails. */
  method ResolveEach(env: Env, dst: Vector, es: seq<Entry>, ghost d: nat) returns (error: Option<Error>)
    requires Items(env, es, d).Some?
    modifies dst
    ensures var items := Items(env, es, d).value;
      error == FirstError(items) && dst.items == old(dst.items) + UrlsOf(items)
    decreases d, 2
  {
    ghost var all, before := Items(env, es, d).value, dst.items;
    assert es[0..] == es;
    var i := 0;
    while i < |es|
      invariant 0 <= i <= |es| && Items(env, es[i..], d).Some?
      invariant FirstError(all) == FirstError(Items(env, es[i..], d).value)
      invariant before + UrlsOf(all) == dst.items + UrlsOf(Items(env, es[i..], d).value)
    {
      EntryStep(env, es, i, d, dst.items);
      error := DetermineInput(env, dst, es[i].text, es[i].tryFile, es[i].message, d);
      if error.Some? {
        return;
      }
      i := i + 1;
    }
    return None;
  }

  lemma EntryStep(env: Env, es: seq<Entry>, i: nat, d: nat, urls: seq<string>)
    requires i < |es| && Items(env, es[i..], d).Some?
    ensures ItemsOf(env, es[i], d).Some?
    ensures var here, all := ItemsOf(env, es[i], d).value, Items(env, es[i..], d).value;
      if FirstError(here).Some? then FirstError(all) == FirstError(here) && UrlsOf(all) == UrlsOf(here)
      else Items(env, es[i + 1..], d).Some?
           && var rest := Items(env, es[i + 1..], d).value;
              FirstError(all) == FirstError(rest) && urls + UrlsOf(all) == urls + UrlsOf(here) + UrlsOf(rest)
  {
    assert es[i..][0] == es[i] && es[i..][1..] == es[i + 1..];
    var here := ItemsOf(env, es[i], d).value;
    if FirstError(here) == None {
      UrlsAppend(here, Items(env, es[i + 1..], d).value);
    }
  }

  /** What a program start has to resolve: its arguments, or without any standard input. */
  function InputEntries(env: Env, args: seq<string>, stdin: string): seq<Entry> {
    if args == [] then Listed(env.uris(stdin)) else Given(args)
  }

  function ResultOf(items: seq<Item>): Result {
    match FirstError(items)
    case Some(error) => Failure(error)
    case None => if UrlsOf(items) == [] then Failure(NoInput) else Success(FirstOccurrences(UrlsOf(items)))
  }

  predicate IsMediaUrl(env: Env, s: string) {
    env.scheme(s) == "http" || env.scheme(s) == "https"
  }

  predicate AllMedia(env: Env, ss: seq<string>) {
    forall s :: s in ss ==> IsMediaUrl(env, s)
  }

  /** The reason that an error gives is true: what is refused is no http or https URL, what
      cannot be read has no text. Without a scheme only a line of a list is refused. */
  predicate Justified(env: Env, error: Error) {
    match error
    case BadUri(s, message) =>
      && !IsMediaUrl(env, s)
      && (if env.scheme(s) == "file" then message == NOT_CONVERTED && env.pathOf(s) == None
          else message == NOT_A_URI || (message == NOT_AN_INPUT && env.scheme(s) != ""))
    case Unreadable(path) => env.textOf(path) == None
    case NoInput => true
  }

  /** input::parse. */
  method Parse(env: Env, args: seq<string>, stdin: string) returns (r: Result)
    requires Resolvable(env, InputEntries(env, args, stdin))
    ensures forall d: nat | Items(env, InputEntries(env, args, stdin), d).Some? ::
      r == ResultOf(Items(env, InputEntries(env, args, stdin), d).value)
    ensures r.Success? ==> r.urls != [] && Distinct(r.urls) && forall u :: u in r.urls ==> IsMediaUrl(env, u)
    ensures AllMedia(env, args) && args != [] ==> r == Success(FirstOccurrences(args))
    ensures AllMedia(env, env.uris(stdin)) && env.uris(stdin) != [] && args == [] ==>
      r == Success(FirstOccurrences(env.uris(stdin)))
    ensures args == [] && env.uris(stdin) == [] ==> r == Failure(NoInput)
    ensures r.Failure? ==> Justified(env, r.error)
  {
    ghost var es := InputEntries(env, args, stdin);
    ghost var d: nat :| Items(env, es, d).Some?;
    ghost var items := Items(env, es, d).value;
    var dst := new Vector();
    var error: Option<Error>;
    if args == [] {
      error := ExtractUris(env, dst, stdin, d);
    } else {
      error := ResolveEach(env, dst, Given(args), d);
    }
    AnyBound(env, es, d);
    MediaAccepted(env, es, d);
    if AllMedia(env, args) { GivenMedia(env, args); }
    if AllMedia(env, env.uris(stdin)) { ListedMedia(env, env.uris(stdin)); }
    ErrorsJustified(env, es, d);
    if error.Some? {
      r := Failure(error.value);
      assert r == ResultOf(items);
      return;
    }
    assert dst.items == UrlsOf(items);
    var urls := RemoveDuplicates(dst.items);
    ItemsAreMedia(env, es, d);
    UrlsComeFromItems(items);
    r := if urls == [] then Failure(NoInput) else Success(urls);
    assert r == ResultOf(items);
  }

  // ----- What is accepted and what is refused

  function TextsOf(es: seq<Entry>): (ss: seq<string>)
    ensures |ss| == |es| && forall i :: 0 <= i < |es| ==> ss[i] == es[i].text
  {
    seq(|es|, i requires 0 <= i < |es| => es[i].text)
  }

  lemma GivenMedia(env: Env, ss: seq<string>)
    requires AllMedia(env, ss)
    ensures TextsOf(Given(ss)) == ss && AllMedia(env, TextsOf(Given(ss)))
  {
  }

  lemma ListedMedia(env: Env, ss: seq<string>)
    requires AllMedia(env, ss)
    ensures TextsOf(Listed(ss)) == ss && AllMedia(env, TextsOf(Listed(ss)))
  {
  }

  /** http and https URLs stand for themselves, wherever they are given. */
  lemma {:induction false} MediaAccepted(env: Env, es: seq<Entry>, d: nat)
    ensures AllMedia(env, TextsOf(es)) ==>
      && Items(env, es, d).Some?
      && FirstError(Items(env, es, d).value) == None
      && UrlsOf(Items(env, es, d).value) == TextsOf(es)
    decreases |es|
  {
    if es != [] && AllMedia(env, TextsOf(es)) {
      assert forall i :: 0 <= i < |es| ==> TextsOf(es)[i] in TextsOf(es);
      assert TextsOf(es)[1..] == TextsOf(es[1..]);
      MediaAccepted(env, es[1..], d);
      assert ItemsOf(env, es[0], d) == Some([Url(es[0].text)]);
      UrlsAppend([Url(es[0].text)], Items(env, es[1..], d).value);
      assert UrlsOf([Url(es[0].text)]) == [es[0].text];
    }
  }

  lemma MediaResolvable(env: Env, es: seq<Entry>)
    requires AllMedia(env, TextsOf(es))
    ensures Resolvable(env, es)
  {
    MediaAccepted(env, es, 0);
  }

  /** An argument of the program, or a line of a list. */
  predicate Ordinary(e: Entry) {
    if e.tryFile then e.message == NOT_AN_INPUT else e.message == NOT_A_URI
  }

  lemma {:induction false} ErrorsJustified(env: Env, es: seq<Entry>, d: nat)
    requires Items(env, es, d).Some? && forall e :: e in es ==> Ordinary(e)
    ensures forall error :: Bad(error) in Items(env, es, d).value ==> Justified(env, error)
    ensures FirstError(Items(env, es, d).value).Some? ==>
      Justified(env, FirstError(Items(env, es, d).value).value)
    decreases d, |es|
  {
    if es != [] {
      var e := es[0];
      assert Ordinary(e);
      match Expand(env, e) {
        case Emit(_) =>
        case Push(inner) =>
          assert forall x :: x in inner ==> Ordinary(x) by { PushedAreListed(env, e); }
          ErrorsJustified(env, inner, d - 1);
      }
      if FirstError(ItemsOf(env, e, d).value) == None {
        ErrorsJustified(env, es[1..], d);
      }
      FirstErrorIsBad(Items(env, es, d).value);
    }
  }

  lemma PushedAreListed(env: Env, e: Entry)
    requires Expand(env, e).Push?
    ensures forall x :: x in Expand(env, e).entries ==> Ordinary(x)
  {
  }

  lemma {:induction false} FirstErrorIsBad(items: seq<Item>)
    ensures FirstError(items).Some? ==> Bad(FirstError(items).value) in items
  {
    if items != [] {
      FirstErrorIsBad(items[1..]);
    }
  }

  /** The path of the list that an argument or a line names: the argument itself if it has no
      scheme, the path of a file URI. */
  function ListPath(env: Env, s: string, tryFile: bool): Option<string> {
    if env.scheme(s) == "" then (if tryFile then Some(s) else None)
    else if env.scheme(s) == "file" then env.pathOf(s)
    else None
  }

  /** Naming a list that can be read is as good as giving its lines, on standard input or in
      the list that names it. */
  lemma ListStandsForItsLines(env: Env, s: string, tryFile: bool, message: string, path: string, text: string, d: nat)
    requires ListPath(env, s, tryFile) == Some(path) && env.textOf(path) == Some(text)
    ensures ItemsOf(env, Entry(s, tryFile, message), d + 1) == Items(env, Listed(env.uris(text)), d)
    ensures tryFile ==> Items(env, Given([s]), d + 1) == Items(env, InputEntries(env, [], text), d)
  {
    OneGiven(env, s, d + 1);
  }

  lemma OneGiven(env: Env, s: string, d: nat)
    ensures Items(env, Given([s]), d) == ItemsOf(env, Entry(s, true, NOT_AN_INPUT), d)
  {
    var es := Given([s]);
    assert es == [Entry(s, true, NOT_AN_INPUT)] && es[1..] == [];
    var first := ItemsOf(env, es[0], d);
    if first.Some? {
      assert first.value + [] == first.value;
    }
  }

  /** Exactly when an argument or a line is no error by itself: an http or https URL, or the
      name of a list that can be read. */
  lemma AcceptedIff(env: Env, s: string, tryFile: bool, message: string)
    ensures var e := Expand(env, Entry(s, tryFile, message));
      && (e == Emit(Url(s)) <==> IsMediaUrl(env, s))
      && (e.Push? <==> var p := ListPath(env, s, tryFile); p.Some? && env.textOf(p.value).Some?)
      && (e.Emit? && e.item.Bad? <==>
            !IsMediaUrl(env, s) && var p := ListPath(env, s, tryFile); p == None || env.textOf(p.value) == None)
  {
  }

  lemma AnyBound(env: Env, es: seq<Entry>, d: nat)
    requires Items(env, es, d).Some?
    ensures forall m: nat | Items(env, es, m).Some? :: Items(env, es, m) == Items(env, es, d)
  {
    forall m: nat | Items(env, es, m).Some? ensures Items(env, es, m) == Items(env, es, d) {
      if d <= m {
        ItemsStable(env, es, d, m);
      } else {
        ItemsStable(env, es, m, d);
      }
    }
  }

  /** remove_duplicates, up to its check for an empty result. */
  method RemoveDuplicates(urls: seq<string>) returns (r: seq<string>)
    ensures r == FirstOccurrences(urls) && Distinct(r)
    ensures forall u :: u in r <==> u in urls
    ensures r == [] <==> urls == []
  {
    var a := new string[|urls|](i requires 0 <= i < |urls| => urls[i]);
    assert a[..] == urls;
    var last := Duplicates(a);
    CompactedKeepsFirst(urls);
    CompactedIsSet(urls);
    r := a[..last];
    assert urls != [] ==> urls[0] in r;
  }

  // ----- Properties of the items

  ghost predicate MediaOnly(env: Env, items: seq<Item>) {
    forall i :: i in items && i.Url? ==> IsMediaUrl(env, i.url)
  }

  lemma {:induction false} ItemsAreMedia(env: Env, es: seq<Entry>, d: nat)
    requires Items(env, es, d).Some?
    ensures MediaOnly(env, Items(env, es, d).value)
    decreases d, |es|
  {
    if es != [] {
      match Expand(env, es[0]) {
        case Emit(_) =>
        case Push(inner) => ItemsAreMedia(env, inner, d - 1);
      }
      if FirstError(ItemsOf(env, es[0], d).value) == None {
        ItemsAreMedia(env, es[1..], d);
      }
    }
  }

  lemma {:induction false} UrlsComeFromItems(items: seq<Item>)
    ensures forall u :: u in UrlsOf(items) ==> Url(u) in items
  {
    if items != [] && items[0].Url? {
      UrlsComeFromItems(items[1..]);
    }
  }

  // ----- Depth first order, by an explicit stack

  /** The entries still to be looked at, next one first, and the items found so far. */
  datatype Walker = Walker(stack: seq<Entry>, found: seq<Item>)

  /** Nothing is left, or an error was found. */
  predicate Finished(w: Walker) {
    w.stack == [] || FirstError(w.found).Some?
  }

  function Step(env: Env, w: Walker): Walker {
    if Finished(w) then w
    else match Expand(env, w.stack[0])
      case Emit(item) => Walker(w.stack[1..], w.found + [item])
      case Push(es) => Walker(es + w.stack[1..], w.found)
  }

  function Steps(env: Env, n: nat, w: Walker): Walker {
    if n == 0 then w else Steps(env, n - 1, Step(env, w))
  }

  lemma {:induction false} StepsAdd(env: Env, m: nat, n: nat, w: Walker)
    ensures Steps(env, m + n, w) == Steps(env, n, Steps(env, m, w))
  {
    if m > 0 {
      StepsAdd(env, m - 1, n, Step(env, w));
    }
  }

  lemma {:induction false} FinishedStays(env: Env, n: nat, w: Walker)
    requires Finished(w)
    ensures Steps(env, n, w) == w
  {
    if n > 0 {
      FinishedStays(env, n - 1, w);
    }
  }

  /** Where a walk stands that has dealt with es. */
  predicate PastEntries(w: Walker, rest: seq<Entry>, found: seq<Item>, items: seq<Item>) {
    w.found == found + items && (FirstError(items) == None ==> w.stack == rest)
  }

  /** The recursion finds exactly the items, in exactly the order, of a walk that always
      replaces the next entry by what it stands for, and stops at the same error. */
  lemma {:induction false} ItemsByWalk(env: Env, es: seq<Entry>, rest: seq<Entry>, found: seq<Item>, d: nat)
    returns (n: nat)
    requires FirstError(found) == None && Items(env, es, d).Some?
    ensures PastEntries(Steps(env, n, Walker(es + rest, found)), rest, found, Items(env, es, d).value)
    decreases d, |es|, 0
  {
    if es == [] {
      assert es + rest == rest && found + [] == found;
      return 0;
    }
    var here := ItemsOf(env, es[0], d).value;
    var k := EntryByWalk(env, es[0], es[1..] + rest, found, d);
    assert [es[0]] + (es[1..] + rest) == es + rest;
    if FirstError(here).Some? {
      return k;
    }
    var m := ItemsByWalkBehind(env, es[1..], rest, found, here, d);
    StepsAdd(env, k, m, Walker(es + rest, found));
    return k + m;
  }

  lemma {:induction false} ItemsByWalkBehind(env: Env, es: seq<Entry>, rest: seq<Entry>, found: seq<Item>,
                                             here: seq<Item>, d: nat)
    returns (n: nat)
    requires FirstError(found) == None && FirstError(here) == None && Items(env, es, d).Some?
    ensures PastEntries(Steps(env, n, Walker(es + rest, found + here)), rest, found,
                        here + Items(env, es, d).value)
    decreases d, |es|, 1
  {
    UrlsAppend(found, here);
    n := ItemsByWalk(env, es, rest, found + here, d);
    Assoc(found, here, Items(env, es, d).value);
    UrlsAppend(here, Items(env, es, d).value);
  }

  lemma {:induction false} EntryByWalk(env: Env, e: Entry, rest: seq<Entry>, found: seq<Item>, d: nat)
    returns (n: nat)
    requires FirstError(found) == None && ItemsOf(env, e, d).Some?
    ensures PastEntries(Steps(env, n, Walker([e] + rest, found)), rest, found, ItemsOf(env, e, d).value)
    decreases d, 0, 0
  {
    var w := Walker([e] + rest, found);
    assert w.stack[1..] == rest && !Finished(w);
    match Expand(env, e)
    case Emit(item) =>
      assert Steps(env, 1, w) == Step(env, w);
      return 1;
    case Push(inner) =>
      var k := ItemsByWalk(env, inner, rest, found, d - 1);
      return 1 + k;
  }

  // ----- When the resolver ends

  lemma FirstStep(env: Env, es: seq<Entry>, rest: seq<Entry>, found: seq<Item>, n: nat)
    requires es != [] && n > 0 && FirstError(found) == None
    ensures Steps(env, n, Walker(es + rest, found)) == Steps(env, n - 1,
      match Expand(env, es[0])
      case Emit(item) => Walker(es[1..] + rest, found + [item])
      case Push(inner) => Walker(inner + (es[1..] + rest), found))
  {
    assert (es + rest)[1..] == es[1..] + rest;
  }

  lemma ItemsBehind(env: Env, es: seq<Entry>, d: nat)
    requires es != [] && ItemsOf(env, es[0], d).Some?
    requires FirstError(ItemsOf(env, es[0], d).value) == None ==> Items(env, es[1..], d).Some?
    ensures Items(env, es, d).Some?
  {
  }

  /** A walk that finishes within n steps has read lists no deeper than n. */
  lemma {:induction false} FinishedWalkIsBounded(env: Env, es: seq<Entry>, rest: seq<Entry>,
                                                 found: seq<Item>, n: nat)
    requires FirstError(found) == None && Finished(Steps(env, n, Walker(es + rest, found)))
    ensures Items(env, es, n).Some?
    decreases n, 0
  {
    if es != [] {
      assert !Finished(Walker(es + rest, found));
      FirstStep(env, es, rest, found, n);
      match Expand(env, es[0]) {
        case Emit(item) =>
          if item.Url? {
            UrlsAppend(found, [item]);
            FinishedWalkIsBounded(env, es[1..], rest, found + [item], n - 1);
            ItemsStable(env, es[1..], n - 1, n);
          }
        case Push(inner) =>
          PushedWalkIsBounded(env, inner, es[1..], rest, found, n - 1);
          if FirstError(Items(env, inner, n - 1).value) == None {
            ItemsStable(env, es[1..], n - 1, n);
          }
      }
      ItemsBehind(env, es, n);
    }
  }

  lemma {:induction false} PushedWalkIsBounded(env: Env, inner: seq<Entry>, es: seq<Entry>, rest: seq<Entry>,
                                               found: seq<Item>, n: nat)
    requires FirstError(found) == None && Finished(Steps(env, n, Walker(inner + (es + rest), found)))
    ensures Items(env, inner, n).Some?
    ensures FirstError(Items(env, inner, n).value) == None ==> Items(env, es, n).Some?
    decreases n, 2
  {
    FinishedWalkIsBounded(env, inner, es + rest, found, n);
    if FirstError(Items(env, inner, n).value) == None {
      RestIsBounded(env, inner, es, rest, found, n);
    }
  }

  /** Having dealt with inner, the walk goes on with the rest in the steps that are left. */
  lemma {:induction false} RestIsBounded(env: Env, inner: seq<Entry>, es: seq<Entry>, rest: seq<Entry>,
                                         found: seq<Item>, n: nat)
    requires FirstError(found) == None && Finished(Steps(env, n, Walker(inner + (es + rest), found)))
    requires Items(env, inner, n).Some? && FirstError(Items(env, inner, n).value) == None
    ensures Items(env, es, n).Some?
    decreases n, 1
  {
    var w, items := Walker(inner + (es + rest), found), Items(env, inner, n).value;
    var k := ItemsByWalk(env, inner, es + rest, found, n);
    UrlsAppend(found, items);
    var past := Walker(es + rest, found + items);
    assert Steps(env, k, w) == past;
    if k <= n {
      StepsAdd(env, k, n - k, w);
      FinishedWalkIsBounded(env, es, rest, found + items, n - k);
      ItemsStable(env, es, n - k, n);
    } else {
      StepsAdd(env, n, k - n, w);
      FinishedStays(env, k - n, Steps(env, n, w));
      assert es + rest == [] && es == [];
    }
  }

  /** The entry fails, before or after some depth of lists. */
  ghost predicate Fails(env: Env, e: Entry) {
    exists d: nat :: ItemsOf(env, e, d).Some? && FirstError(ItemsOf(env, e, d).value).Some?
  }

  /** Entry i refers to a list, and no entry in front of it fails. */
  ghost predicate RefersAt(env: Env, es: seq<Entry>, i: nat) {
    i < |es| && Expand(env, es[i]).Push? && forall j :: 0 <= j < i ==> !Fails(env, es[j])
  }

  /** A chain of n references starts in es: an entry that is reached refers to a list, in
      which an entry that is reached refers to a list, and so on. */
  ghost predicate Chain(env: Env, es: seq<Entry>, n: nat)
    decreases n
  {
    n == 0 || exists i: nat :: RefersAt(env, es, i) && Chain(env, Expand(env, es[i]).entries, n - 1)
  }

  lemma ItemsOfStable(env: Env, e: Entry, d: nat, m: nat)
    requires d <= m && ItemsOf(env, e, d).Some?
    ensures ItemsOf(env, e, m) == ItemsOf(env, e, d)
  {
    match Expand(env, e)
    case Emit(_) =>
    case Push(inner) => ItemsStable(env, inner, d - 1, m - 1);
  }

  /** What an entry comes to at one bound settles whether it fails. */
  lemma FailsIff(env: Env, e: Entry, d: nat)
    requires ItemsOf(env, e, d).Some?
    ensures Fails(env, e) <==> FirstError(ItemsOf(env, e, d).value).Some?
  {
    if Fails(env, e) {
      var m: nat :| ItemsOf(env, e, m).Some? && FirstError(ItemsOf(env, e, m).value).Some?;
      if d <= m { ItemsOfStable(env, e, d, m); } else { ItemsOfStable(env, e, m, d); }
    }
  }

  /** The lists that are read lie no deeper than d inside each other exactly when no chain of
      more than d references starts in the entries. */
  lemma {:induction false} BoundedIff(env: Env, es: seq<Entry>, d: nat)
    ensures Items(env, es, d).Some? <==> !Chain(env, es, d + 1)
    decreases d, |es|
  {
    if es != [] {
      var e, more := es[0], es[1..];
      if Expand(env, e).Push? && d > 0 {
        BoundedIff(env, Expand(env, e).entries, d - 1);
      }
      ChainAtHead(env, es, d);
      if ItemsOf(env, e, d).Some? {
        FailsIff(env, e, d);
        if !Fails(env, e) {
          BoundedIff(env, more, d);
          ChainBehind(env, es, d + 1);
        }
      }
    }
  }

  /** The first entry is always reached. */
  lemma ChainAtHead(env: Env, es: seq<Entry>, d: nat)
    requires es != []
    requires Expand(env, es[0]).Push? && d > 0 ==>
      (Items(env, Expand(env, es[0]).entries, d - 1).Some? <==> !Chain(env, Expand(env, es[0]).entries, d))
    ensures ItemsOf(env, es[0], d) == None ==> Chain(env, es, d + 1)
    ensures ItemsOf(env, es[0], d).Some? && Fails(env, es[0]) ==> !Chain(env, es, d + 1)
  {
    if ItemsOf(env, es[0], d) == None {
      assert RefersAt(env, es, 0) && Chain(env, Expand(env, es[0]).entries, d);
    } else if Fails(env, es[0]) {
      forall i: nat ensures !(RefersAt(env, es, i) && Chain(env, Expand(env, es[i]).entries, d)) {
        assert RefersAt(env, es, i) ==> i == 0;
      }
    }
  }

  /** Behind a first entry that does not fail and starts no chain, a chain starts exactly if
      it starts in the others. */
  lemma ChainBehind(env: Env, es: seq<Entry>, n: nat)
    requires es != [] && n > 0 && !Fails(env, es[0])
    requires Expand(env, es[0]).Push? ==> !Chain(env, Expand(env, es[0]).entries, n - 1)
    ensures Chain(env, es, n) <==> Chain(env, es[1..], n)
  {
    var more := es[1..];
    if Chain(env, es, n) {
      var i: nat :| RefersAt(env, es, i) && Chain(env, Expand(env, es[i]).entries, n - 1);
      assert i > 0 && more[i - 1] == es[i];
      assert forall j :: 0 <= j < i - 1 ==> more[j] == es[j + 1];
      assert RefersAt(env, more, i - 1);
    }
    if Chain(env, more, n) {
      var i: nat :| RefersAt(env, more, i) && Chain(env, Expand(env, more[i]).entries, n - 1);
      assert es[i + 1] == more[i];
      assert forall j :: 0 < j < i + 1 ==> es[j] == more[j - 1];
      assert RefersAt(env, es, i + 1);
    }
  }

  /** The chains of references that start in es are bounded, those behind an entry that fails
      left out. */
  ghost predicate ChainsBounded(env: Env, es: seq<Entry>) {
    exists d: nat :: !Chain(env, es, d)
  }

  lemma ResolvableIff(env: Env, es: seq<Entry>)
    ensures Resolvable(env, es) <==> ChainsBounded(env, es)
  {
    if ChainsBounded(env, es) {
      var d: nat :| !Chain(env, es, d);
      BoundWitness(env, es, d - 1);
    }
    if Resolvable(env, es) {
      var d: nat :| Items(env, es, d).Some?;
      BoundWitness(env, es, d);
    }
  }

  lemma BoundWitness(env: Env, es: seq<Entry>, d: nat)
    requires Items(env, es, d).Some? || !Chain(env, es, d + 1)
    ensures Resolvable(env, es) && ChainsBounded(env, es)
  {
    BoundedIff(env, es, d);
    var n := d + 1;
    assert !Chain(env, es, n);
  }

  /** The walk over es stops, having run out of entries or met an error. */
  ghost predicate WalkEnds(env: Env, es: seq<Entry>) {
    exists n: nat :: Finished(Steps(env, n, Walker(es, [])))
  }

  lemma EndedWalkIsResolvable(env: Env, es: seq<Entry>, n: nat)
    requires Finished(Steps(env, n, Walker(es, [])))
    ensures Resolvable(env, es)
  {
    assert es + [] == es;
    FinishedWalkIsBounded(env, es, [], [], n);
    BoundWitness(env, es, n);
  }

  lemma ResolvableWalkEnds(env: Env, es: seq<Entry>, d: nat)
    requires Items(env, es, d).Some?
    ensures WalkEnds(env, es)
  {
    assert es + [] == es;
    var n := ItemsByWalk(env, es, [], [], d);
    UrlsAppend([], Items(env, es, d).value);
    assert Finished(Steps(env, n, Walker(es, [])));
  }

  /** Exactly when the resolver ends. */
  lemma ResolverEndsIff(env: Env, es: seq<Entry>)
    ensures WalkEnds(env, es) <==> ChainsBounded(env, es)
  {
    ResolvableIff(env, es);
    if WalkEnds(env, es) {
      var n: nat :| Finished(Steps(env, n, Walker(es, [])));
      EndedWalkIsResolvable(env, es, n);
    }
    if Resolvable(env, es) {
      var d: nat :| Items(env, es, d).Some?;
      ResolvableWalkEnds(env, es, d);
    }
  }

  /** A list that names itself in an entry that is reached is read forever. */
  lemma {:induction false} SelfReferenceChains(env: Env, e: Entry, i: nat, n: nat)
    requires Expand(env, e).Push? && RefersAt(env, Expand(env, e).entries, i)
    requires Expand(env, e).entries[i] == e
    ensures Chain(env, Expand(env, e).entries, n)
  {
    if n > 0 {
      SelfReferenceChains(env, e, i, n - 1);
    }
  }

  lemma SelfReferenceNeverEnds(env: Env, e: Entry, i: nat)
    requires Expand(env, e).Push? && RefersAt(env, Expand(env, e).entries, i)
    requires Expand(env, e).entries[i] == e
    ensures !WalkEnds(env, Expand(env, e).entries)
  {
    forall n: nat ensures Chain(env, Expand(env, e).entries, n) {
      SelfReferenceChains(env, e, i, n);
    }
    ResolverEndsIff(env, Expand(env, e).entries);
  }

  /** An entry that fails ends the resolver, whatever stands behind it. */
  lemma BadEntryEnds(env: Env, es: seq<Entry>)
    requires es != [] && Fails(env, es[0])
    ensures Resolvable(env, es)
  {
    var d: nat :| ItemsOf(env, es[0], d).Some? && FirstError(ItemsOf(env, es[0], d).value).Some?;
    assert Items(env, es, d) == ItemsOf(env, es[0], d);
  }
}
