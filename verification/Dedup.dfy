/** The stable in-place de-duplication of the input list: nested std::remove passes. */
module Dedup {

  function Without<T(==)>(s: seq<T>, v: T): seq<T> {
    if s == [] then []
    else Without(s[..|s| - 1], v) + if s[|s| - 1] == v then [] else [s[|s| - 1]]
  }

  lemma {:induction false} WithoutMember<T>(s: seq<T>, v: T)
    ensures forall x :: x in Without(s, v) <==> x in s && x != v
    ensures |Without(s, v)| <= |s|
  {
    if s != [] {
      WithoutMember(s[..|s| - 1], v);
      assert s == s[..|s| - 1] + [s[|s| - 1]];
    }
  }

  lemma WithoutSnoc<T>(s: seq<T>, x: T, v: T)
    ensures Without(s + [x], v) == if x == v then Without(s, v) else Without(s, v) + [x]
  {
  }

  /** What the nested passes compute: keep the head, remove its copies, go on. */
  function Compacted<T(==)>(s: seq<T>): seq<T>
    decreases |s|
  {
    if s == [] then []
    else
      WithoutMember(s[1..], s[0]);
      [s[0]] + Compacted(Without(s[1..], s[0]))
  }

  /** The reference: an element is kept exactly when it has not been seen before. */
  function FirstOccurrences<T(==)>(s: seq<T>): seq<T> {
    if s == [] then []
    else
      var init, x := s[..|s| - 1], s[|s| - 1];
      FirstOccurrences(init) + if x in init then [] else [x]
  }

  lemma {:induction false} CompactedAppend<T>(s: seq<T>, x: T)
    ensures Compacted(s + [x]) == Compacted(s) + if x in s then [] else [x]
    decreases |s|
  {
    if s == [] {
      assert s + [x] == [x] && [x][1..] == [];
    } else {
      var t, v := s[1..], s[0];
      var u := Without(t, v);
      WithoutMember(t, v);
      WithoutSnoc(t, x, v);
      assert (s + [x])[1..] == t + [x];
      assert Compacted(s + [x]) == [v] + Compacted(Without(t + [x], v));
      assert x in s <==> x == v || x in t;
      if x != v {
        CompactedAppend(u, x);
        assert [v] + (Compacted(u) + [x]) == ([v] + Compacted(u)) + [x];
      }
    }
  }

  /** Nested removal keeps exactly the first occurrences, in their order. */
  lemma {:induction false} CompactedKeepsFirst<T>(s: seq<T>)
    ensures Compacted(s) == FirstOccurrences(s)
  {
    if s != [] {
      CompactedKeepsFirst(s[..|s| - 1]);
      CompactedAppend(s[..|s| - 1], s[|s| - 1]);
      assert s[..|s| - 1] + [s[|s| - 1]] == s;
    }
  }

  predicate Distinct<T(==)>(s: seq<T>) {
    forall i, j :: 0 <= i < j < |s| ==> s[i] != s[j]
  }

  lemma {:induction false} CompactedIsSet<T>(s: seq<T>)
    ensures Distinct(Compacted(s))
    ensures forall x :: x in Compacted(s) <==> x in s
    decreases |s|
  {
    if s != [] {
      WithoutMember(s[1..], s[0]);
      var rest := Compacted(Without(s[1..], s[0]));
      CompactedIsSet(Without(s[1..], s[0]));
      assert forall k :: 0 <= k < |rest| ==> rest[k] in rest;
      assert forall x :: x in s <==> x == s[0] || x in s[1..];
    }
  }

  /** A list without duplicates is left as it is; so a second pass changes nothing. */
  lemma {:induction false} DistinctStays<T>(s: seq<T>)
    requires Distinct(s)
    ensures Compacted(s) == s
    decreases |s|
  {
    if s != [] {
      WithoutAbsent(s[1..], s[0]);
      DistinctStays(s[1..]);
    }
  }

  lemma {:induction false} WithoutAbsent<T>(s: seq<T>, v: T)
    requires v !in s
    ensures Without(s, v) == s
  {
    if s != [] {
      WithoutAbsent(s[..|s| - 1], v);
    }
  }

  lemma WithoutNext<T>(s: seq<T>, lo: nat, i: nat, v: T)
    requires lo <= i < |s|
    ensures Without(s[lo..i + 1], v) == Without(s[lo..i], v) + if s[i] == v then [] else [s[i]]
  {
    assert s[lo..i + 1] == s[lo..i] + [s[i]];
    WithoutSnoc(s[lo..i], s[i], v);
  }

  lemma SliceSnoc<T>(s: seq<T>, lo: nat, end: nat, x: T)
    requires lo <= end < |s|
    ensures s[end := x][lo..end + 1] == s[lo..end] + [x]
  {
  }

  /** std::remove on [lo, hi): moves what is kept to the front and returns its end. */
  method Remove<T(==)>(a: array<T>, lo: nat, hi: nat, v: T) returns (end: nat)
    requires lo <= hi <= a.Length
    modifies a
    ensures lo <= end <= hi
    ensures a[lo..end] == Without(old(a[lo..hi]), v)
    ensures a[..lo] == old(a[..lo])
  {
    ghost var was := a[..];
    end := lo;
    var i := lo;
    while i < hi
      invariant lo <= end <= i <= hi
      invariant a[..][lo..end] == Without(was[lo..i], v)
      invariant forall k :: 0 <= k < lo || i <= k < a.Length ==> a[k] == was[k]
    {
      WithoutNext(was, lo, i, v);
      if a[i] != v {
        SliceSnoc(a[..], lo, end, was[i]);
        a[end] := a[i];
        end := end + 1;
      }
      i := i + 1;
    }
    assert a[lo..end] == a[..][lo..end] && old(a[lo..hi]) == was[lo..hi];
  }

  /** input::duplicates: the returned end delimits the de-duplicated list. */
  method Duplicates<T(==)>(a: array<T>) returns (last: nat)
    modifies a
    ensures last <= a.Length
    ensures a[..last] == FirstOccurrences(old(a[..]))
  {
    var first := 0;
    last := a.Length;
    ghost var was := a[..];
    assert a[first..last] == was;
    while first != last
      invariant first <= last <= a.Length
      invariant a[..first] + Compacted(a[first..last]) == Compacted(was)
      decreases last - first
    {
      ghost var done, todo := a[..first], a[first..last];
      var next := first + 1;
      assert a[next..last] == todo[1..] && a[..next] == done + [todo[0]];
      last := Remove(a, next, last, a[first]);
      first := next;
      assert a[..first] + Compacted(a[first..last]) == done + Compacted(todo);
    }
    assert a[first..last] == [];
    CompactedKeepsFirst(was);
  }
}
