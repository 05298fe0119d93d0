/** Decimal numerals, as boost::format prints a non-negative int, and the candidate
    file names built from them. */
module Decimal {

  function Digit(d: nat): char
    requires d < 10
  {
    ('0' as int + d) as char
  }

  function Numeral(n: nat): string {
    if n < 10 then [Digit(n)] else Numeral(n / 10) + [Digit(n % 10)]
  }

  /** Reads a numeral back; the partner of Numeral. */
  function Value(s: string): int {
    if s == [] then 0 else 10 * Value(s[..|s| - 1]) + (s[|s| - 1] as int - '0' as int)
  }

  lemma {:induction false} NumeralRoundTrip(n: nat)
    ensures Value(Numeral(n)) == n
  {
    if n < 10 {
      assert Value([Digit(n)]) == 10 * Value([]) + n;
    } else {
      NumeralRoundTrip(n / 10);
      var s := Numeral(n);
      assert s[..|s| - 1] == Numeral(n / 10);
    }
  }

  /** The i-th name tried for a media file: base, base.0, base.1, ... */
  function Candidate(base: string, i: nat): string {
    if i == 0 then base else base + "." + Numeral(i - 1)
  }

  /** The first name is the base; the others append a dot and the numeral of a counter that
      begins at 0. */
  lemma CandidateNumbered(base: string, i: nat)
    ensures Candidate(base, 0) == base
    ensures var name, n := Candidate(base, i + 1), |base|;
      |name| > n + 1 && name[..n] == base && name[n] == '.' && Value(name[n + 1..]) == i
      && (forall j :: n < j < |name| ==> '0' <= name[j] <= '9') && (i > 0 ==> name[n + 1] != '0')
  {
    NumeralRoundTrip(i);
    NumeralDigits(i);
    assert Candidate(base, i + 1)[|base| + 1..] == Numeral(i);
  }

  lemma {:induction false} NumeralDigits(n: nat)
    ensures Numeral(n) != [] && forall j :: 0 <= j < |Numeral(n)| ==> '0' <= Numeral(n)[j] <= '9'
    ensures n > 0 ==> Numeral(n)[0] != '0'
  {
    if n >= 10 {
      NumeralDigits(n / 10);
    }
  }

  lemma CandidateInjective(base: string, i: nat, j: nat)
    requires Candidate(base, i) == Candidate(base, j)
    ensures i == j
  {
    if i != 0 && j != 0 {
      var n := |base| + 1;
      assert Candidate(base, i)[n..] == Numeral(i - 1);
      assert Candidate(base, j)[n..] == Numeral(j - 1);
      NumeralRoundTrip(i - 1);
      NumeralRoundTrip(j - 1);
    }
  }

  function Candidates(base: string, n: nat): set<string> {
    set j | 0 <= j < n :: Candidate(base, j)
  }

  /** No two candidates share a name, so the first n of them are n names. */
  lemma {:induction false} CandidatesDistinct(base: string, n: nat)
    ensures |Candidates(base, n)| == n
  {
    if n == 0 {
      assert Candidates(base, 0) == {};
    } else {
      CandidatesDistinct(base, n - 1);
      var last := Candidate(base, n - 1);
      if last in Candidates(base, n - 1) {
        var j :| 0 <= j < n - 1 && Candidate(base, j) == last;
        CandidateInjective(base, j, n - 1);
      }
      assert Candidates(base, n) == Candidates(base, n - 1) + {last};
    }
  }

  lemma {:induction false} SubsetSize<T>(a: set<T>, b: set<T>)
    requires a <= b
    ensures |a| <= |b|
  {
    if a != {} {
      var x :| x in a;
      SubsetSize(a - {x}, b - {x});
    }
  }
}
