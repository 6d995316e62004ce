/** The theory of least-recently-used lists, on keys alone.

    A use moves a key to the front of the list. Cutting the list to a size keeps the keys most
    recently used, and which keys these are depends only on the order of the uses, not on when the
    list was cut. */
module Recency {

  predicate Distinct(s: seq<string>) {
    s == [] || (s[0] !in s[1..] && Distinct(s[1..]))
  }

  function Without(s: seq<string>, k: string): (r: seq<string>)
    ensures forall x :: x in r <==> x in s && x != k
  {
    if s == [] then []
    else if s[0] == k then Without(s[1..], k)
    else [s[0]] + Without(s[1..], k)
  }

  function ToFront(s: seq<string>, k: string): seq<string> {
    [k] + Without(s, k)
  }

  /** The n most recent entries. */
  function Take(s: seq<string>, n: nat): seq<string> {
    if s == [] || n == 0 then [] else [s[0]] + Take(s[1..], n - 1)
  }

  /** The entries more recent than k. */
  function Before(s: seq<string>, k: string): set<string>
    requires k in s
  {
    if s[0] == k then {} else {s[0]} + Before(s[1..], k)
  }

  /** Every key ever used, most recently used first. */
  function Recent(uses: seq<string>): seq<string> {
    if uses == [] then [] else ToFront(Recent(uses[..|uses|-1]), uses[|uses|-1])
  }

  /** The other keys used since the last use of k. */
  function OthersSince(uses: seq<string>, k: string): set<string>
    requires k in uses
  {
    var n := |uses| - 1;
    if uses[n] == k then {} else
      assert uses == uses[..n] + [uses[n]];
      OthersSince(uses[..n], k) + {uses[n]}
  }

  lemma {:induction false} WithoutKeepsDistinct(s: seq<string>, k: string)
    requires Distinct(s)
    ensures Distinct(Without(s, k))
    decreases |s|
  {
    if s != [] {
      WithoutKeepsDistinct(s[1..], k);
      if s[0] != k {
        assert Without(s, k)[1..] == Without(s[1..], k);
      }
    }
  }

  lemma {:induction false} WithoutAbsent(s: seq<string>, k: string)
    requires k !in s
    ensures Without(s, k) == s
    decreases |s|
  {
    if s != [] {
      WithoutAbsent(s[1..], k);
    }
  }

  lemma {:induction false} RecentIsDistinct(uses: seq<string>)
    ensures Distinct(Recent(uses)) && forall k :: k in Recent(uses) <==> k in uses
    decreases |uses|
  {
    if uses != [] {
      var rest, u := uses[..|uses|-1], uses[|uses|-1];
      RecentIsDistinct(rest);
      WithoutKeepsDistinct(Recent(rest), u);
      assert Recent(uses)[1..] == Without(Recent(rest), u);
      assert uses == rest + [u];
    }
  }

  lemma {:induction false} BeforeWithout(s: seq<string>, u: string, k: string)
    requires k in s && u != k
    ensures Before(Without(s, u), k) == Before(s, k) - {u}
    decreases |s|
  {
    if s[0] == k {
    } else {
      BeforeWithout(s[1..], u, k);
      if s[0] != u {
        assert Without(s, u)[1..] == Without(s[1..], u);
      }
    }
  }

  /** The entries more recent than k are the other keys used since. */
  lemma {:induction false} BeforeIsSince(uses: seq<string>, k: string)
    requires k in uses
    ensures k in Recent(uses) && Before(Recent(uses), k) == OthersSince(uses, k)
    decreases |uses|
  {
    RecentIsDistinct(uses);
    var rest, u := uses[..|uses|-1], uses[|uses|-1];
    assert uses == rest + [u];
    if u != k {
      BeforeIsSince(rest, k);
      BeforeWithout(Recent(rest), u, k);
      assert Recent(uses)[1..] == Without(Recent(rest), u);
    }
  }

  lemma {:induction false} BeforeIsIn(s: seq<string>, k: string, x: string)
    requires k in s && x in Before(s, k)
    ensures x in s
    decreases |s|
  {
    if x != s[0] {
      BeforeIsIn(s[1..], k, x);
    }
  }

  /** A key is among the first n exactly when fewer than n precede it. */
  lemma {:induction false} TakenIffEarly(s: seq<string>, n: nat, k: string)
    requires Distinct(s)
    ensures k in Take(s, n) <==> k in s && |Before(s, k)| < n
    decreases |s|
  {
    if s != [] && n > 0 {
      TakenIffEarly(s[1..], n - 1, k);
      if s[0] != k && k in s {
        if s[0] in Before(s[1..], k) {
          BeforeIsIn(s[1..], k, s[0]);
        }
        assert |Before(s, k)| == 1 + |Before(s[1..], k)|;
      }
    }
  }

  lemma {:induction false} TakeTwice(s: seq<string>, n: nat, m: nat)
    requires m <= n
    ensures Take(Take(s, n), m) == Take(s, m)
    decreases |s|
  {
    if s != [] && m > 0 {
      TakeTwice(s[1..], n - 1, m - 1);
      assert Take(s, n)[1..] == Take(s[1..], n - 1);
    }
  }

  lemma {:induction false} TakenIsIn(s: seq<string>, n: nat, x: string)
    requires x in Take(s, n)
    ensures x in s
    decreases |s|
  {
    if x != s[0] {
      TakenIsIn(s[1..], n - 1, x);
    }
  }

  lemma {:induction false} TakeWithout(s: seq<string>, n: nat, k: string)
    requires Distinct(s) && n > 0
    ensures Take(Without(Take(s, n), k), n - 1) == Take(Without(s, k), n - 1)
    decreases |s|
  {
    if s != [] {
      var rest := s[1..];
      assert Take(s, n)[1..] == Take(rest, n - 1);
      if s[0] == k {
        WithoutAbsent(rest, k);
        if k in Take(rest, n - 1) {
          TakenIsIn(rest, n - 1, k);
        }
        WithoutAbsent(Take(rest, n - 1), k);
        TakeTwice(rest, n - 1, n - 1);
      } else if n > 1 {
        TakeWithout(rest, n - 1, k);
        assert Without(Take(s, n), k)[1..] == Without(Take(rest, n - 1), k);
        assert Without(s, k)[1..] == Without(rest, k);
      }
    }
  }

  /** Cutting the list to size before or after a move to the front comes to the same. */
  lemma CutThenMove(s: seq<string>, n: nat, k: string)
    requires Distinct(s) && n > 0
    ensures Take(ToFront(Take(s, n), k), n) == Take(ToFront(s, k), n)
  {
    TakeWithout(s, n, k);
    assert ToFront(Take(s, n), k)[1..] == Without(Take(s, n), k);
    assert ToFront(s, k)[1..] == Without(s, k);
  }

  /** A key is among the n most recent exactly when it was used, and fewer than n others since. */
  lemma KeptIffRecent(uses: seq<string>, n: nat, k: string)
    ensures k in Take(Recent(uses), n) <==> k in uses && |OthersSince(uses, k)| < n
  {
    RecentIsDistinct(uses);
    TakenIffEarly(Recent(uses), n, k);
    if k in uses {
      BeforeIsSince(uses, k);
    }
  }
}
