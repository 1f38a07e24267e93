/** Texts that can be read back from their beginning: counts, written as that many zeros and a one. */
module Tallies {

  function Tally<T>(zero: T, one: T, n: nat): seq<T> {
    seq(n, _ => zero) + [one]
  }

  lemma TallyReadsBack<T>(zero: T, one: T, m: nat, x: seq<T>, n: nat, y: seq<T>)
    requires zero != one && Tally(zero, one, m) + x == Tally(zero, one, n) + y
    ensures m == n && x == y
  {
    var s, t := Tally(zero, one, m) + x, Tally(zero, one, n) + y;
    assert s[m] == one && forall i | 0 <= i < m :: s[i] == zero;
    assert t[n] == one && forall i | 0 <= i < n :: t[i] == zero;
    assert x == s[m + 1..] && y == t[n + 1..];
  }

  lemma BeginningsAgree<T>(a: seq<T>, x: seq<T>, b: seq<T>, y: seq<T>)
    requires a + x == b + y && |a| == |b|
    ensures a == b && x == y
  {
    assert a == (a + x)[..|a|] && b == (b + y)[..|b|];
    assert x == (a + x)[|a|..] && y == (b + y)[|b|..];
  }

  /** The first element of a text, and the rest of it. */
  lemma HeadOff<T>(head: T, a: seq<T>, x: seq<T>)
    ensures ([head] + a) + x == [head] + (a + x)
    ensures (([head] + a) + x)[0] == head && (([head] + a) + x)[1..] == a + x
  {
  }

  lemma Regroup<T>(a: seq<T>, b: seq<T>, x: seq<T>)
    ensures (a + b) + x == a + (b + x)
  {
  }
}
