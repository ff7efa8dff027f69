/**
 * `bisection_search` of colors.py: a fixed number of halvings of an interval
 * `[a, b]`, keeping the predicate's value at each end, that ends on an
 * endpoint where the predicate holds if either starting endpoint has it.
 */
module Bisection {

  /** The loop's variables: the interval and the predicate's value at each end. */
  datatype Bracket = Bracket(a: real, fa: bool, b: real, fb: bool)

  /** The state before the first iteration: `fa = f(a)`, `fb = f(b)`. */
  function Start(f: real -> bool, a: real, b: real): Bracket
  {
    Bracket(a, f(a), b, f(b))
  }

  /** One iteration: the midpoint replaces `b` when its value differs from `fa`, else `a`. */
  function Step(f: real -> bool, s: Bracket): Bracket
  {
    var m := (s.a + s.b) / 2.0;
    var fm := f(m);
    if fm != s.fa then Bracket(s.a, s.fa, m, fm) else Bracket(m, fm, s.b, s.fb)
  }

  /** The state after `n` iterations. */
  function Steps(f: real -> bool, s: Bracket, n: nat): Bracket
  {
    if n == 0 then s else Step(f, Steps(f, s, n - 1))
  }

  /** `a if fa else b`. */
  function Pick(s: Bracket): real
  {
    if s.fa then s.a else s.b
  }

  function Pow2(n: nat): (p: real)
    ensures p >= 1.0
  {
    if n == 0 then 1.0 else 2.0 * Pow2(n - 1)
  }

  /**
   * The interval stays inside the starting one, and its width halves at
   * every iteration.
   */
  lemma {:induction false} StepsWithin(f: real -> bool, a0: real, b0: real, n: nat)
    requires a0 <= b0
    ensures var s := Steps(f, Start(f, a0, b0), n);
            a0 <= s.a <= s.b <= b0 && s.b - s.a == (b0 - a0) / Pow2(n)
  {
    if n > 0 {
      StepsWithin(f, a0, b0, n - 1);
      var s := Steps(f, Start(f, a0, b0), n - 1);
      var t := Step(f, s);
      assert t.b - t.a == (s.b - s.a) / 2.0;
      Halve(b0 - a0, Pow2(n - 1));
    }
  }

  lemma Halve(d: real, p: real)
    requires p >= 1.0
    ensures (d / p) / 2.0 == d / (2.0 * p)
  {
  }

  /**
   * `fa` and `fb` are the predicate's values at the ends; the predicate's
   * value at `a` never changes; and `b` either is still the starting end or
   * has the opposite value from `a`, so a change of value stays inside.
   */
  lemma {:induction false} StepsValues(f: real -> bool, a0: real, b0: real, n: nat)
    ensures var s := Steps(f, Start(f, a0, b0), n);
            s.fa == f(s.a) && s.fb == f(s.b) && s.fa == f(a0) &&
            (s.b == b0 || s.fb != s.fa)
  {
    if n > 0 {
      StepsValues(f, a0, b0, n - 1);
    }
  }

  /** If the predicate holds at either starting end, it holds where the search ends. */
  lemma PickHolds(f: real -> bool, a0: real, b0: real, n: nat)
    requires f(a0) || f(b0)
    ensures f(Pick(Steps(f, Start(f, a0, b0), n)))
  {
    StepsValues(f, a0, b0, n);
  }

  /** When the ends disagree at the start, they disagree at the end: the change stays bracketed. */
  lemma StepsBracket(f: real -> bool, a0: real, b0: real, n: nat)
    requires f(a0) != f(b0)
    ensures var s := Steps(f, Start(f, a0, b0), n);
            f(s.a) == f(a0) && f(s.b) == f(b0)
  {
    StepsValues(f, a0, b0, n);
  }

  /** `bisection_search(f, a, b, n=n)`: `n` iterations of the halving loop. */
  method BisectionSearch(f: real -> bool, a0: real, b0: real, n: nat) returns (r: real)
    ensures r == Pick(Steps(f, Start(f, a0, b0), n))
    ensures a0 <= b0 ==> a0 <= r <= b0
    ensures (f(a0) || f(b0)) ==> f(r)
  {
    var a, b := a0, b0;
    var fa := f(a);
    var fb := f(b);
    for i := 0 to n
      invariant Bracket(a, fa, b, fb) == Steps(f, Start(f, a0, b0), i)
    {
      var m := (a + b) / 2.0;
      var fm := f(m);
      if fm != fa {
        b, fb := m, fm;
      } else {
        a, fa := m, fm;
      }
    }
    r := if fa then a else b;
    if a0 <= b0 {
      StepsWithin(f, a0, b0, n);
    }
    if f(a0) || f(b0) {
      PickHolds(f, a0, b0, n);
    }
  }
}
