/**
 * The suggestion list of `say_color_ambiguous` in colors.py: candidates
 * sorted by (length, text), the first ten shown, the rest only counted.
 */
module Candidates {

  /** How many suggestions are shown. */
  const NumBest: nat := 10

  /** Python's `a < b` on strings: code point by code point, a proper prefix first. */
  predicate TextLess(a: string, b: string)
  {
    if a == [] then b != []
    else if b == [] then false
    else if a[0] != b[0] then a[0] < b[0]
    else TextLess(a[1..], b[1..])
  }

  /** `(len(a), a) < (len(b), b)`. */
  predicate KeyLess(a: string, b: string)
  {
    |a| < |b| || (|a| == |b| && TextLess(a, b))
  }

  lemma {:induction false} TextLessIrreflexive(a: string)
    ensures !TextLess(a, a)
  {
    if a != [] {
      TextLessIrreflexive(a[1..]);
    }
  }

  lemma {:induction false} TextLessTransitive(a: string, b: string, c: string)
    requires TextLess(a, b) && TextLess(b, c)
    ensures TextLess(a, c)
  {
    if a != [] && b != [] && c != [] && a[0] == b[0] && b[0] == c[0] {
      TextLessTransitive(a[1..], b[1..], c[1..]);
    }
  }

  /** Distinct strings are ordered one way or the other. */
  lemma {:induction false} TextLessTotal(a: string, b: string)
    requires a != b
    ensures TextLess(a, b) || TextLess(b, a)
  {
    if a != [] && b != [] && a[0] == b[0] {
      assert a[1..] != b[1..] by {
        assert a == [a[0]] + a[1..] && b == [b[0]] + b[1..];
      }
      TextLessTotal(a[1..], b[1..]);
    }
  }

  lemma {:induction false} TextLessAsymmetric(a: string, b: string)
    requires TextLess(a, b)
    ensures !TextLess(b, a)
  {
    if TextLess(b, a) {
      TextLessTransitive(a, b, a);
      TextLessIrreflexive(a);
    }
  }

  /** The sort key is a strict total order. */
  lemma KeyLessOrder(a: string, b: string, c: string)
    ensures !KeyLess(a, a)
    ensures KeyLess(a, b) ==> !KeyLess(b, a)
    ensures KeyLess(a, b) && KeyLess(b, c) ==> KeyLess(a, c)
    ensures a != b ==> KeyLess(a, b) || KeyLess(b, a)
  {
    TextLessIrreflexive(a);
    if KeyLess(a, b) && |a| == |b| {
      TextLessAsymmetric(a, b);
    }
    if KeyLess(a, b) && KeyLess(b, c) && |a| == |b| == |c| {
      TextLessTransitive(a, b, c);
    }
    if a != b && |a| == |b| {
      TextLessTotal(a, b);
    }
  }

  /** No element sorts strictly before an earlier one. */
  predicate Sorted(s: seq<string>)
  {
    forall i, j | 0 <= i < j < |s| :: !KeyLess(s[j], s[i])
  }

  /** `x` inserted into sorted `s` before the first element not smaller than it. */
  function Insert(x: string, s: seq<string>): (t: seq<string>)
    requires Sorted(s)
    ensures Sorted(t) && multiset(t) == multiset(s) + multiset{x}
  {
    if s == [] then [x]
    else if !KeyLess(s[0], x) then
      InsertFront(x, s);
      [x] + s
    else
      var r := Insert(x, s[1..]);
      assert s == [s[0]] + s[1..];
      InsertAfter(x, s, r);
      [s[0]] + r
  }

  /** `x` not after the head of sorted `s` goes first. */
  lemma InsertFront(x: string, s: seq<string>)
    requires Sorted(s) && s != [] && !KeyLess(s[0], x)
    ensures Sorted([x] + s)
  {
    var t := [x] + s;
    forall i, j | 0 <= i < j < |t| ensures !KeyLess(t[j], t[i]) {
      if i == 0 {
        assert t[j] == s[j - 1];
        if j > 1 {
          assert !KeyLess(s[j - 1], s[0]);
          KeyLessOrder(s[j - 1], x, s[0]);
        }
        KeyLessOrder(x, s[0], x);
      } else {
        assert t[i] == s[i - 1] && t[j] == s[j - 1];
      }
    }
  }

  /** Sorted `r` holding the tail of sorted `s` and an `x` after its head may follow the head. */
  lemma InsertAfter(x: string, s: seq<string>, r: seq<string>)
    requires Sorted(s) && s != [] && KeyLess(s[0], x)
    requires Sorted(r) && multiset(r) == multiset(s[1..]) + multiset{x}
    ensures Sorted([s[0]] + r)
  {
    var t := [s[0]] + r;
    forall i, j | 0 <= i < j < |t| ensures !KeyLess(t[j], t[i]) {
      if i == 0 {
        var y := r[j - 1];
        assert t[j] == y;
        assert y in multiset(r);
        if y != x {
          assert y in multiset(s[1..]);
          var k :| 0 <= k < |s[1..]| && s[1..][k] == y;
          assert s[k + 1] == y;
        } else {
          KeyLessOrder(s[0], x, s[0]);
        }
      } else {
        assert t[i] == r[i - 1] && t[j] == r[j - 1];
      }
    }
  }

  function SortByKey(s: seq<string>): (t: seq<string>)
    ensures Sorted(t) && multiset(t) == multiset(s)
  {
    if s == [] then [] else
      assert s == [s[0]] + s[1..];
      Insert(s[0], SortByKey(s[1..]))
  }

  function Min(a: nat, b: nat): nat
  {
    if a < b then a else b
  }

  /** A prefix of a sorted list is sorted. */
  lemma SortedTake(s: seq<string>, k: nat)
    requires Sorted(s) && k <= |s|
    ensures Sorted(s[..k])
  {
    var t := s[..k];
    forall i, j | 0 <= i < j < |t| ensures !KeyLess(t[j], t[i]) {
      assert t[i] == s[i] && t[j] == s[j];
    }
  }

  /** A prefix of a sorted list holds every candidate that sorts before one of its elements. */
  lemma TakeClosed(sorted: seq<string>, k: nat, candidates: seq<string>)
    requires Sorted(sorted) && multiset(sorted) == multiset(candidates) && k <= |sorted|
    ensures forall x, y | x in sorted[..k] && y in candidates && KeyLess(y, x) :: y in sorted[..k]
  {
    var best := sorted[..k];
    forall x, y | x in best && y in candidates && KeyLess(y, x) ensures y in best {
      var i :| 0 <= i < k && best[i] == x;
      assert y in multiset(sorted);
      var j :| 0 <= j < |sorted| && sorted[j] == y;
      assert sorted[i] == x;
      assert j < k;
      assert best[j] == y;
    }
  }

  /** Nothing left out of a prefix of a sorted list sorts before what the prefix holds. */
  lemma RestNotBefore(sorted: seq<string>, k: nat)
    requires Sorted(sorted) && k <= |sorted|
    ensures forall x, y | x in sorted[..k] && y in multiset(sorted) - multiset(sorted[..k]) :: !KeyLess(y, x)
  {
    var best, rest := sorted[..k], sorted[k..];
    assert sorted == best + rest;
    forall x, y | x in best && y in multiset(sorted) - multiset(best) ensures !KeyLess(y, x) {
      var i :| 0 <= i < k && best[i] == x;
      assert y in multiset(rest);
      var j :| 0 <= j < |rest| && rest[j] == y;
      assert sorted[i] == x && sorted[k + j] == y;
    }
  }

  /** The shown suggestions and the number of further candidates. */
  datatype Suggestions = Suggestions(best: seq<string>, more: nat)

  /**
   * The first ten candidates in key order, and how many there are beyond
   * them; a candidate that sorts strictly before a shown one is shown.
   */
  function Suggest(candidates: seq<string>): (r: Suggestions)
    ensures |r.best| == Min(NumBest, |candidates|)
    ensures |r.best| + r.more == |candidates|
    ensures Sorted(r.best)
    ensures multiset(r.best) <= multiset(candidates)
    ensures forall x, y | x in r.best && y in candidates && KeyLess(y, x) :: y in r.best
    ensures forall x, y | x in r.best && y in multiset(candidates) - multiset(r.best) :: !KeyLess(y, x)
  {
    var sorted := SortByKey(candidates);
    assert |sorted| == |multiset(sorted)| == |multiset(candidates)| == |candidates|;
    var k := Min(NumBest, |candidates|);
    var best := sorted[..k];
    SortedTake(sorted, k);
    assert multiset(sorted) == multiset(best) + multiset(sorted[k..]) by {
      assert sorted == best + sorted[k..];
    }
    TakeClosed(sorted, k, candidates);
    RestNotBefore(sorted, k);
    Suggestions(best, if |candidates| > NumBest then |candidates| - NumBest else 0)
  }
}
