/**
 * The substring locator: `find_iter` / `find_all` in helpers.py.
 *
 * `find_iter` calls Python's `find` once at the start of `value` and again
 * one position after every hit, so overlapping occurrences are all reported.
 * The model is generic in the element type, covering both `str` and `bytes`.
 */
module Search {

  /** `sub` occurs in `value` starting at index `i`. */
  predicate OccursAt<T(==)>(value: seq<T>, sub: seq<T>, i: int) {
    0 <= i && i + |sub| <= |value| && value[i..i + |sub|] == sub
  }

  /** Every element is smaller than every later one. */
  predicate Increasing(s: seq<nat>) {
    forall i, j | 0 <= i < j < |s| :: s[i] < s[j]
  }

  /**
   * Python's `value.find(sub, start)` for a non-negative `start`: the lowest
   * index at or after `start` where `sub` occurs, or -1 when there is none.
   * An empty `sub` occurs at every index up to and including `|value|`.
   */
  function Find<T(==)>(value: seq<T>, sub: seq<T>, start: nat): (r: int)
    ensures r == -1 || (start <= r && OccursAt(value, sub, r))
    ensures forall j | start <= j && (r == -1 || j < r) :: !OccursAt(value, sub, j)
    decreases |value| - start
  {
    if start + |sub| > |value| then -1
    else if value[start..start + |sub|] == sub then start
    else Find(value, sub, start + 1)
  }

  /**
   * The indices `find_iter` yields from a call `value.find(sub, start)` on:
   * each hit is followed by a new search one position further on.
   */
  function FindIterFrom<T(==)>(value: seq<T>, sub: seq<T>, start: nat): (r: seq<nat>)
    ensures Increasing(r)
    ensures forall k | 0 <= k < |r| :: start <= r[k] && OccursAt(value, sub, r[k])
    ensures forall j | start <= j && OccursAt(value, sub, j) :: j in r
    decreases |value| + 1 - start
  {
    var index := Find(value, sub, start);
    if index > -1 then [index as nat] + FindIterFrom(value, sub, index + 1)
    else []
  }

  /**
   * `find_all(value, sub)`: every start index of `sub` in `value`, overlapping
   * ones included, in increasing order; empty exactly when `sub` never occurs.
   */
  function FindAll<T(==)>(value: seq<T>, sub: seq<T>): (r: seq<nat>)
    ensures Increasing(r)
    ensures forall i :: i in r <==> OccursAt(value, sub, i)
    ensures r == [] <==> forall i :: !OccursAt(value, sub, i)
  {
    var r := FindIterFrom(value, sub, 0);
    assert forall i :: i in r ==> OccursAt(value, sub, i) by {
      forall i | i in r ensures OccursAt(value, sub, i) {
        var k :| 0 <= k < |r| && r[k] == i;
      }
    }
    assert r != [] ==> OccursAt(value, sub, r[0]);
    r
  }

  /**
   * The generator loop of `find_iter`, realised into the list `find_all`
   * builds: yield the current hit, then search again from one past it.
   */
  method FindIter<T(==)>(value: seq<T>, sub: seq<T>) returns (found: seq<nat>)
    ensures Increasing(found)
    ensures forall i :: i in found <==> OccursAt(value, sub, i)
    ensures found == FindAll(value, sub)
  {
    found := [];
    var index := Find(value, sub, 0);
    while index > -1
      invariant index == -1 || OccursAt(value, sub, index)
      invariant Increasing(found)
      invariant forall k | 0 <= k < |found| :: OccursAt(value, sub, found[k])
      invariant forall k | 0 <= k < |found| :: found[k] < index || index == -1
      invariant forall j | OccursAt(value, sub, j) && (index == -1 || j < index) :: j in found
      decreases if index == -1 then 0 else |value| + 1 - index
    {
      var before, hit := found, index as nat;
      found := before + [hit];
      index := Find(value, sub, hit + 1);
      forall i, j | 0 <= i < j < |found| ensures found[i] < found[j] {
        if j < |before| {
          assert found[i] == before[i] && found[j] == before[j];
        } else {
          assert found[i] == before[i] && found[j] == hit;
        }
      }
      forall j | OccursAt(value, sub, j) && (index == -1 || j < index) ensures j in found {
        if j < hit {
          assert j in before;
        } else {
          assert j == hit && found[|before|] == hit;
        }
      }
    }
    IncreasingUnique(found, FindAll(value, sub));
  }

  /**
   * Reference definition, independent of `find`: the occurrence indices below
   * `n`, listed by checking every position in turn.
   */
  function OccurrencesBelow<T(==)>(value: seq<T>, sub: seq<T>, n: nat): seq<nat>
  {
    if n == 0 then []
    else OccurrencesBelow(value, sub, n - 1) + (if OccursAt(value, sub, n - 1) then [n - 1] else [])
  }

  /** All occurrence indices of `sub` in `value`, by exhaustive check. */
  function Occurrences<T(==)>(value: seq<T>, sub: seq<T>): seq<nat>
  {
    OccurrencesBelow(value, sub, |value| + 1)
  }

  lemma {:induction false} OccurrencesBelowCorrect<T>(value: seq<T>, sub: seq<T>, n: nat)
    ensures Increasing(OccurrencesBelow(value, sub, n))
    ensures forall i :: i in OccurrencesBelow(value, sub, n) <==> i < n && OccursAt(value, sub, i)
  {
    if n > 0 {
      OccurrencesBelowCorrect(value, sub, n - 1);
      var prefix := OccurrencesBelow(value, sub, n - 1);
      var last: seq<nat> := if OccursAt(value, sub, n - 1) then [n - 1] else [];
      var all := prefix + last;
      assert all == OccurrencesBelow(value, sub, n);
      forall i ensures i in all <==> i < n && OccursAt(value, sub, i) {
        assert i in all <==> i in prefix || i in last;
      }
      forall i, j | 0 <= i < j < |all| ensures all[i] < all[j] {
        if j < |prefix| {
          assert all[i] == prefix[i] && all[j] == prefix[j];
        } else {
          assert all[j] == n - 1;
          assert all[i] == prefix[i] && prefix[i] in prefix;
        }
      }
    }
  }

  /** Two increasing lists with the same elements are the same list. */
  lemma {:induction false} IncreasingUnique(a: seq<nat>, b: seq<nat>)
    requires Increasing(a) && Increasing(b)
    requires forall i :: i in a <==> i in b
    ensures a == b
  {
    assert a != [] ==> a[0] in b;
    assert b != [] ==> b[0] in a;
    if a != [] && b != [] {
      assert a[0] == b[0] by {
        assert a[0] in b && b[0] in a;
      }
      forall i ensures i in a[1..] <==> i in b[1..] {
        if i in a[1..] {
          assert i in b;
        }
        if i in b[1..] {
          assert i in a;
        }
      }
      IncreasingUnique(a[1..], b[1..]);
      assert a == [a[0]] + a[1..];
      assert b == [b[0]] + b[1..];
    }
  }

  /** `find_all` lists exactly the occurrences an exhaustive check finds. */
  lemma FindAllIsOccurrences<T>(value: seq<T>, sub: seq<T>)
    ensures FindAll(value, sub) == Occurrences(value, sub)
  {
    OccurrencesBelowCorrect(value, sub, |value| + 1);
    IncreasingUnique(FindAll(value, sub), Occurrences(value, sub));
  }

  /**
   * Overlapping hits are all reported: in a run of `n` copies of one element,
   * a run of `m <= n` copies starts at every index from 0 to `n - m`
   * ("aa" in "aaaa" at 0, 1 and 2).
   */
  lemma FindAllOverlapping<T>(x: T, n: nat, m: nat)
    requires m <= n
    ensures FindAll(seq(n, _ => x), seq(m, _ => x)) == seq(n - m + 1, i => i)
  {
    var value := seq(n, _ => x);
    var sub := seq(m, _ => x);
    var r := FindAll(value, sub);
    var expected: seq<nat> := seq(n - m + 1, i => i);
    forall i ensures i in r <==> i in expected {
      if 0 <= i <= n - m {
        assert value[i..i + m] == sub;
        assert expected[i] == i;
        assert OccursAt(value, sub, i);
      }
    }
    IncreasingUnique(r, expected);
  }

  /** Python's `find` with an empty `sub` hits every index, so the list is 0..|value|. */
  lemma FindAllEmptySub<T>(value: seq<T>)
    ensures FindAll(value, []) == seq(|value| + 1, i => i)
  {
    var r := FindAll(value, []);
    var all: seq<nat> := seq(|value| + 1, i => i);
    forall i ensures i in r <==> i in all {
      if 0 <= i <= |value| {
        assert all[i] == i;
        assert OccursAt(value, [], i);
      }
    }
    IncreasingUnique(r, all);
  }
}
