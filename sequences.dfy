/**
 * Sequence helpers for the flattener: distinctness, positions, and the
 * first-occurrence deduplication that spreading a JavaScript `Set` performs.
 */
module Sequences {

  /** No element occurs twice. */
  ghost predicate Distinct<T>(s: seq<T>) {
    forall i, j :: 0 <= i < j < |s| ==> s[i] != s[j]
  }

  /** The position of the first occurrence of `x` in `s`. */
  function IndexOf<T(==)>(s: seq<T>, x: T): (i: nat)
    requires x in s
    ensures i < |s| && s[i] == x
    ensures forall k :: 0 <= k < i ==> s[k] != x
  {
    if s[0] == x then 0 else 1 + IndexOf(s[1..], x)
  }

  /**
   * The elements of `s` that are not in `seen`, each kept at its first
   * occurrence: `[...new Set(s)]` when the set already holds `seen`.
   */
  function DedupFrom<T(==, !new)>(s: seq<T>, seen: set<T>): (r: seq<T>)
    ensures Distinct(r)
    ensures forall x :: x in r <==> x in s && x !in seen
    ensures forall i, j {:trigger IndexOf(s, r[i]), IndexOf(s, r[j])} :: 0 <= i < j < |r| ==> IndexOf(s, r[i]) < IndexOf(s, r[j])
    decreases |s|
  {
    if s == [] then []
    else if s[0] in seen then DedupFrom(s[1..], seen)
    else [s[0]] + DedupFrom(s[1..], seen + {s[0]})
  }

  /** `[...new Set(s)]`: the distinct elements of `s` in order of first occurrence. */
  function Dedup<T(==, !new)>(s: seq<T>): (r: seq<T>)
    ensures Distinct(r)
    ensures forall x :: x in r <==> x in s
    ensures forall i, j {:trigger IndexOf(s, r[i]), IndexOf(s, r[j])} :: 0 <= i < j < |r| ==> IndexOf(s, r[i]) < IndexOf(s, r[j])
  {
    DedupFrom(s, {})
  }

  lemma DedupFromCons<T(!new)>(x: T, rest: seq<T>, seen: set<T>)
    requires x !in seen
    ensures DedupFrom([x] + rest, seen) == [x] + DedupFrom(rest, seen + {x})
  {
    assert ([x] + rest)[0] == x && ([x] + rest)[1..] == rest;
  }

  /** Deduplication leaves an already distinct prefix in place, in front of the rest. */
  lemma {:induction false} DedupFromKeepsDistinctPrefix<T(!new)>(t: seq<T>, u: seq<T>, seen: set<T>)
    requires Distinct(t)
    requires forall x :: x in t ==> x !in seen
    ensures DedupFrom(t + u, seen) == t + DedupFrom(u, seen + set x | x in t)
    decreases |t|
  {
    if t == [] {
      assert t + u == u;
      assert seen + (set x | x in t) == seen;
    } else {
      var tail := t[1..];
      assert Distinct(tail);
      calc {
        DedupFrom(t + u, seen);
      == { assert t + u == [t[0]] + (tail + u); }
        DedupFrom([t[0]] + (tail + u), seen);
      == { DedupFromCons(t[0], tail + u, seen); }
        [t[0]] + DedupFrom(tail + u, seen + {t[0]});
      == { DedupFromKeepsDistinctPrefix(tail, u, seen + {t[0]}); }
        [t[0]] + (tail + DedupFrom(u, seen + {t[0]} + set x | x in tail));
      == { assert seen + {t[0]} + (set x | x in tail) == seen + (set x | x in t); }
        [t[0]] + (tail + DedupFrom(u, seen + set x | x in t));
      == { HeadThenTail(t, DedupFrom(u, seen + set x | x in t)); }
        t + DedupFrom(u, seen + set x | x in t);
      }
    }
  }

  lemma HeadThenTail<T>(t: seq<T>, d: seq<T>)
    requires t != []
    ensures [t[0]] + (t[1..] + d) == t + d
  {
    assert t == [t[0]] + t[1..];
  }

  /** `[...new Set(t.concat(u))]` starts with `t` itself when `t` has no duplicates. */
  lemma DedupKeepsDistinctPrefix<T(!new)>(t: seq<T>, u: seq<T>)
    requires Distinct(t)
    ensures Dedup(t + u) == t + DedupFrom(u, set x | x in t)
  {
    calc {
      Dedup(t + u);
    ==
      DedupFrom(t + u, {});
    == { DedupFromKeepsDistinctPrefix(t, u, {}); }
      t + DedupFrom(u, {} + set x | x in t);
    == { assert {} + (set x | x in t) == set x | x in t; }
      t + DedupFrom(u, set x | x in t);
    }
  }
}
