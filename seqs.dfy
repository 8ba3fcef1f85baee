/**
 * Order-preserving selection over sequences.
 *
 * Every row and column operation of the analysis script is, underneath, a
 * boolean mask applied to an ordered axis: a row filter keeps the rows whose
 * mask entry is true, a label drop keeps the columns whose label is not
 * listed, a list comprehension keeps the column names that pass its test.
 * `Select` is that one operation; the lemmas below say what it keeps, in
 * which order, and how many elements it rejects.
 */
module Seqs {

  /** No element occurs twice. */
  predicate Distinct<T(==)>(s: seq<T>) {
    forall i, j | 0 <= i < j < |s| :: s[i] != s[j]
  }

  /** The elements of `s` for which `p` holds, in their order in `s`. */
  function Select<T>(s: seq<T>, p: T -> bool): (r: seq<T>)
    ensures |r| <= |s|
    ensures forall k | 0 <= k < |r| :: r[k] in s && p(r[k])
    decreases |s|
  {
    if s == [] then []
    else
      var init, last := s[..|s| - 1], s[|s| - 1];
      assert forall x | x in init :: x in s;
      Select(init, p) + (if p(last) then [last] else [])
  }

  /** The positions in `s` of the elements that `Select(s, p)` keeps. */
  function Indices<T>(s: seq<T>, p: T -> bool): (idx: seq<nat>)
    decreases |s|
  {
    if s == [] then []
    else Indices(s[..|s| - 1], p) + (if p(s[|s| - 1]) then [|s| - 1] else [])
  }

  ghost predicate Increasing(idx: seq<nat>) {
    forall k, l | 0 <= k < l < |idx| :: idx[k] < idx[l]
  }

  /** `r` is the subsequence of `s` at the strictly increasing positions `idx`. */
  ghost predicate PicksOut<T>(r: seq<T>, s: seq<T>, idx: seq<nat>) {
    && |idx| == |r|
    && Increasing(idx)
    && forall k | 0 <= k < |idx| :: idx[k] < |s| && r[k] == s[idx[k]]
  }

  /**
   * `Select` keeps its elements unchanged and in their original order: it
   * picks `s` out at the strictly increasing positions `Indices(s, p)`.
   */
  lemma {:induction false} SelectPicksOut<T>(s: seq<T>, p: T -> bool)
    ensures PicksOut(Select(s, p), s, Indices(s, p))
    decreases |s|
  {
    if s != [] {
      var n := |s|;
      var init := s[..n - 1];
      SelectPicksOut(init, p);
      var r0, idx0 := Select(init, p), Indices(init, p);
      forall k | 0 <= k < |idx0|
        ensures idx0[k] < n - 1 && r0[k] == s[idx0[k]]
      {
        assert init[idx0[k]] == s[idx0[k]];
      }
      if p(s[n - 1]) {
        assert Select(s, p) == r0 + [s[n - 1]];
        assert Indices(s, p) == idx0 + [n - 1];
      } else {
        assert Select(s, p) == r0;
        assert Indices(s, p) == idx0;
      }
    }
  }

  /** A position is among `Indices(s, p)` exactly when its element satisfies `p`. */
  lemma {:induction false} IndicesExactly<T>(s: seq<T>, p: T -> bool)
    ensures forall i | 0 <= i < |s| :: i in Indices(s, p) <==> p(s[i])
    ensures forall k | 0 <= k < |Indices(s, p)| :: Indices(s, p)[k] < |s|
    decreases |s|
  {
    if s != [] {
      var n := |s|;
      var init := s[..n - 1];
      IndicesExactly(init, p);
      var idx0 := Indices(init, p);
      assert n - 1 !in idx0;
      forall i | 0 <= i < n - 1
        ensures s[i] == init[i]
      {
      }
    }
  }

  /** An element is kept exactly when it occurs in `s` and satisfies `p`. */
  lemma {:induction false} SelectMembership<T>(s: seq<T>, p: T -> bool)
    ensures forall x :: x in Select(s, p) <==> x in s && p(x)
    decreases |s|
  {
    if s != [] {
      var init := s[..|s| - 1];
      SelectMembership(init, p);
      assert s == init + [s[|s| - 1]];
    }
  }

  /** Selection over a concatenation is the concatenation of the selections. */
  lemma {:induction false} SelectAppend<T>(a: seq<T>, b: seq<T>, p: T -> bool)
    ensures Select(a + b, p) == Select(a, p) + Select(b, p)
    decreases |b|
  {
    if b == [] {
      assert a + b == a;
    } else {
      var init := b[..|b| - 1];
      SelectAppend(a, init, p);
      assert (a + b)[..|a + b| - 1] == a + init;
      assert (a + b)[|a + b| - 1] == b[|b| - 1];
    }
  }

  /** When every element passes, nothing is dropped. */
  lemma {:induction false} SelectAll<T>(s: seq<T>, p: T -> bool)
    requires forall i | 0 <= i < |s| :: p(s[i])
    ensures Select(s, p) == s
    decreases |s|
  {
    if s != [] {
      var init := s[..|s| - 1];
      SelectAll(init, p);
      assert s == init + [s[|s| - 1]];
    }
  }

  /** When no element passes, nothing is kept. */
  lemma {:induction false} SelectNone<T>(s: seq<T>, p: T -> bool)
    requires forall i | 0 <= i < |s| :: !p(s[i])
    ensures Select(s, p) == []
    decreases |s|
  {
    if s != [] {
      SelectNone(s[..|s| - 1], p);
    }
  }

  /** When exactly the element at `w` fails, selection removes that one position. */
  lemma {:induction false} SelectAllBut<T>(s: seq<T>, p: T -> bool, w: nat)
    requires w < |s|
    requires forall i | 0 <= i < |s| :: p(s[i]) <==> i != w
    ensures Select(s, p) == s[..w] + s[w + 1..]
    decreases |s|
  {
    var n, init := |s|, s[..|s| - 1];
    if w == n - 1 {
      SelectAll(init, p);
    } else {
      SelectAllBut(init, p, w);
      assert s[w + 1..] == init[w + 1..] + [s[n - 1]];
    }
  }

  /** When exactly the positions `lo` to `hi - 1` pass, selection is that slice. */
  lemma {:induction false} SelectSlice<T>(s: seq<T>, p: T -> bool, lo: nat, hi: nat)
    requires lo <= hi <= |s|
    requires forall i | 0 <= i < |s| :: p(s[i]) <==> lo <= i < hi
    ensures Select(s, p) == s[lo..hi]
    decreases |s|
  {
    if s != [] {
      var n, init := |s|, s[..|s| - 1];
      assert forall i | 0 <= i < n - 1 :: init[i] == s[i];
      if hi < n {
        SelectSlice(init, p, lo, hi);
        assert !p(s[n - 1]) && Select(s, p) == Select(init, p);
        assert init[lo..hi] == s[lo..hi];
      } else if lo == n {
        SelectSlice(init, p, n - 1, n - 1);
        assert !p(s[n - 1]) && Select(s, p) == Select(init, p);
      } else {
        SelectSlice(init, p, lo, n - 1);
        assert p(s[n - 1]) && Select(s, p) == Select(init, p) + [s[n - 1]];
        assert s[lo..n] == init[lo..n - 1] + [s[n - 1]];
      }
    }
  }

  /** Two tests that agree on every element of `s` select the same subsequence. */
  lemma {:induction false} SelectSameTest<T>(s: seq<T>, p: T -> bool, q: T -> bool)
    requires forall i | 0 <= i < |s| :: p(s[i]) == q(s[i])
    ensures Select(s, p) == Select(s, q)
    decreases |s|
  {
    if s != [] {
      SelectSameTest(s[..|s| - 1], p, q);
    }
  }

  /**
   * Complementary tests split `s`: what one keeps and what the other keeps
   * add up to all of `s`.
   */
  lemma {:induction false} SelectComplement<T>(s: seq<T>, p: T -> bool, q: T -> bool)
    requires forall i | 0 <= i < |s| :: q(s[i]) == !p(s[i])
    ensures |Select(s, p)| + |Select(s, q)| == |s|
    decreases |s|
  {
    if s != [] {
      SelectComplement(s[..|s| - 1], p, q);
    }
  }

  /**
   * Counting the elements that fail at least one of two conditions: the
   * count is at least each single count and at most their sum.
   */
  lemma {:induction false} SelectEitherBounds<T>(s: seq<T>, p: T -> bool, q: T -> bool, either: T -> bool)
    requires forall i | 0 <= i < |s| :: either(s[i]) == (p(s[i]) || q(s[i]))
    ensures |Select(s, p)| <= |Select(s, either)|
    ensures |Select(s, q)| <= |Select(s, either)|
    ensures |Select(s, either)| <= |Select(s, p)| + |Select(s, q)|
    decreases |s|
  {
    if s != [] {
      SelectEitherBounds(s[..|s| - 1], p, q, either);
    }
  }

  /** Selecting from a sequence without repetitions yields one without repetitions. */
  lemma SelectDistinct<T>(s: seq<T>, p: T -> bool)
    requires Distinct(s)
    ensures Distinct(Select(s, p))
  {
  }
}
