/** Generic table scans: the boolean-mask filters and first-row lookups that every
    request handler performs on a table. Tables are sequences in row order. */
module Sequences {
  import opened Wrappers

  /** The rows of `s` that satisfy `p`, in table order (a pandas boolean mask). */
  function Filter<T>(s: seq<T>, p: T -> bool): (r: seq<T>)
    ensures |r| <= |s|
    ensures forall i :: 0 <= i < |r| ==> p(r[i])
    ensures forall i :: 0 <= i < |r| ==> r[i] in s
    ensures forall i :: 0 <= i < |s| && p(s[i]) ==> s[i] in r
    decreases |s|
  {
    if |s| == 0 then []
    else
      var front := Filter(s[..|s| - 1], p);
      if p(s[|s| - 1]) then front + [s[|s| - 1]] else front
  }

  /** The filtered view holds each passing row exactly as often as the table does, and
      nothing else. */
  lemma {:induction false} FilterMultiset<T>(s: seq<T>, p: T -> bool)
    ensures multiset(Filter(s, p)) <= multiset(s)
    ensures forall i :: 0 <= i < |s| && p(s[i]) ==> multiset(Filter(s, p))[s[i]] == multiset(s)[s[i]]
    decreases |s|
  {
    if |s| > 0 {
      var front, x := s[..|s| - 1], s[|s| - 1];
      assert s == front + [x];
      FilterMultiset(front, p);
      forall i | 0 <= i < |s| && p(s[i])
        ensures multiset(Filter(s, p))[s[i]] == multiset(s)[s[i]]
      {
        if s[i] != x {
          var j :| 0 <= j < |front| && front[j] == s[i];
        }
      }
    }
  }

  /** Appending a row extends the filtered view by that row exactly when it passes. */
  lemma FilterSnoc<T>(s: seq<T>, x: T, p: T -> bool)
    ensures Filter(s + [x], p) == Filter(s, p) + (if p(x) then [x] else [])
  {
    assert (s + [x])[..|s|] == s;
  }

  /** Filtering keeps table order: the view of a concatenation is the concatenation of views. */
  lemma {:induction false} FilterConcat<T>(a: seq<T>, b: seq<T>, p: T -> bool)
    ensures Filter(a + b, p) == Filter(a, p) + Filter(b, p)
    decreases |b|
  {
    if |b| == 0 {
      assert a + b == a;
    } else {
      var b', x := b[..|b| - 1], b[|b| - 1];
      assert b == b' + [x];
      assert a + b == (a + b') + [x];
      FilterConcat(a, b', p);
      FilterSnoc(a + b', x, p);
      FilterSnoc(b', x, p);
    }
  }

  /** A mask no row passes selects nothing. */
  lemma {:induction false} FilterNone<T>(s: seq<T>, p: T -> bool)
    requires forall i :: 0 <= i < |s| ==> !p(s[i])
    ensures Filter(s, p) == []
    decreases |s|
  {
    if |s| > 0 {
      FilterNone(s[..|s| - 1], p);
    }
  }

  /** Masks that agree on every row select the same rows. */
  lemma {:induction false} FilterCongruent<T>(s: seq<T>, p: T -> bool, q: T -> bool)
    requires forall i :: 0 <= i < |s| ==> p(s[i]) == q(s[i])
    ensures Filter(s, p) == Filter(s, q)
    decreases |s|
  {
    if |s| > 0 {
      FilterCongruent(s[..|s| - 1], p, q);
    }
  }

  /** If every row of `t` that passes `p` sits where a passing row of `s` sits, `t` has no more
      passing rows than `s`. */
  lemma {:induction false} FilterShrinks<T>(s: seq<T>, t: seq<T>, p: T -> bool)
    requires |s| == |t|
    requires forall i :: 0 <= i < |t| && p(t[i]) ==> p(s[i])
    ensures |Filter(t, p)| <= |Filter(s, p)|
    decreases |s|
  {
    if |s| > 0 {
      var n := |s| - 1;
      var s', t' := s[..n], t[..n];
      assert s' + [s[n]] == s;
      assert t' + [t[n]] == t;
      FilterSnoc(s', s[n], p);
      FilterSnoc(t', t[n], p);
      FilterShrinks(s', t', p);
    }
  }

  /** As FilterShrinks, and strictly fewer when the passing row `k` of `s` stopped passing in `t`. */
  lemma {:induction false} FilterShrinksStrictly<T>(s: seq<T>, t: seq<T>, p: T -> bool, k: nat)
    requires |s| == |t|
    requires forall i :: 0 <= i < |t| && p(t[i]) ==> p(s[i])
    requires k < |s| && p(s[k]) && !p(t[k])
    ensures |Filter(t, p)| < |Filter(s, p)|
    decreases |s|
  {
    var n := |s| - 1;
    var s', t' := s[..n], t[..n];
    assert s' + [s[n]] == s;
    assert t' + [t[n]] == t;
    FilterSnoc(s', s[n], p);
    FilterSnoc(t', t[n], p);
    if k == n {
      FilterShrinks(s', t', p);
    } else {
      FilterShrinksStrictly(s', t', p, k);
    }
  }

  /** Every row rewritten by `f` (a column assignment through a mask). */
  function Map<T, U>(s: seq<T>, f: T -> U): (r: seq<U>)
    ensures |r| == |s|
    ensures forall i :: 0 <= i < |s| ==> r[i] == f(s[i])
  {
    seq(|s|, i requires 0 <= i < |s| => f(s[i]))
  }

  lemma MapSnoc<T, U>(s: seq<T>, x: T, f: T -> U)
    ensures Map(s + [x], f) == Map(s, f) + [f(x)]
  {
  }

  /** A rewrite that never changes whether a row passes `p` commutes with filtering by `p`. */
  lemma {:induction false} FilterMap<T>(s: seq<T>, f: T -> T, p: T -> bool)
    requires forall i :: 0 <= i < |s| ==> p(f(s[i])) == p(s[i])
    ensures Filter(Map(s, f), p) == Map(Filter(s, p), f)
    decreases |s|
  {
    if |s| > 0 {
      var front, x := s[..|s| - 1], s[|s| - 1];
      assert s == front + [x];
      MapSnoc(front, x, f);
      FilterSnoc(Map(front, f), f(x), p);
      FilterSnoc(front, x, p);
      FilterMap(front, f, p);
      MapSnoc(Filter(front, p), x, f);
    }
  }

  /** The index of the first row satisfying `p` (`df[mask].iloc[0]`), or None when the mask is empty. */
  function FirstIndex<T>(s: seq<T>, p: T -> bool): (r: Option<nat>)
    ensures r.None? <==> forall i :: 0 <= i < |s| ==> !p(s[i])
    ensures r.Some? ==> r.value < |s| && p(s[r.value]) && forall j :: 0 <= j < r.value ==> !p(s[j])
    decreases |s|
  {
    if |s| == 0 then None
    else if p(s[0]) then Some(0)
    else match FirstIndex(s[1..], p)
      case None => None
      case Some(k) => Some(k + 1)
  }
}
