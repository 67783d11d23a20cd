/** Sequence helpers shared by both cleaners: the LINQ `Where` filter,
    `List<T>.Remove`, and the facts the rest of the model uses about them. */
module Seqs {

  function Min(a: int, b: int): int { if a < b then a else b }

  ghost predicate Distinct<T>(s: seq<T>) {
    forall i, j :: 0 <= i < j < |s| ==> s[i] != s[j]
  }

  ghost function ToSet<T>(s: seq<T>): set<T> {
    set x | x in s
  }

  lemma ToSetPrefixStep<T>(s: seq<T>, i: int)
    requires 0 <= i < |s|
    ensures ToSet(s[..i + 1]) == ToSet(s[..i]) + {s[i]}
  {
    assert s[..i + 1] == s[..i] + [s[i]];
  }

  lemma NotInPrefixSet<T>(s: seq<T>, i: int, x: T)
    requires 0 <= i <= |s| && forall j :: 0 <= j < i ==> s[j] != x
    ensures x !in ToSet(s[..i])
  {
  }

  /** `Where`: the elements of `s` that satisfy `p`, in their original order. */
  function Filter<T>(s: seq<T>, p: T -> bool): (r: seq<T>)
    ensures |r| <= |s|
    ensures forall i :: 0 <= i < |r| ==> r[i] in s && p(r[i])
    ensures forall i :: 0 <= i < |s| && p(s[i]) ==> s[i] in r
  {
    if s == [] then []
    else
      var init := Filter(s[..|s| - 1], p);
      assert s == s[..|s| - 1] + [s[|s| - 1]];
      if p(s[|s| - 1]) then init + [s[|s| - 1]] else init
  }

  /** Filtering a sequence extended by one element filters the prefix and then decides on the element. */
  lemma FilterSnoc<T>(s: seq<T>, x: T, p: T -> bool)
    ensures Filter(s + [x], p) == Filter(s, p) + (if p(x) then [x] else [])
  {
    assert (s + [x])[..|s|] == s;
  }

  /** Filtering by `p` and then by a stricter `q` is filtering by `q` alone. */
  lemma {:induction false} FilterImplied<T>(s: seq<T>, p: T -> bool, q: T -> bool)
    requires forall i :: 0 <= i < |s| && q(s[i]) ==> p(s[i])
    ensures Filter(Filter(s, p), q) == Filter(s, q)
  {
    if s != [] {
      var init, last := s[..|s| - 1], s[|s| - 1];
      assert s == init + [last];
      FilterImplied(init, p, q);
      FilterSnoc(init, last, p);
      FilterSnoc(init, last, q);
      FilterSnoc(Filter(init, p), last, q);
    }
  }

  lemma {:induction false} FilterDistinct<T>(s: seq<T>, p: T -> bool)
    requires Distinct(s)
    ensures Distinct(Filter(s, p))
  {
    if s != [] {
      var init, last := s[..|s| - 1], s[|s| - 1];
      assert s == init + [last];
      FilterDistinct(init, p);
      assert last !in init by {
        forall i | 0 <= i < |init| ensures init[i] != last {
          assert s[i] == init[i];
        }
      }
    }
  }

  /** A repetition-free sequence has as many distinct elements as positions. */
  lemma {:induction false} DistinctCard<T>(s: seq<T>)
    requires Distinct(s)
    ensures |ToSet(s)| == |s|
  {
    if s != [] {
      var init, last := s[..|s| - 1], s[|s| - 1];
      assert Distinct(init);
      DistinctCard(init);
      assert last !in init by {
        forall i | 0 <= i < |init| ensures init[i] != last {
          assert s[i] == init[i];
        }
      }
      assert ToSet(s) == ToSet(init) + {last} by {
        assert s == init + [last];
      }
    }
  }

  /** A repetition-free sequence none of whose elements differs from `x` is `[x]` or empty. */
  lemma AllEqualDistinct<T>(s: seq<T>, x: T)
    requires Distinct(s)
    requires forall y :: y in s ==> y == x
    ensures s == [] || s == [x]
  {
    DistinctCard(s);
    if s != [] {
      assert s[0] in s;
      assert ToSet(s) == {x};
      assert s == [x];
    }
  }

  /** The position of the first occurrence of `x` in `s`. */
  function IndexOf<T(==)>(s: seq<T>, x: T): (k: nat)
    requires x in s
    ensures k < |s| && s[k] == x && x !in s[..k]
  {
    if s[0] == x then 0
    else
      assert x in s[1..];
      var k := IndexOf(s[1..], x);
      assert s[..k + 1] == [s[0]] + s[1..][..k];
      k + 1
  }

  /** `List<T>.Remove`: drops the first occurrence of `x`, if there is one. */
  function RemoveFirst<T(==)>(s: seq<T>, x: T): seq<T>
  {
    if s == [] then []
    else if s[0] == x then s[1..]
    else [s[0]] + RemoveFirst(s[1..], x)
  }

  /** `RemoveFirst` cuts out exactly the first occurrence and keeps every other element in order;
      a sequence without `x` is returned as it is. */
  lemma {:induction false} RemoveFirstSpec<T>(s: seq<T>, x: T)
    ensures x !in s ==> RemoveFirst(s, x) == s
    ensures x in s ==> RemoveFirst(s, x) == s[..IndexOf(s, x)] + s[IndexOf(s, x) + 1..]
    ensures multiset(RemoveFirst(s, x)) == multiset(s) - multiset{x}
  {
    if x in s {
      RemoveFirstCut(s, x);
      var k := IndexOf(s, x);
      var before, after := s[..k], s[k + 1..];
      assert s == before + [x] + after;
      MultisetCut(before, x, after);
    } else {
      RemoveFirstAbsent(s, x);
      assert x !in multiset(s);
      assert multiset(s) - multiset{x} == multiset(s);
    }
  }

  lemma MultisetCut<T>(before: seq<T>, x: T, after: seq<T>)
    ensures multiset(before + after) == multiset(before + [x] + after) - multiset{x}
  {
    assert multiset(before + [x] + after) == multiset(before) + multiset{x} + multiset(after);
    assert multiset(before + after) == multiset(before) + multiset(after);
  }

  lemma {:induction false} RemoveFirstAbsent<T>(s: seq<T>, x: T)
    requires x !in s
    ensures RemoveFirst(s, x) == s
  {
    if s != [] {
      assert x !in s[1..];
      RemoveFirstAbsent(s[1..], x);
    }
  }

  lemma {:induction false} RemoveFirstCut<T>(s: seq<T>, x: T)
    requires x in s
    ensures RemoveFirst(s, x) == s[..IndexOf(s, x)] + s[IndexOf(s, x) + 1..]
  {
    if s[0] != x {
      var t := s[1..];
      assert x in t;
      RemoveFirstCut(t, x);
      var k := IndexOf(t, x);
      assert IndexOf(s, x) == k + 1;
      assert s[..k + 1] == [s[0]] + t[..k];
      assert s[k + 2..] == t[k + 1..];
    }
  }
}
