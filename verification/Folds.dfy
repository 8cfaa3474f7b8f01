/**
 Sums and products of a table of integers over a list of indices.

 A tensor's strides are products of sizes taken in one order and its offsets are sums of
 stride * index taken in another, so both need the same fact: the result does not depend on
 the order in which the indices are listed.
 */
module Folds {

  datatype Op = Sum | Product

  function Unit(op: Op): int {
    if op.Sum? then 0 else 1
  }

  function Apply(op: Op, x: int, y: int): int {
    if op.Sum? then x + y else x * y
  }

  /** Every element of s is an index below n. */
  ghost predicate Indices(s: seq<nat>, n: nat) {
    forall k :: 0 <= k < |s| ==> s[k] < n
  }

  ghost function Fold(op: Op, a: seq<int>, s: seq<nat>): int
    requires Indices(s, |a|)
  {
    if s == [] then Unit(op) else Apply(op, a[s[0]], Fold(op, a, s[1..]))
  }

  /** The product of the first k numbers of a list. */
  function PrefixProduct(a: seq<int>, k: nat): int
    requires k <= |a|
  {
    if k == 0 then 1 else PrefixProduct(a, k - 1) * a[k - 1]
  }

  /** [lo, lo + 1, ..., hi - 1] */
  function Range(lo: nat, hi: nat): (s: seq<nat>)
    requires lo <= hi
    ensures |s| == hi - lo && forall k :: 0 <= k < |s| ==> s[k] == lo + k
    decreases hi - lo
  {
    if lo == hi then [] else [lo] + Range(lo + 1, hi)
  }

  ghost predicate Distinct(s: seq<nat>) {
    forall i, j :: 0 <= i < j < |s| ==> s[i] != s[j]
  }

  lemma ApplyLaws(op: Op, x: int, y: int, z: int)
    ensures Apply(op, x, y) == Apply(op, y, x)
    ensures Apply(op, x, Apply(op, y, z)) == Apply(op, Apply(op, x, y), z)
    ensures Apply(op, x, Unit(op)) == x
  {
    assert x * (y * z) == (x * y) * z;
  }

  lemma {:induction false} FoldConcat(op: Op, a: seq<int>, s: seq<nat>, t: seq<nat>)
    requires Indices(s, |a|) && Indices(t, |a|)
    ensures Fold(op, a, s + t) == Apply(op, Fold(op, a, s), Fold(op, a, t))
  {
    if s == [] {
      assert s + t == t;
      ApplyLaws(op, Fold(op, a, t), 0, 0);
      ApplyLaws(op, Unit(op), Fold(op, a, t), 0);
    } else {
      assert (s + t)[1..] == s[1..] + t;
      FoldConcat(op, a, s[1..], t);
      ApplyLaws(op, a[s[0]], Fold(op, a, s[1..]), Fold(op, a, t));
    }
  }

  /** Taking the index at position j out of the list and applying it first changes nothing. */
  lemma FoldExtract(op: Op, a: seq<int>, s: seq<nat>, j: nat)
    requires j < |s|
    requires Indices(s, |a|)
    ensures Fold(op, a, s) == Apply(op, a[s[j]], Fold(op, a, s[..j] + s[j + 1..]))
  {
    var rest := s[j + 1..];
    assert s == s[..j] + ([s[j]] + rest);
    FoldConcat(op, a, s[..j], [s[j]] + rest);
    FoldConcat(op, a, s[..j], rest);
    assert ([s[j]] + rest)[1..] == rest;
    var x, y, z := Fold(op, a, s[..j]), a[s[j]], Fold(op, a, rest);
    ApplyLaws(op, x, y, z);
    ApplyLaws(op, y, x, z);
  }

  lemma ExtractMultiset(s: seq<nat>, j: nat)
    requires j < |s|
    ensures multiset(s[..j] + s[j + 1..]) == multiset(s) - multiset{s[j]}
  {
    assert s == s[..j] + [s[j]] + s[j + 1..];
    assert multiset(s) == multiset(s[..j]) + multiset{s[j]} + multiset(s[j + 1..]);
  }

  lemma HeadMultiset(s: seq<nat>)
    requires s != []
    ensures multiset(s[1..]) == multiset(s) - multiset{s[0]}
  {
    ExtractMultiset(s, 0);
    assert s[..0] + s[1..] == s[1..];
  }

  /** A permutation of a list starting with s[0] has it somewhere, and permutes the rest around it. */
  lemma ExtractHead(s: seq<nat>, t: seq<nat>) returns (j: nat)
    requires s != [] && multiset(s) == multiset(t)
    ensures j < |t| && t[j] == s[0]
    ensures multiset(s[1..]) == multiset(t[..j] + t[j + 1..])
  {
    assert s[0] in multiset(t) by { assert s[0] in multiset(s); }
    j :| 0 <= j < |t| && t[j] == s[0];
    ExtractMultiset(t, j);
    HeadMultiset(s);
  }

  /** The order of the list does not matter. */
  lemma {:induction false} FoldPermutation(op: Op, a: seq<int>, s: seq<nat>, t: seq<nat>)
    requires multiset(s) == multiset(t)
    requires Indices(s, |a|) && Indices(t, |a|)
    ensures Fold(op, a, s) == Fold(op, a, t)
    decreases |s|
  {
    if s == [] {
      assert |multiset(t)| == 0;
    } else {
      var j := ExtractHead(s, t);
      FoldExtract(op, a, t, j);
      FoldPermutation(op, a, s[1..], t[..j] + t[j + 1..]);
    }
  }

  lemma {:induction false} DistinctMultiplicity(s: seq<nat>, d: nat)
    requires Distinct(s)
    ensures multiset(s)[d] == if d in s then 1 else 0
  {
    if s == [] {
    } else {
      assert s == [s[0]] + s[1..];
      DistinctMultiplicity(s[1..], d);
    }
  }

  /** Two duplicate-free lists of the same indices are permutations of each other. */
  lemma SameElements(s: seq<nat>, t: seq<nat>)
    requires Distinct(s) && Distinct(t)
    requires forall d :: d in s <==> d in t
    ensures multiset(s) == multiset(t)
  {
    forall d: nat ensures multiset(s)[d] == multiset(t)[d] {
      DistinctMultiplicity(s, d);
      DistinctMultiplicity(t, d);
    }
  }

  lemma {:induction false} ProductPositive(a: seq<int>, s: seq<nat>)
    requires Indices(s, |a|)
    requires forall k :: 0 <= k < |s| ==> a[s[k]] >= 1
    ensures Fold(Product, a, s) >= 1
  {
    if s == [] {
    } else {
      ProductPositive(a, s[1..]);
      assert a[s[0]] * Fold(Product, a, s[1..]) >= 1 * 1;
    }
  }

  lemma {:induction false} PrefixProductIsFold(a: seq<int>, k: nat)
    requires k <= |a|
    ensures Fold(Product, a, Range(0, k)) == PrefixProduct(a, k)
  {
    if k == 0 {
    } else {
      PrefixProductIsFold(a, k - 1);
      assert Range(0, k) == Range(0, k - 1) + [k - 1];
      FoldConcat(Product, a, Range(0, k - 1), [k - 1]);
      assert [k - 1][1..] == [];
    }
  }

  /** Positive factors only increase a product. */
  lemma {:induction false} ProductOfSome(a: seq<int>, s: seq<nat>, t: seq<nat>)
    requires Indices(s, |a|) && Indices(t, |a|) && Distinct(s)
    requires (forall d :: d in s ==> d in t) && forall k :: 0 <= k < |t| ==> a[t[k]] >= 1
    ensures 1 <= Fold(Product, a, s) <= Fold(Product, a, t)
    decreases |s|
  {
    if s == [] {
      ProductPositive(a, t);
    } else {
      assert s[0] in t;
      var j :| 0 <= j < |t| && t[j] == s[0];
      var rest := t[..j] + t[j + 1..];
      forall d | d in s[1..] ensures d in rest {
        assert d in s && d in t;
        var i :| 0 <= i < |t| && t[i] == d;
        assert i != j ==> d == rest[if i < j then i else i - 1];
      }
      ProductOfSome(a, s[1..], rest);
      FoldExtract(Product, a, t, j);
      ScaleBoth(a[s[0]], Fold(Product, a, s[1..]), Fold(Product, a, rest));
    }
  }

  lemma ScaleBoth(x: int, y: int, z: int)
    requires x >= 1 && 1 <= y <= z
    ensures 1 <= x * y <= x * z
  {
  }
}
