/** Types and small facts shared by the components. */
module Basics {
  type Byte = b: int | 0 <= b < 256

  datatype Option<+T> = None | Some(value: T)

  datatype Result<+T, +E> = Ok(value: T) | Err(error: E)

  /** A peer, named by its address. */
  type Peer = nat

  const U16_MAX: nat := 65535
  const U32_LIMIT: nat := 0x1_0000_0000

  function Max(a: int, b: int): int {
    if a < b then b else a
  }

  function Min(a: int, b: int): int {
    if a < b then a else b
  }

  const COLON: Byte := 58

  predicate IsDigit(b: Byte) {
    48 <= b <= 57
  }

  /** No element occurs twice. */
  ghost predicate Distinct<T>(s: seq<T>) {
    forall i, j :: 0 <= i < j < |s| ==> s[i] != s[j]
  }

  /** The list without any copy of `x`. */
  function Without<T(==)>(s: seq<T>, x: T): (rest: seq<T>)
    ensures |rest| <= |s| && x !in rest
  {
    if s == [] then []
    else
      var rest := Without(s[..|s| - 1], x);
      var last := s[|s| - 1];
      if last == x then rest else rest + [last]
  }

  lemma {:induction false} WithoutMembers<T>(s: seq<T>, x: T)
    ensures forall y :: y in Without(s, x) <==> y in s && y != x
    ensures Distinct(s) ==> Distinct(Without(s, x))
  {
    if s != [] {
      var front, last := s[..|s| - 1], s[|s| - 1];
      WithoutMembers(front, x);
      assert s == front + [last];
      if Distinct(s) {
        assert last !in front;
      }
    }
  }

  /** The elements that pass, in order. */
  ghost function Select<T>(s: seq<T>, keep: T -> bool): seq<T> {
    if s == [] then [] else (if keep(s[0]) then [s[0]] else []) + Select(s[1..], keep)
  }

  lemma {:induction false} SelectLast<T>(s: seq<T>, last: T, keep: T -> bool)
    ensures Select(s + [last], keep) == Select(s, keep) + if keep(last) then [last] else []
    decreases |s|
  {
    if s == [] {
      assert s + [last] == [last] && [last][1..] == [];
    } else {
      assert (s + [last])[1..] == s[1..] + [last] && (s + [last])[0] == s[0];
      SelectLast(s[1..], last, keep);
      var head, rest, end := if keep(s[0]) then [s[0]] else [], Select(s[1..], keep), if keep(last) then [last] else [];
      assert head + (rest + end) == (head + rest) + end;
    }
  }

  lemma {:induction false} WithoutIsSelect<T>(s: seq<T>, x: T, keep: T -> bool)
    requires forall k :: 0 <= k < |s| ==> (keep(s[k]) <==> s[k] != x)
    ensures Without(s, x) == Select(s, keep)
  {
    if s != [] {
      var front, last := s[..|s| - 1], s[|s| - 1];
      WithoutIsSelect(front, x, keep);
      SelectLast(front, last, keep);
      assert s == front + [last];
    }
  }

  lemma DistinctConcat<T>(a: seq<T>, b: seq<T>)
    requires Distinct(a) && Distinct(b) && forall x :: x in b ==> x !in a
    ensures Distinct(a + b)
  {
    var s := a + b;
    forall i, j | 0 <= i < j < |s| ensures s[i] != s[j] {
      if i < |a| <= j {
        assert s[j] in b && s[i] in a;
      }
    }
  }
}

/**
 Sorting of pairs of numbers in lexicographic order, as the source sorts address ranges,
 queue entries and chunk spans. The order is total on whole pairs, so a list has one sorted
 arrangement and a stable and an unstable sort return the same list.
 */
module PairSort {
  datatype Pair = Pair(fst: nat, snd: nat)

  predicate Leq(a: Pair, b: Pair) {
    a.fst < b.fst || (a.fst == b.fst && a.snd <= b.snd)
  }

  ghost predicate Sorted(s: seq<Pair>) {
    forall i, j :: 0 <= i < j < |s| ==> Leq(s[i], s[j])
  }

  function Insert(p: Pair, s: seq<Pair>): (r: seq<Pair>)
    ensures |r| == |s| + 1
  {
    if s == [] || Leq(p, s[0]) then [p] + s else [s[0]] + Insert(p, s[1..])
  }

  function Sort(s: seq<Pair>): (r: seq<Pair>)
    ensures |r| == |s|
  {
    if s == [] then [] else Insert(s[0], Sort(s[1..]))
  }

  lemma {:induction false} InsertKeeps(p: Pair, s: seq<Pair>)
    requires Sorted(s)
    ensures Sorted(Insert(p, s))
    ensures multiset(Insert(p, s)) == multiset{p} + multiset(s)
  {
    if s != [] && !Leq(p, s[0]) {
      InsertKeeps(p, s[1..]);
      var t := Insert(p, s[1..]);
      assert s == [s[0]] + s[1..];
      forall k | 0 <= k < |t| ensures Leq(s[0], t[k]) {
        assert t[k] in multiset(t);
        assert t[k] == p || t[k] in s[1..];
      }
      PrependKeeps(s[0], t);
    } else if s != [] {
      forall k | 0 <= k < |s| ensures Leq(p, s[k]) {
        assert k > 0 ==> Leq(s[0], s[k]);
      }
      PrependKeeps(p, s);
    }
  }

  lemma PrependKeeps(p: Pair, s: seq<Pair>)
    requires Sorted(s) && forall k :: 0 <= k < |s| ==> Leq(p, s[k])
    ensures Sorted([p] + s)
  {
    var t := [p] + s;
    forall i, j | 0 <= i < j < |t| ensures Leq(t[i], t[j]) {
      assert t[j] == s[j - 1];
      assert i > 0 ==> t[i] == s[i - 1];
    }
  }

  /** `Sort` returns a sorted permutation. */
  lemma {:induction false} SortIsSorted(s: seq<Pair>)
    ensures Sorted(Sort(s)) && multiset(Sort(s)) == multiset(s)
  {
    if s != [] {
      SortIsSorted(s[1..]);
      InsertKeeps(s[0], Sort(s[1..]));
      assert s == [s[0]] + s[1..];
    }
  }

  lemma SortMembers(s: seq<Pair>)
    ensures Sorted(Sort(s)) && forall p :: p in Sort(s) <==> p in s
  {
    SortIsSorted(s);
    forall p ensures p in Sort(s) <==> p in s {
      assert p in multiset(Sort(s)) <==> p in multiset(s);
    }
  }

  /** A sorted permutation is the result of `Sort`. */
  lemma {:induction false} SortedIsUnique(a: seq<Pair>, b: seq<Pair>)
    requires Sorted(a) && Sorted(b) && multiset(a) == multiset(b)
    ensures a == b
    decreases |a|
  {
    if a == [] {
      assert |multiset(b)| == 0;
    } else {
      assert a == [a[0]] + a[1..];
      assert a[0] in multiset(b);
      assert b != [] && b == [b[0]] + b[1..];
      assert b[0] in multiset(a);
      assert Leq(a[0], b[0]) && Leq(b[0], a[0]);
      assert multiset(a[1..]) == multiset(a) - multiset{a[0]};
      assert multiset(b[1..]) == multiset(b) - multiset{b[0]};
      SortedIsUnique(a[1..], b[1..]);
    }
  }
}

/** Products and quotients, in the few steps the solver needs spelled out. */
module Arith {
  lemma MulMonotone(d: nat, a: int, b: int)
    requires a <= b
    ensures d * a <= d * b
  {
    assert d * b - d * a == d * (b - a);
    ProductOfNaturals(d, b - a);
  }

  lemma ProductOfNaturals(a: nat, b: nat)
    ensures a * b >= 0
  {
  }

  /** The quotient is the only number of whole steps below `x`. */
  lemma QuotientIs(x: int, d: int, q: int)
    requires d > 0 && d * q <= x < d * q + d
    ensures x / d == q
  {
    var p := x / d;
    QuotientSpan(x, d);
    assert d * (p + 1) == d * p + d && d * (q + 1) == d * q + d;
    if p < q {
      MulMonotone(d, p + 1, q);
    } else if p > q {
      MulMonotone(d, q + 1, p);
    }
  }

  lemma QuotientSpan(x: int, d: int)
    requires d > 0
    ensures d * (x / d) <= x < d * (x / d) + d
    ensures x - x % d == d * (x / d)
  {
    assert x == d * (x / d) + x % d;
  }

  /** `x` lies in the block of `q` exactly when its quotient is `q`. */
  lemma QuotientIff(x: int, d: int, q: int)
    requires d > 0
    ensures x / d == q <==> d * q <= x < d * q + d
  {
    QuotientSpan(x, d);
    if d * q <= x < d * q + d {
      QuotientIs(x, d, q);
    }
  }
}
