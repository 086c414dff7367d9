/** The duplicate pass of filter_addresses on values: what it keeps, and exactly when it leaves no duplicates
    (src/clients/udp_scan.c). */
module Sweeps {
  import opened Bytes
  import opened AddressOrder
  import opened SwapRemove

  /** The list after the second pass: its first entry stays; an entry equal to the one before it makes way for the
      last one, and is compared again. */
  function Sweep(s: seq<bytes>): seq<bytes>
    decreases |s|
  {
    if |s| <= 1 then s
    else if s[0] == s[1] then Sweep(TakenOut(s, 1))
    else [s[0]] + Sweep(s[1..])
  }

  predicate NeighboursDiffer(s: seq<bytes>) {
    forall i | 0 <= i < |s| - 1 :: s[i] != s[i + 1]
  }

  /** The pass loses no address and invents none, and no two neighbours are equal afterwards. */
  lemma {:induction false} SweepKeeps(s: seq<bytes>)
    ensures forall a :: a in Sweep(s) <==> a in s
    ensures multiset(Sweep(s)) <= multiset(s)
    ensures NeighboursDiffer(Sweep(s))
    ensures s != [] ==> Sweep(s) != [] && Sweep(s)[0] == s[0]
    decreases |s|
  {
    hide NeighboursDiffer, TakenOut;
    if |s| <= 1 {
      FewDiffer(s);
    } else if s[0] == s[1] {
      TakenOutOnce(s, 1);
      SameAddresses(s, TakenOut(s, 1));
      SweepKeeps(TakenOut(s, 1));
    } else {
      SweepKeeps(s[1..]);
      OneMore(s[0], s[1..], Sweep(s[1..]));
      assert s == [s[0]] + s[1..];
    }
  }

  lemma FewDiffer(s: seq<bytes>)
    requires |s| <= 1
    ensures NeighboursDiffer(s)
  {
  }

  lemma OneMore(a: bytes, t: seq<bytes>, u: seq<bytes>)
    requires multiset(u) <= multiset(t) && NeighboursDiffer(u) && u != [] && u[0] != a
    ensures multiset([a] + u) <= multiset([a] + t) && NeighboursDiffer([a] + u)
  {
  }

  lemma SweepStart(s: seq<bytes>)
    ensures s != [] ==> Sweep(s) == s[..0] + Sweep(s[0..])
    ensures s == [] ==> Sweep(s) == []
  {
    assert s[0..] == s;
  }

  lemma SweepStep(s: seq<bytes>, i: nat)
    requires 1 <= i < |s|
    ensures s[i - 1] == s[i] ==>
      TakenOut(s, i)[..i - 1] + Sweep(TakenOut(s, i)[i - 1..]) == s[..i - 1] + Sweep(s[i - 1..])
    ensures s[i - 1] != s[i] ==> s[..i] + Sweep(s[i..]) == s[..i - 1] + Sweep(s[i - 1..])
  {
    var t := s[i - 1..];
    if s[i - 1] == s[i] {
      assert TakenOut(s, i)[i - 1..] == TakenOut(t, 1);
      assert TakenOut(s, i)[..i - 1] == s[..i - 1];
    } else {
      assert t[1..] == s[i..];
      assert s[..i] == s[..i - 1] + [s[i - 1]];
      assert s[..i - 1] + ([s[i - 1]] + Sweep(s[i..])) == (s[..i - 1] + [s[i - 1]]) + Sweep(s[i..]);
    }
  }

  lemma SweepEnd(s: seq<bytes>)
    ensures s != [] ==> s[..|s| - 1] + Sweep(s[|s| - 1..]) == s
  {
  }

  /** When a sorted list comes out without duplicates. A first address that is not repeated is taken off. A repeated
      one must be the only address of the list, or appear exactly twice; then the last address, which is moved to the
      second place, must be the only one after it, or stand there once, with such a list in between. */
  predicate Peels(s: seq<bytes>)
    decreases |s|
  {
    if |s| <= 1 then true
    else if s[0] != s[1] then Peels(s[1..])
    else
      var x, w := s[|s| - 1], s[2..Max(2, |s| - 1)];
      x == s[0] || (s[0] !in w && (w == [] || w[0] == x || (x !in w && Peels(w))))
  }

  function Max(a: int, b: int): int {
    if a > b then a else b
  }

  lemma {:induction false} SweepSame(s: seq<bytes>)
    requires s != [] && forall i | 0 <= i < |s| :: s[i] == s[0]
    ensures Sweep(s) == [s[0]]
    decreases |s|
  {
    if |s| > 1 {
      SweepSame(TakenOut(s, 1));
    }
  }

  /** The second pass removes all duplicates of a sorted list exactly when the list peels. */
  lemma {:induction false} SweepDistinct(s: seq<bytes>)
    requires Sorted(s)
    ensures Distinct(Sweep(s)) <==> Peels(s)
    decreases |s|
  {
    if |s| > 1 {
      if s[0] != s[1] {
        SweepDistinct(s[1..]);
        SweepKeeps(s[1..]);
        FirstIsOnce(s);
        DistinctCons(s[0], Sweep(s[1..]));
      } else if s[|s| - 1] == s[0] {
        AllSame(s);
        SweepSame(s);
      } else {
        PairDistinct(s);
      }
    }
  }

  lemma FirstIsOnce(s: seq<bytes>)
    requires Sorted(s) && |s| > 1 && s[0] != s[1]
    ensures s[0] !in s[1..]
  {
    forall j | 1 <= j < |s|
      ensures s[j] != s[0]
    {
      assert Le(s[0], s[1]) && Le(s[1], s[j]);
      LeTotal(s[0], s[1]);
    }
  }

  lemma AllSame(s: seq<bytes>)
    requires Sorted(s) && s != [] && s[|s| - 1] == s[0]
    ensures forall i | 0 <= i < |s| :: s[i] == s[0]
  {
    forall i | 0 <= i < |s|
      ensures s[i] == s[0]
    {
      LeTotal(s[0], s[i]);
      assert Le(s[0], s[i]) && Le(s[i], s[|s| - 1]);
    }
  }

  lemma DistinctCons(a: bytes, t: seq<bytes>)
    ensures Distinct([a] + t) <==> a !in t && Distinct(t)
  {
    var s := [a] + t;
    assert forall i | 1 <= i < |s| :: s[i] == t[i - 1];
    if Distinct(s) {
      forall i, j | 0 <= i < j < |t|
        ensures t[i] != t[j]
      {
        assert s[i + 1] != s[j + 1];
      }
      forall j | 0 <= j < |t|
        ensures t[j] != a
      {
        assert s[0] != s[j + 1];
      }
    }
  }

  lemma SweepCons(a: bytes, t: seq<bytes>)
    requires t != [] && a != t[0]
    ensures Sweep([a] + t) == [a] + Sweep(t)
  {
    assert ([a] + t)[1..] == t;
  }

  lemma TakenOutSecond(s: seq<bytes>)
    requires |s| > 2
    ensures TakenOut(s, 1) == [s[0], s[|s| - 1]] + s[2..|s| - 1]
  {
    hide Le, Sweep, Insert, Sort;
  }

  lemma SweepPair(s: seq<bytes>)
    requires |s| > 2 && s[0] == s[1]
    ensures Sweep(s) == Sweep(TakenOut(s, 1))
  {
  }

  /** The last address comes second now: [a, x] + w. */
  lemma PairSwept(a: bytes, x: bytes, w: seq<bytes>)
    requires a != x
    ensures Sweep([a, x] + w) == [a] + Sweep([x] + w)
    ensures Distinct(Sweep([a, x] + w)) <==> a !in w && Distinct(Sweep([x] + w))
  {
    hide Sweep, Distinct;
    var v := [x] + w;
    assert [a, x] + w == [a] + v;
    SweepCons(a, v);
    SweepKeeps(v);
    DistinctCons(a, Sweep(v));
    assert a in v <==> a in w;
  }

  /** A repeated first address, with a different last one. */
  lemma {:induction false} PairDistinct(s: seq<bytes>)
    requires Sorted(s) && |s| > 1 && s[0] == s[1] && s[|s| - 1] != s[0]
    ensures Distinct(Sweep(s)) <==> Peels(s)
    decreases |s|, 0
  {
    hide Sweep, Distinct, Le;
    var a, x, w := s[0], s[|s| - 1], s[2..|s| - 1];
    SweepPair(s);
    TakenOutSecond(s);
    PairSwept(a, x, w);
    if w == [] {
      SweepSame([x] + w);
      DistinctOne(x);
    } else if w[0] == x {
      AllLast(s);
      SweepSame([x] + w);
      DistinctOne(x);
    } else {
      SweepCons(x, w);
      SweepKeeps(w);
      DistinctCons(x, Sweep(w));
      SortedPart(s, 2, |s| - 1);
      SweepDistinct(w);
    }
  }

  lemma DistinctOne(x: bytes)
    ensures Distinct([x])
  {
  }

  lemma SortedPart(s: seq<bytes>, i: nat, j: nat)
    requires Sorted(s) && i <= j <= |s|
    ensures Sorted(s[i..j])
  {
    hide Le;
  }

  lemma AllLast(s: seq<bytes>)
    requires Sorted(s) && |s| > 3 && s[2] == s[|s| - 1]
    ensures forall i | 2 <= i < |s| :: s[i] == s[|s| - 1]
  {
    hide Le;
    forall i | 2 <= i < |s|
      ensures s[i] == s[|s| - 1]
    {
      assert Le(s[2], s[i]) && Le(s[i], s[|s| - 1]);
      LeTotal(s[i], s[|s| - 1]);
    }
  }

  const NETWORK: bytes := [49, 48, 46, 48, 46, 48, 46]  // "10.0.0."

  const A: bytes := NETWORK + [49]
  const B: bytes := NETWORK + [50]
  const C: bytes := NETWORK + [51]

  lemma {:induction false} LeLast(front: bytes, x: byte, y: byte)
    requires x <= y
    ensures Le(front + [x], front + [y])
  {
    if front != [] {
      LeLast(front[1..], x, y);
      assert (front + [x])[1..] == front[1..] + [x] && (front + [y])[1..] == front[1..] + [y];
    }
  }

  lemma Addresses()
    ensures A != B && B != C && A != C && Le(A, B) && Le(A, C) && Le(B, C)
  {
    hide Le;
    assert A[7] == 49 && B[7] == 50 && C[7] == 51;
    LeLast(NETWORK, 49, 50);
    LeLast(NETWORK, 49, 51);
    LeLast(NETWORK, 50, 51);
  }

  lemma FiveSorted(a: bytes, b: bytes, c: bytes)
    requires Le(a, b) && Le(a, c) && Le(b, c)
    ensures Sorted([a, a, b, c, c])
  {
    hide Le;
    LeTotal(a, a);
    LeTotal(b, b);
    LeTotal(c, c);
    var s := [a, a, b, c, c];
    assert s[0] == s[1] == a && s[2] == b && s[3] == s[4] == c;
  }

  /** The pass does not remove all duplicates: with 10.0.0.1 and 10.0.0.3 found twice and 10.0.0.2 once, 10.0.0.3 is
      brought forward and stays behind too. */
  lemma SweepCounterexample()
    ensures Sorted([A, A, B, C, C]) && Sweep([A, A, B, C, C]) == [A, C, B, C]
    ensures !Distinct(Sweep([A, A, B, C, C])) && !Peels([A, A, B, C, C])
  {
    hide Sweep, Distinct, Peels, Le;
    var s := [A, A, B, C, C];
    Addresses();
    FiveSorted(A, B, C);
    SweepPair(s);
    TakenOutSecond(s);
    assert [s[0], s[|s| - 1]] + s[2..|s| - 1] == [A] + ([C] + ([B] + [C]));
    SweepSame([C]);
    SweepCons(B, [C]);
    SweepCons(C, [B] + [C]);
    SweepCons(A, [C] + ([B] + [C]));
    assert [A] + ([C] + ([B] + [C])) == [A, C, B, C];
    TwoAlike([A, C, B, C]);
    SweepDistinct(s);
  }

  lemma TwoAlike(s: seq<bytes>)
    requires |s| == 4 && s[1] == s[3]
    ensures !Distinct(s)
  {
    assert s[1] == s[3];
  }
}
