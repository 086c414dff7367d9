/** The order of addresses, and what qsort makes of a list of them (src/clients/udp_scan.c). */
module AddressOrder {
  import opened Bytes

  /** strncmp(a, b, ADDR_BUF_SZ) <= 0 on addresses shorter than the buffer. */
  predicate Le(a: bytes, b: bytes) {
    if a == [] then true
    else if b == [] then false
    else a[0] < b[0] || (a[0] == b[0] && Le(a[1..], b[1..]))
  }

  /** The order of strncmp: the first byte in which two addresses differ decides, and a beginning comes first. */
  lemma {:induction false} LeMeans(a: bytes, b: bytes)
    ensures Le(a, b) <==>
      a <= b || exists k :: 0 <= k < |a| && k < |b| && a[..k] == b[..k] && a[k] < b[k]
  {
    if a != [] && b != [] {
      LeMeans(a[1..], b[1..]);
      assert a == [a[0]] + a[1..] && b == [b[0]] + b[1..];
      if a[0] == b[0] {
        if k :| 0 <= k < |a| && k < |b| && a[..k] == b[..k] && a[k] < b[k] {
          assert k > 0 && a[1..][..k - 1] == a[..k][1..] && b[1..][..k - 1] == b[..k][1..];
          assert a[1..][k - 1] < b[1..][k - 1];
        }
        if k :| 0 <= k < |a[1..]| && k < |b[1..]| && a[1..][..k] == b[1..][..k] && a[1..][k] < b[1..][k] {
          assert a[..k + 1] == [a[0]] + a[1..][..k] && b[..k + 1] == [b[0]] + b[1..][..k];
          assert a[k + 1] < b[k + 1];
        }
      } else if a[0] < b[0] {
        assert a[..0] == b[..0];
      } else {
        assert forall k | 0 < k < |a| && k < |b| :: a[..k][0] == a[0] && b[..k][0] == b[0];
      }
    }
  }

  lemma {:induction false} LeTotal(a: bytes, b: bytes)
    ensures Le(a, b) || Le(b, a)
    ensures Le(a, b) && Le(b, a) ==> a == b
  {
    if a != [] && b != [] {
      LeTotal(a[1..], b[1..]);
      assert [a[0]] + a[1..] == a && [b[0]] + b[1..] == b;
    }
  }

  lemma {:induction false} LeTransitive(a: bytes, b: bytes, c: bytes)
    requires Le(a, b) && Le(b, c)
    ensures Le(a, c)
  {
    if a != [] && c != [] && a[0] == b[0] == c[0] {
      LeTransitive(a[1..], b[1..], c[1..]);
    }
  }

  predicate Sorted(s: seq<bytes>) {
    forall i, j | 0 <= i <= j < |s| :: Le(s[i], s[j])
  }

  /** What qsort makes of a list: the sorted list with the same addresses. */
  function Insert(x: bytes, s: seq<bytes>): seq<bytes> {
    if s == [] || Le(x, s[0]) then [x] + s else [s[0]] + Insert(x, s[1..])
  }

  function Sort(s: seq<bytes>): seq<bytes> {
    if s == [] then [] else Insert(s[0], Sort(s[1..]))
  }

  lemma {:induction false} InsertSorts(x: bytes, s: seq<bytes>)
    requires Sorted(s)
    ensures Sorted(Insert(x, s)) && multiset(Insert(x, s)) == multiset(s) + multiset{x}
  {
    hide Le, Sorted;
    if s == [] || Le(x, s[0]) {
      SortedFirst(x, s);
    } else {
      SortedTail(s);
      InsertSorts(x, s[1..]);
      LeTotal(x, s[0]);
      assert s == [s[0]] + s[1..];
      SortedCons(s[0], Insert(x, s[1..]), x, s[1..]);
    }
  }

  lemma SortedFirst(x: bytes, s: seq<bytes>)
    requires Sorted(s) && (s == [] || Le(x, s[0]))
    ensures Sorted([x] + s)
  {
    hide Le;
    LeTotal(x, x);
    forall j | 0 <= j < |s|
      ensures Le(x, s[j])
    {
      LeTransitive(x, s[0], s[j]);
    }
  }

  lemma SortedCons(a: bytes, t: seq<bytes>, x: bytes, rest: seq<bytes>)
    requires Sorted(t) && multiset(t) == multiset(rest) + multiset{x} && Le(a, x) && Sorted([a] + rest)
    ensures Sorted([a] + t) && multiset([a] + t) == multiset{a} + multiset(t)
  {
    hide Le;
    LeTotal(a, a);
    forall j | 0 <= j < |t|
      ensures Le(a, t[j])
    {
      assert t[j] in multiset(t);
      if t[j] in rest {
        var k :| 0 <= k < |rest| && rest[k] == t[j];
        assert ([a] + rest)[k + 1] == t[j] && ([a] + rest)[0] == a;
      }
    }
  }

  lemma {:induction false} SortSorts(s: seq<bytes>)
    ensures Sorted(Sort(s)) && multiset(Sort(s)) == multiset(s)
  {
    if s != [] {
      SortSorts(s[1..]);
      InsertSorts(s[0], Sort(s[1..]));
      assert s == [s[0]] + s[1..];
    }
  }

  /** Sorted lists with the same addresses are equal. */
  lemma {:induction false} SortedUnique(a: seq<bytes>, b: seq<bytes>)
    requires Sorted(a) && Sorted(b) && multiset(a) == multiset(b)
    ensures a == b
  {
    hide Sorted, Le;
    assert |multiset(a)| == |a| && |multiset(b)| == |b|;
    if a != [] {
      SameFirst(a, b);
      SortedTail(a);
      SortedTail(b);
      SortedUnique(a[1..], b[1..]);
      assert a == [a[0]] + a[1..] && b == [b[0]] + b[1..];
    }
  }

  lemma SameFirst(a: seq<bytes>, b: seq<bytes>)
    requires a != [] && b != [] && Sorted(a) && Sorted(b) && multiset(a) == multiset(b)
    ensures a[0] == b[0]
  {
    hide Le;
    assert a[0] in multiset(b) && b[0] in multiset(a);
    var i :| 0 <= i < |b| && b[i] == a[0];
    var j :| 0 <= j < |a| && a[j] == b[0];
    assert Le(b[0], b[i]) && Le(a[0], a[j]);
    LeTotal(a[0], b[0]);
  }

  lemma SortedTail(s: seq<bytes>)
    requires s != [] && Sorted(s)
    ensures Sorted(s[1..]) && multiset(s[1..]) == multiset(s) - multiset{s[0]}
  {
    hide Le;
    assert s == [s[0]] + s[1..];
  }
}
