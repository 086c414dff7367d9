/** Taking an entry out of a list by moving the last one to its place (src/clients/udp_scan.c,
    src/utils/clipboard_listener.c). */
module SwapRemove {
  import opened Bytes

  /** The list without entry i; the last one takes its place. */
  function TakenOut(s: seq<bytes>, i: nat): (t: seq<bytes>)
    requires i < |s|
    ensures |t| == |s| - 1
  {
    s[i := s[|s| - 1]][..|s| - 1]
  }

  lemma TakenOutOnce(s: seq<bytes>, i: nat)
    requires i < |s|
    ensures multiset(TakenOut(s, i)) == multiset(s) - multiset{s[i]}
    ensures forall k | 0 <= k < i :: TakenOut(s, i)[k] == s[k]
  {
    var n := |s| - 1;
    var u := s[..n];
    assert s == u + [s[n]];
    assert multiset(s) == multiset(u) + multiset{s[n]};
    if i < n {
      assert TakenOut(s, i) == u[i := s[n]];
      assert multiset(u[i := s[n]]) == multiset(u) - multiset{u[i]} + multiset{s[n]};
      assert u[i] in multiset(u);
    } else {
      assert TakenOut(s, i) == u;
    }
  }

  lemma SameAddresses(s: seq<bytes>, t: seq<bytes>)
    requires |s| > 1 && s[0] == s[1] && multiset(t) == multiset(s) - multiset{s[1]}
    ensures forall a :: a in t <==> a in s
  {
    assert s == [s[0], s[1]] + s[2..];
    assert multiset(s) == multiset{s[0], s[1]} + multiset(s[2..]);
    forall a
      ensures a in t <==> a in s
    {
      assert a in t <==> a in multiset(t);
      assert a in s <==> a in multiset(s);
    }
  }
}
