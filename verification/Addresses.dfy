/** Filtering lists of addresses by swapping with the last entry: filter_addresses (src/clients/udp_scan.c),
    is_server_allowed and scan_servers (src/utils/clipboard_listener.c). */
module Addresses {
  import opened Bytes
  import opened AddressOrder
  import opened SwapRemove
  import opened Sweeps

  const MAX_FILTERED := 1024
  const MAX_SERVERS := 512

  /** What the first pass keeps. */
  function Kept(s: seq<bytes>, addrs: seq<bytes>): seq<bytes> {
    if s == [] then [] else (if s[0] in addrs then [] else [s[0]]) + Kept(s[1..], addrs)
  }

  lemma {:induction false} KeptCounts(s: seq<bytes>, addrs: seq<bytes>)
    ensures forall a :: multiset(Kept(s, addrs))[a] == if a in addrs then 0 else multiset(s)[a]
  {
    if s != [] {
      KeptCounts(s[1..], addrs);
      assert s == [s[0]] + s[1..];
      assert multiset(s) == multiset{s[0]} + multiset(s[1..]);
      if s[0] in addrs {
        assert Kept(s, addrs) == Kept(s[1..], addrs);
      } else {
        assert multiset(Kept(s, addrs)) == multiset{s[0]} + multiset(Kept(s[1..], addrs));
      }
    }
  }

  lemma SameCounts(a: seq<bytes>, b: seq<bytes>)
    requires forall x :: multiset(a)[x] == multiset(b)[x]
    ensures multiset(a) == multiset(b)
  {
  }

  /** strncmp against each local address; is_server_allowed compares in the same way. */
  method Contains(addrs: seq<bytes>, server: bytes) returns (found: bool)
    ensures found <==> server in addrs
  {
    for i := 0 to |addrs|
      invariant server !in addrs[..i]
    {
      if server == addrs[i] {
        return true;
      }
    }
    assert addrs[..|addrs|] == addrs;
    return false;
  }

  class AddressList {
    var cells: array<bytes>
    var len: nat

    ghost predicate Valid()
      reads this
    {
      len <= cells.Length
    }

    function Items(): seq<bytes>
      requires Valid()
      reads this, cells
    {
      cells[..len]
    }

    constructor (servers: seq<bytes>)
      ensures Valid() && Items() == servers && fresh(cells)
    {
      cells := new bytes[|servers|];
      len := |servers|;
      new;
      for i := 0 to |servers|
        modifies cells
        invariant forall j | 0 <= j < i :: cells[j] == servers[j]
      {
        cells[i] := servers[i];
      }
    }

    /** servers->array[i] = servers->array[servers->len - 1]; servers->len -= 1 */
    method TakeOut(i: nat)
      requires Valid() && i < len
      modifies this`len, cells
      ensures Valid() && Items() == TakenOut(old(Items()), i)
    {
      cells[i] := cells[len - 1];
      len := len - 1;
    }

    /** The first pass of filter_addresses: exactly the addresses that are not local stay, as often as they came. */
    method RemoveLocal(addrs: seq<bytes>)
      requires Valid()
      modifies this`len, cells
      ensures Valid() && cells == old(cells)
      ensures forall a :: multiset(Items())[a] == if a in addrs then 0 else multiset(old(Items()))[a]
    {
      ghost var was := multiset(Items());
      var i := 0;
      while i < len
        invariant Valid() && cells == old(cells) && 0 <= i <= len
        invariant forall k | 0 <= k < i :: Items()[k] !in addrs
        invariant forall a | a !in addrs :: multiset(Items())[a] == was[a]
        decreases len - i
      {
        ghost var s := Items();
        TakenOutOnce(s, i);
        var local := Contains(addrs, cells[i]);
        if local {
          TakeOut(i);
        } else {
          i := i + 1;
        }
      }
      forall a | a in addrs
        ensures multiset(Items())[a] == 0
      {
        assert a !in Items();
      }
    }

    /** qsort with addr_comp. */
    method QSort()
      requires Valid()
      modifies cells
      ensures Valid() && Items() == Sort(old(Items()))
    {
      var sorted := Sort(Items());
      SortSorts(Items());
      assert |multiset(sorted)| == |multiset(Items())|;
      for i := 0 to len
        modifies cells
        invariant forall j | 0 <= j < i :: cells[j] == sorted[j]
      {
        cells[i] := sorted[i];
      }
    }

    /** The second pass: an entry equal to the one before it is taken out. */
    method RemoveDuplicates()
      requires Valid()
      modifies this`len, cells
      ensures Valid() && Items() == Sweep(old(Items()))
    {
      ghost var all := Sweep(Items());
      var i := 1;
      SweepStart(Items());
      while i < len
        invariant Valid() && cells == old(cells) && 1 <= i && (i <= len || len == 0)
        invariant len > 0 ==> all == Items()[..i - 1] + Sweep(Items()[i - 1..])
        invariant len == 0 ==> all == []
        decreases len - i
      {
        SweepStep(Items(), i);
        if cells[i - 1] == cells[i] {
          TakeOut(i);
        } else {
          i := i + 1;
        }
      }
      SweepEnd(Items());
    }

    /** filter_addresses */
    method FilterAddresses(addrs: seq<bytes>)
      requires Valid()
      modifies this`len, cells
      ensures Valid()
      ensures forall a :: a in Items() <==> a in old(Items()) && a !in addrs
      ensures multiset(Items()) <= multiset(old(Items()))
      ensures NeighboursDiffer(Items())
      ensures Distinct(Items()) <==> Peels(Sort(Kept(old(Items()), addrs)))
    {
      ghost var was := Items();
      KeptCounts(was, addrs);
      if len == 0 {
        return;
      }
      RemoveLocal(addrs);
      ghost var kept := Items();
      SameCounts(kept, Kept(was, addrs));
      SortSorts(kept);
      SortSorts(Kept(was, addrs));
      SortedUnique(Sort(kept), Sort(Kept(was, addrs)));
      QSort();
      SweepKeeps(Sort(kept));
      SweepDistinct(Sort(kept));
      RemoveDuplicates();
      Filtered(was, addrs, kept, Sort(kept), Items());
    }

    /** scan_servers from the scanned list on. What is returned has 1 to 512 entries, all of them allowed when there is
        an allow-list: the filter is skipped for long lists, but those are refused. */
    method ScanServers(allowed: Option<seq<bytes>>) returns (ok: bool)
      requires Valid()
      modifies this`len, cells
      ensures Valid() && (ok <==> 1 <= |Items()| <= MAX_SERVERS)
      ensures ok && allowed.Some? ==> forall a | a in Items() :: a in allowed.value
      ensures allowed.Some? && |old(Items())| < MAX_FILTERED ==>
        forall a :: multiset(Items())[a] == if a in allowed.value then multiset(old(Items()))[a] else 0
      ensures allowed == None || |old(Items())| >= MAX_FILTERED ==> Items() == old(Items())
    {
      if allowed.Some? && len < MAX_FILTERED {
        KeepAllowed(allowed.value);
      }
      ok := !(len <= 0 || len > MAX_SERVERS);
    }

    method KeepAllowed(allowed: seq<bytes>)
      requires Valid()
      modifies this`len, cells
      ensures Valid() && forall a | a in Items() :: a in allowed
      ensures forall a :: multiset(Items())[a] == if a in allowed then multiset(old(Items()))[a] else 0
    {
      ghost var was := multiset(Items());
      var i := 0;
      while i < len
        invariant Valid() && cells == old(cells) && 0 <= i <= len
        invariant forall k | 0 <= k < i :: Items()[k] in allowed
        invariant forall a | a in allowed :: multiset(Items())[a] == was[a]
        decreases len - i
      {
        TakenOutOnce(Items(), i);
        var found := Contains(allowed, cells[i]);
        if found {
          i := i + 1;
        } else {
          TakeOut(i);
        }
      }
      forall a | a !in allowed
        ensures multiset(Items())[a] == 0
      {
        assert a !in Items();
      }
    }
  }

  lemma Filtered(was: seq<bytes>, addrs: seq<bytes>, kept: seq<bytes>, sorted: seq<bytes>, now: seq<bytes>)
    requires forall a :: multiset(kept)[a] == if a in addrs then 0 else multiset(was)[a]
    requires multiset(sorted) == multiset(kept) && multiset(now) <= multiset(sorted)
    requires forall a :: a in now <==> a in sorted
    ensures forall a :: a in now <==> a in was && a !in addrs
    ensures multiset(now) <= multiset(was)
  {
    forall a
      ensures a in now <==> a in was && a !in addrs
    {
      assert a in sorted <==> a in multiset(sorted);
      assert a in was <==> a in multiset(was);
    }
  }
}
