/** Get Files as a whole: _get_files_dirs (src/proto/methods.c). */
module GetFiles {
  import opened Bytes
  import opened Numerals
  import opened Wire
  import opened Session
  import opened NetUtils
  import opened Acks
  import opened Trees
  import opened Paths
  import opened FileSystems
  import opened Mkdirs
  import opened ReceivedNames
  import opened TempTrees
  import opened ReceiveFiles
  import opened Renames

  type uint32 = n: int | 0 <= n < TWO_32

  function HexDigit(d: nat): byte
    requires d < 16
  {
    if d < 10 then 48 + d else 87 + d
  }

  /** "%x" */
  function Hex(n: nat): (s: bytes)
    ensures forall b | b in s :: 48 <= b <= 57 || 97 <= b <= 102
    ensures ProperName(s)
  {
    var s := if n < 16 then [HexDigit(n)] else Hex(n / 16) + [HexDigit(n % 16)];
    HexStringProper(s);
    s
  }

  const HEX_DIGITS := "0123456789abcdef"

  lemma HexDigitIs(d: nat)
    requires d < 16
    ensures HexDigit(d) == HEX_DIGITS[d] as int
  {
  }

  /** The text of a number is its hexadecimal numeral with lower-case digits. */
  lemma {:induction false} HexSpelled(n: nat)
    ensures Numeral(Hex(n), HEX_DIGITS, n) && (n > 0 ==> Hex(n)[0] != HEX_DIGITS[0] as int)
  {
    hide Spells, ProperName, HexDigit;
    HexDigitIs(n % 16);
    if n < 16 {
      SpellsNothing(HEX_DIGITS);
      SpellsSnoc([], HEX_DIGITS, 0, n, HexDigit(n));
      assert [] + [HexDigit(n)] == Hex(n);
      NonZeroDigit(n);
    } else {
      HexSpelled(n / 16);
      SpellsSnoc(Hex(n / 16), HEX_DIGITS, n / 16, n % 16, HexDigit(n % 16));
      assert n / 16 * 16 + n % 16 == n;
    }
  }

  lemma NonZeroDigit(d: nat)
    requires d < 16
    ensures d > 0 ==> HEX_DIGITS[d] != HEX_DIGITS[0]
  {
  }

  lemma HexStringProper(s: bytes)
    requires s != [] && forall b | b in s :: 48 <= b <= 57 || 97 <= b <= 102
    ensures ProperName(s)
  {
    assert s[0] in s;
    assert forall i | 0 <= i < |s| :: s[i] in s;
  }

  /** The entries moved so far: each under a new name, none on top of what was there. */
  ghost predicate Relocated(h0: Entries, m: Entries, moves: map<bytes, bytes>, placed: Entries) {
    && moves.Keys <= m.Keys
    && placed.Keys == moves.Values
    && placed.Keys !! h0.Keys
    && (forall f | f in moves :: moves[f] in placed && placed[moves[f]] == m[f])
    && (forall f, f' | f in moves && f' in moves && moves[f] == moves[f'] :: f == f')
  }

  /** The working directory while entries are moved out of the temp directory. */
  ghost function During(h0: Entries, hex: bytes, m: Entries, moves: map<bytes, bytes>, placed: Entries): Entries {
    (h0 + placed)[hex := Dir(m - moves.Keys)]
  }

  function Elements(s: seq<bytes>): set<bytes> {
    set x | x in s
  }

  /** The new names in the order of the moves: each is chosen among what was free when its turn came. */
  ghost predicate Chosen(workingDirSet: bool, taken: set<bytes>, moved: seq<bytes>, dests: seq<bytes>) {
    && |dests| == |moved|
    && forall i | 0 <= i < |moved| :: NameFor(workingDirSet, taken + Elements(dests[..i]), moved[i], dests[i])
  }

  /** moves sends the entries moved so far, in their order, to dests. */
  ghost predicate Paired(moved: seq<bytes>, dests: seq<bytes>, moves: map<bytes, bytes>, placed: Entries) {
    && |dests| == |moved| && moves.Keys == Elements(moved) && placed.Keys == Elements(dests)
    && forall i | 0 <= i < |moved| :: moved[i] in moves && moves[moved[i]] == dests[i]
  }

  lemma ChosenNext(workingDirSet: bool, taken: set<bytes>, moved: seq<bytes>, dests: seq<bytes>, f: bytes, g: bytes)
    requires Chosen(workingDirSet, taken, moved, dests) && NameFor(workingDirSet, taken + Elements(dests), f, g)
    ensures Chosen(workingDirSet, taken, moved + [f], dests + [g])
  {
    hide NameFor, Elements;
    var moved', dests' := moved + [f], dests + [g];
    forall i | 0 <= i < |moved'|
      ensures NameFor(workingDirSet, taken + Elements(dests'[..i]), moved'[i], dests'[i])
    {
      assert dests'[..i] == if i == |dests| then dests else dests[..i];
    }
  }

  lemma PairedNext(moved: seq<bytes>, dests: seq<bytes>, moves: map<bytes, bytes>, placed: Entries, f: bytes, g: bytes,
      x: Node)
    requires Paired(moved, dests, moves, placed) && f !in moves
    ensures Paired(moved + [f], dests + [g], moves[f := g], placed[g := x])
  {
    forall i | 0 <= i < |moved|
      ensures moved[i] != f
    {
      assert moved[i] in moves;
    }
  }

  lemma {:induction false} ValuesGrow(moves: map<bytes, bytes>, f: bytes, g: bytes)
    requires f !in moves
    ensures moves[f := g].Values == moves.Values + {g}
  {
    var moves' := moves[f := g];
    assert moves'[f] == g;
    forall x | x in moves.Values
      ensures x in moves'.Values
    {
      var k :| k in moves && moves[k] == x;
      assert moves'[k] == x;
    }
  }

  lemma RelocateOne(h0: Entries, m: Entries, moves: map<bytes, bytes>, placed: Entries, f: bytes, g: bytes)
    requires Relocated(h0, m, moves, placed)
    requires f in m && f !in moves && g !in h0 && g !in placed
    ensures Relocated(h0, m, moves[f := g], placed[g := m[f]])
  {
    var moves', placed' := moves[f := g], placed[g := m[f]];
    ValuesGrow(moves, f, g);
    assert placed'.Keys == placed.Keys + {g};
    forall k | k in moves
      ensures moves[k] in placed && moves[k] != g
    {
      assert moves[k] in placed;
    }
    assert forall k | k in moves' :: k == f || (k in moves && moves'[k] == moves[k]);
  }

  lemma MoveOne(h0: Entries, hex: bytes, m: Entries, moves: map<bytes, bytes>, placed: Entries, f: bytes, g: bytes)
    requires Relocated(h0, m, moves, placed) && hex !in h0 && hex !in placed
    requires f in m && f !in moves && g !in During(h0, hex, m, moves, placed)
    ensures Relocated(h0, m, moves[f := g], placed[g := m[f]]) && hex !in placed[g := m[f]]
    ensures f in During(h0, hex, m, moves, placed)[hex].entries
    ensures MovedOut(During(h0, hex, m, moves, placed), hex, f, g)
         == During(h0, hex, m, moves[f := g], placed[g := m[f]])
  {
    hide Relocated;
    RelocateOne(h0, m, moves, placed, f, g);
    LeftBehind(m, moves, f, g);
    MovedAway(h0 + placed, hex, m - moves.Keys, f, g, m[f]);
    assert h0 + placed[g := m[f]] == (h0 + placed)[g := m[f]];
  }

  lemma LeftBehind(m: Entries, moves: map<bytes, bytes>, f: bytes, g: bytes)
    requires f in m && f !in moves
    ensures m - moves[f := g].Keys == (m - moves.Keys) - {f}
    ensures f in m - moves.Keys && (m - moves.Keys)[f] == m[f]
  {
  }

  lemma MovedAway(h: Entries, hex: bytes, rest: Entries, f: bytes, g: bytes, x: Node)
    requires f in rest && rest[f] == x && g != hex
    ensures MovedOut(h[hex := Dir(rest)], hex, f, g) == h[g := x][hex := Dir(rest - {f})]
  {
  }

  /** The entries moved so far have new names that were chosen by the rule. */
  ghost predicate Renamed(h0: Entries, hex: bytes, m: Entries, workingDirSet: bool,
      moved: seq<bytes>, dests: seq<bytes>, moves: map<bytes, bytes>, placed: Entries)
  {
    && Relocated(h0, m, moves, placed) && hex !in placed && |placed| <= |moves|
    && Chosen(workingDirSet, h0.Keys + {hex}, moved, dests) && Paired(moved, dests, moves, placed)
    && forall g | g in placed :: ProperName(g) && (!workingDirSet ==> g != CONFIG_FILE)
  }

  lemma RenamedNext(h0: Entries, hex: bytes, m: Entries, workingDirSet: bool, moved: seq<bytes>, dests: seq<bytes>,
      moves: map<bytes, bytes>, placed: Entries, f: bytes, g: bytes)
    requires Renamed(h0, hex, m, workingDirSet, moved, dests, moves, placed) && hex !in h0
    requires f in m && f !in moves && ProperName(f)
    requires NameFor(workingDirSet, During(h0, hex, m, moves, placed).Keys, f, g)
    ensures NameFor(workingDirSet, h0.Keys + {hex} + Elements(dests), f, g)
    ensures Renamed(h0, hex, m, workingDirSet, moved + [f], dests + [g], moves[f := g], placed[g := m[f]])
    ensures f in During(h0, hex, m, moves, placed)[hex].entries
    ensures MovedOut(During(h0, hex, m, moves, placed), hex, f, g)
         == During(h0, hex, m, moves[f := g], placed[g := m[f]])
  {
    hide ProperName, Relocated, During, NameFor, MovedOut, Chosen, Paired;
    NeverConfig(workingDirSet, During(h0, hex, m, moves, placed).Keys, f, g);
    DuringKeys(h0, hex, m, moves, placed, moved, dests);
    ChosenNext(workingDirSet, h0.Keys + {hex}, moved, dests, f, g);
    PairedNext(moved, dests, moves, placed, f, g, m[f]);
    MoveOne(h0, hex, m, moves, placed, f, g);
    MoreMoves(moves, placed, f, g, m[f]);
  }

  lemma MoreMoves(moves: map<bytes, bytes>, placed: Entries, f: bytes, g: bytes, x: Node)
    requires |placed| <= |moves| && f !in moves
    ensures |placed[g := x]| <= |moves[f := g]|
  {
    assert moves[f := g].Keys == moves.Keys + {f} && placed[g := x].Keys == placed.Keys + {g};
  }

  /** While entries are moved out: the working directory is as it was, with the moved entries under free names, and
      the rest still in the temp directory. */
  ghost predicate Moving(fs: FileSystem, was: Node, h0: Entries, hex: bytes, m: Entries, workingDirSet: bool,
      moved: seq<bytes>, dests: seq<bytes>, moves: map<bytes, bytes>, placed: Entries)
    reads fs
  {
    && Renamed(h0, hex, m, workingDirSet, moved, dests, moves, placed)
    && Became(was, fs.cwd, fs.root, During(h0, hex, m, moves, placed))
  }

  /** The directory is not so full that a million alternatives could be taken. */
  predicate Uncrowded(h0: Entries, m: Entries) {
    |h0| + |m| + 1 < MAX_TRIES
  }

  /** Names are short and there is room for all of them. */
  predicate Roomy(h0: Entries, m: Entries) {
    (forall f | f in m :: |f| <= MAX_FILE_NAME_LENGTH) && Uncrowded(h0, m)
  }

  lemma NotMovedYet(h0: Entries, hex: bytes, m: Entries, moves: map<bytes, bytes>, placed: Entries, f: bytes)
    requires f in m && f !in moves
    ensures var h := During(h0, hex, m, moves, placed);
            hex in h && h[hex].Dir? && f in h[hex].entries
  {
    assert f in (m - moves.Keys);
  }

  /** One round of the loop. */
  method MoveNext(fs: FileSystem, hex: bytes, f: bytes, workingDirSet: bool,
      ghost was: Node, ghost h0: Entries, ghost m: Entries, ghost moved: seq<bytes>, dests: seq<bytes>,
      ghost moves: map<bytes, bytes>, ghost placed: Entries)
    returns (g: Option<bytes>, ghost moves': map<bytes, bytes>, ghost placed': Entries)
    requires fs.Valid() && ProperName(hex) && hex !in h0 && f in m && f !in moves && ProperName(f)
    requires Moving(fs, was, h0, hex, m, workingDirSet, moved, dests, moves, placed)
    modifies fs
    ensures fs.Valid()
    ensures Moving(fs, was, h0, hex, m, workingDirSet, if g.Some? then moved + [f] else moved,
                   if g.Some? then dests + [g.value] else dests, moves', placed')
    ensures moves' == if g.Some? then moves[f := g.value] else moves
    ensures g.Some? ==> |f| <= MAX_FILE_NAME_LENGTH
    ensures fs.Reliable() ==>
      (g.Some? <==> |f| <= MAX_FILE_NAME_LENGTH && !Crowded(workingDirSet, h0.Keys + {hex} + Elements(dests), f))
    ensures g.Some? ==> NameFor(workingDirSet, h0.Keys + {hex} + Elements(dests), f, g.value)
    ensures fs.Reliable() && Uncrowded(h0, m) ==> (g.Some? <==> |f| <= MAX_FILE_NAME_LENGTH)
  {
    hide Put, Get, Proper, CanPut, Became, ProperName, Enumerates, DirAt, Relocated, During, NameFor, MovedOut, Crowded,
      Chosen, Paired, Uncrowded, Renamed;
    ghost var h := During(h0, hex, m, moves, placed);
    NotMovedYet(h0, hex, m, moves, placed, f);
    TakenNow(h0, hex, m, workingDirSet, moved, dests, moves, placed, f);
    g := CheckAndRename(fs, f, hex, workingDirSet, was, h);
    moves', placed' := moves, placed;
    if g.Some? {
      RenamedNext(h0, hex, m, workingDirSet, moved, dests, moves, placed, f, g.value);
      moves', placed' := moves[f := g.value], placed[g.value := m[f]];
    }
  }

  lemma TakenNow(h0: Entries, hex: bytes, m: Entries, workingDirSet: bool, moved: seq<bytes>, dests: seq<bytes>,
      moves: map<bytes, bytes>, placed: Entries, f: bytes)
    requires Renamed(h0, hex, m, workingDirSet, moved, dests, moves, placed) && f in m
    ensures During(h0, hex, m, moves, placed).Keys == h0.Keys + {hex} + Elements(dests)
    ensures Uncrowded(h0, m) ==> !Crowded(workingDirSet, h0.Keys + {hex} + Elements(dests), f)
  {
    hide Relocated, During, Chosen, Crowded, Uncrowded, Paired, Elements;
    DuringKeys(h0, hex, m, moves, placed, moved, dests);
    if Uncrowded(h0, m) {
      RoomLeft(workingDirSet, h0, hex, m, moves, placed, f);
    }
  }

  lemma DuringKeys(h0: Entries, hex: bytes, m: Entries, moves: map<bytes, bytes>, placed: Entries, moved: seq<bytes>,
      dests: seq<bytes>)
    requires Paired(moved, dests, moves, placed)
    ensures During(h0, hex, m, moves, placed).Keys == h0.Keys + {hex} + Elements(dests)
  {
  }

  /** The entries of a list that are in the set. */
  function Only(files: seq<bytes>, kept: set<bytes>): seq<bytes> {
    if files == [] then []
    else Only(files[..|files| - 1], kept) + if files[|files| - 1] in kept then [files[|files| - 1]] else []
  }

  lemma OnlyNone(files: seq<bytes>, kept: set<bytes>)
    requires files == []
    ensures Only(files, kept) == []
  {
  }

  lemma {:induction false} OnlyAll(files: seq<bytes>, kept: set<bytes>)
    requires forall f | f in files :: f in kept
    ensures Only(files, kept) == files
  {
    if files != [] {
      OnlyAll(files[..|files| - 1], kept);
    }
  }

  lemma {:induction false} OnlyElsewhere(files: seq<bytes>, kept: set<bytes>, f: bytes)
    requires f !in files
    ensures Only(files, kept + {f}) == Only(files, kept)
  {
    if files != [] {
      OnlyElsewhere(files[..|files| - 1], kept, f);
    }
  }

  /** A new entry at the end of the list, kept or not. */
  lemma OnlyMore(files: seq<bytes>, kept: set<bytes>, f: bytes, keep: bool)
    requires f !in files && f !in kept
    ensures Only(files + [f], if keep then kept + {f} else kept) == Only(files, kept) + if keep then [f] else []
  {
    OnlyElsewhere(files, kept, f);
    assert (files + [f])[..|files|] == files;
  }

  /** There is a new name for every entry in turn, and no name is too long. */
  ghost predicate Placeable(workingDirSet: bool, taken: set<bytes>, files: seq<bytes>) {
    && (forall f | f in files :: |f| <= MAX_FILE_NAME_LENGTH)
    && exists dests :: Chosen(workingDirSet, taken, files, dests)
  }

  /** There is only one way to choose the names. */
  lemma {:induction false} ChosenOnce(workingDirSet: bool, taken: set<bytes>, files: seq<bytes>, all: seq<bytes>,
      i: nat,
      dests: seq<bytes>)
    requires i <= |files| && Chosen(workingDirSet, taken, files, all)
    requires Chosen(workingDirSet, taken, files[..i], dests)
    ensures dests == all[..i]
  {
    hide NameFor, Elements;
    if i > 0 {
      var front := dests[..i - 1];
      forall k | 0 <= k < i - 1
        ensures NameFor(workingDirSet, taken + Elements(front[..k]), files[..i - 1][k], front[k])
      {
        assert front[..k] == dests[..k] && files[..i][k] == files[..i - 1][k];
      }
      ChosenOnce(workingDirSet, taken, files, all, i - 1, front);
      OneName(workingDirSet, taken + Elements(front), files[i - 1]);
      assert files[..i][i - 1] == files[i - 1];
      assert dests == front + [dests[i - 1]] && all[..i] == all[..i - 1] + [all[i - 1]];
    }
  }

  /** When all entries so far were moved, the next one has a new name if there is one for every entry in turn. */
  lemma NextFits(workingDirSet: bool, taken: set<bytes>, files: seq<bytes>, i: nat, dests: seq<bytes>)
    requires i <= |files| && Chosen(workingDirSet, taken, files[..i], dests)
    ensures i < |files| && Placeable(workingDirSet, taken, files) ==>
      |files[i]| <= MAX_FILE_NAME_LENGTH && !Crowded(workingDirSet, taken + Elements(dests), files[i])
    ensures i == |files| && (forall f | f in files :: |f| <= MAX_FILE_NAME_LENGTH) ==>
      Placeable(workingDirSet, taken, files)
  {
    hide NameFor, Elements, Crowded;
    if i == |files| {
      assert files[..i] == files;
    } else if Placeable(workingDirSet, taken, files) {
      var all :| Chosen(workingDirSet, taken, files, all);
      ChosenOnce(workingDirSet, taken, files, all, i, dests);
      OneName(workingDirSet, taken + Elements(all[..i]), files[i]);
      assert NameFor(workingDirSet, taken + Elements(all[..i]), files[i], all[i]);
    }
  }

  /** The same, seen from the loop. */
  lemma MovedAllSoFar(fs: FileSystem, was: Node, h0: Entries, hex: bytes, m: Entries, workingDirSet: bool,
      files: seq<bytes>, i: nat, dests: seq<bytes>, moves: map<bytes, bytes>, placed: Entries)
    requires i <= |files|
    requires Moving(fs, was, h0, hex, m, workingDirSet, Only(files[..i], moves.Keys), dests, moves, placed)
    requires forall f | f in files[..i] :: f in moves
    ensures i < |files| && Placeable(workingDirSet, h0.Keys + {hex}, files) ==>
      |files[i]| <= MAX_FILE_NAME_LENGTH && !Crowded(workingDirSet, h0.Keys + {hex} + Elements(dests), files[i])
    ensures i == |files| && (forall f | f in files :: |f| <= MAX_FILE_NAME_LENGTH) ==>
      Placeable(workingDirSet, h0.Keys + {hex}, files)
  {
    hide Chosen, Only, Elements, Crowded, Placeable, Relocated, Paired, Became;
    OnlyAll(files[..i], moves.Keys);
    NextFits(workingDirSet, h0.Keys + {hex}, files, i, dests);
  }

  /** The loop over the received entries. An entry that cannot be moved does not stop it: when the system refuses
      nothing and there is room, exactly the entries with an allowed name move. It succeeds only when every entry in
      turn has a new name, and always then when the system refuses nothing. */
  method MoveAll(fs: FileSystem, hex: bytes, files: seq<bytes>, workingDirSet: bool,
      ghost was: Node, ghost h0: Entries, ghost m: Entries)
    returns (status: bool, dests: seq<bytes>, ghost moved: seq<bytes>, ghost moves: map<bytes, bytes>,
      ghost placed: Entries)
    requires fs.Valid() && ProperName(hex) && hex !in h0
    requires Became(was, fs.cwd, fs.root, h0[hex := Dir(m)])
    requires Distinct(files) && (forall f | f in files :: f in m) && (forall f | f in m :: ProperName(f))
    modifies fs
    ensures fs.Valid() && Moving(fs, was, h0, hex, m, workingDirSet, moved, dests, moves, placed)
    ensures moved == Only(files, moves.Keys) && (status <==> forall f | f in files :: f in moves)
    ensures fs.Reliable() && Uncrowded(h0, m) ==> forall f | f in files :: f in moves <==> |f| <= MAX_FILE_NAME_LENGTH
    ensures status ==> Placeable(workingDirSet, h0.Keys + {hex}, files)
    ensures fs.Reliable() && Placeable(workingDirSet, h0.Keys + {hex}, files) ==> status
  {
    hide Put, Get, Proper, CanPut, Became, ProperName, Enumerates, DirAt, Moving, Uncrowded, Only, Placeable, Crowded,
      NameFor;
    status, dests := true, [];
    moved, moves, placed := [], map[], map[];
    OnlyNone(files[..0], moves.Keys);
    MovingStart(fs, was, h0, hex, m, workingDirSet);
    var i := 0;
    while i < |files|
      invariant 0 <= i <= |files| && fs.Valid()
      invariant Moving(fs, was, h0, hex, m, workingDirSet, moved, dests, moves, placed)
      invariant moved == Only(files[..i], moves.Keys) && moves.Keys <= Elements(files[..i])
      invariant status <==> forall f | f in files[..i] :: f in moves
      invariant forall f | f in moves :: |f| <= MAX_FILE_NAME_LENGTH
      invariant fs.Reliable() && Placeable(workingDirSet, h0.Keys + {hex}, files) ==> status
      invariant
        fs.Reliable() && Uncrowded(h0, m) ==> forall f | f in files[..i] :: f in moves <==> |f| <= MAX_FILE_NAME_LENGTH
    {
      var f := files[i];
      assert f !in files[..i] && files[..i + 1] == files[..i] + [f];
      ghost var before := moves.Keys;
      if status {
        MovedAllSoFar(fs, was, h0, hex, m, workingDirSet, files, i, dests, moves, placed);
      }
      var g;
      g, moves, placed := MoveNext(fs, hex, f, workingDirSet, was, h0, m, moved, dests, moves, placed);
      assert moves.Keys == if g.Some? then before + {f} else before;
      OnlyMore(files[..i], before, f, g.Some?);
      if g == None {
        status := false;
      } else {
        moved, dests := moved + [f], dests + [g.value];
      }
      i := i + 1;
    }
    assert files[..i] == files;
    if status {
      MovedAllSoFar(fs, was, h0, hex, m, workingDirSet, files, i, dests, moves, placed);
    }
  }

  lemma MovingStart(fs: FileSystem, was: Node, h0: Entries, hex: bytes, m: Entries, workingDirSet: bool)
    requires Became(was, fs.cwd, fs.root, h0[hex := Dir(m)])
    ensures Moving(fs, was, h0, hex, m, workingDirSet, [], [], map[], map[])
  {
    var moves: map<bytes, bytes>, placed: Entries := map[], map[];
    assert m - moves.Keys == m && h0 + placed == h0;
  }

  lemma RoomLeft(workingDirSet: bool, h0: Entries, hex: bytes, m: Entries, moves: map<bytes, bytes>, placed: Entries,
      f: bytes)
    requires Relocated(h0, m, moves, placed) && |placed| <= |moves| && f in m && Uncrowded(h0, m)
    ensures !Crowded(workingDirSet, During(h0, hex, m, moves, placed).Keys, f)
  {
    hide Crowded;
    var h := During(h0, hex, m, moves, placed);
    assert h.Keys == h0.Keys + placed.Keys + {hex};
    SubsetSize(moves.Keys, m.Keys);
    FewTaken(workingDirSet, h.Keys, f);
  }

  lemma FewTaken(workingDirSet: bool, taken: set<bytes>, f: bytes)
    requires |taken| < MAX_TRIES
    ensures !Crowded(workingDirSet, taken, f)
  {
    if Crowded(workingDirSet, taken, f) {
      ManyNames(taken, f, MAX_TRIES);
    }
  }

  lemma {:induction false} SubsetSize<T>(a: set<T>, b: set<T>)
    requires a <= b
    ensures |a| <= |b|
  {
    if x :| x in a {
      SubsetSize(a - {x}, b - {x});
    }
  }

  /** What the bytes of a whole transfer make of an empty temp directory; None when they are refused. */
  function GetSpec(setup: Setup, v: nat, hex: bytes, s: bytes): Option<Received>
    requires ProperName(hex)
  {
    if |s| < 8 then None
    else
      var count := DecodeSize(s[..8]);
      if count <= 0 || count > setup.maxFileCount then None
      else
        match ReceiveMany(setup, v, hex, map[], s[8..], count)
        case None => None
        case Some(r) => Some(Received(r.entries, 8 + r.length))
  }

  /** Everything that was in the working directory is still there, unchanged; nothing else in the tree changed. */
  ghost predicate NothingLost(was: Node, cwd: Path, now: Node)
  {
    && DirAt(was, cwd) && DirAt(now, cwd) && Became(was, cwd, now, Here(now, cwd))
    && forall n | n in Here(was, cwd) :: n in Here(now, cwd) && Here(now, cwd)[n] == Here(was, cwd)[n]
  }

  lemma NothingLostBy(was: Node, cwd: Path, now: Node, h: Entries)
    requires DirAt(was, cwd) && Became(was, cwd, now, h)
    requires forall n | n in Here(was, cwd) :: n in h && h[n] == Here(was, cwd)[n]
    ensures NothingLost(was, cwd, now) && Here(now, cwd) == h
  {
    BecameHere(was, cwd, now, h, []);
  }

  /** No path that existed is lost, and every file keeps its content, anywhere in the tree. */
  lemma NothingLostAnywhere(was: Node, cwd: Path, now: Node, p: Path)
    requires NothingLost(was, cwd, now) && Get(was, p).Some?
    ensures Get(now, p).Some?
    ensures Get(was, p).value.File? ==> Get(now, p) == Get(was, p)
  {
    if cwd <= p {
      var q := p[|cwd|..];
      assert p == cwd + q;
      BecameHere(was, cwd, now, Here(now, cwd), q);
      GetAppend(was, cwd, q);
    } else if p <= cwd {
      var q := cwd[|p|..];
      assert cwd == p + q;
      GetAppend(now, p, q);
      GetAppend(was, p, q);
    } else {
      GetPutElsewhere(was, cwd, Dir(Here(now, cwd)), p);
    }
  }

  /** The first candidate that names nothing in the working directory. */
  function Unused(ids: seq<uint32>, h0: Entries): (hex: Option<bytes>)
    ensures hex.Some? ==> ProperName(hex.value)
  {
    if ids == [] then None
    else if Hex(ids[0]) !in h0 then Some(Hex(ids[0]))
    else Unused(ids[1..], h0)
  }

  lemma {:induction false} UnusedAt(ids: seq<uint32>, h0: Entries, i: nat)
    requires i <= |ids| && forall j | 0 <= j < i :: Hex(ids[j]) in h0
    ensures Unused(ids, h0) == if i == |ids| then None else if Hex(ids[i]) !in h0 then Some(Hex(ids[i]))
                               else Unused(ids[i + 1..], h0)
  {
    if i > 0 {
      assert i < |ids| ==> ids[1..][i..] == ids[i + 1..];
      UnusedAt(ids[1..], h0, i - 1);
    }
  }

  /** There is one exactly when some candidate is free, and then it is a free candidate. */
  lemma {:induction false} UnusedIs(ids: seq<uint32>, h0: Entries)
    ensures Unused(ids, h0).Some? <==> exists id | id in ids :: Hex(id) !in h0
    ensures Unused(ids, h0).Some? ==> exists id | id in ids :: Hex(id) == Unused(ids, h0).value && Hex(id) !in h0
  {
    if ids != [] {
      UnusedIs(ids[1..], h0);
      assert ids[0] in ids && forall id :: id in ids <==> id == ids[0] || id in ids[1..];
    }
  }

  /** The name is the hexadecimal numeral of the first candidate whose numeral names nothing. */
  ghost predicate FirstFree(ids: seq<uint32>, h0: Entries, hex: bytes, i: nat) {
    && i < |ids| && Numeral(hex, HEX_DIGITS, ids[i]) && hex !in h0
    && forall j, other | 0 <= j < i && Numeral(other, HEX_DIGITS, ids[j]) :: other in h0
  }

  lemma {:induction false} UnusedIsFirst(ids: seq<uint32>, h0: Entries) returns (i: nat)
    requires Unused(ids, h0).Some?
    ensures FirstFree(ids, h0, Unused(ids, h0).value, i)
  {
    hide Hex, Numeral;
    HexSpelled(ids[0]);
    if Hex(ids[0]) !in h0 {
      i := 0;
    } else {
      i := UnusedIsFirst(ids[1..], h0);
      forall j, other | 0 <= j < i + 1 && Numeral(other, HEX_DIGITS, ids[j])
        ensures other in h0
      {
        if j == 0 {
          OneNumeral(other, Hex(ids[0]), HEX_DIGITS, ids[0]);
        } else {
          assert ids[1..][j - 1] == ids[j];
        }
      }
      i := i + 1;
    }
  }

  /** Picks the first unused candidate for the temp directory and makes it. */
  method MakeTempDir(fs: FileSystem, ids: seq<uint32>) returns (hex: Option<bytes>)
    requires fs.Valid()
    modifies fs
    ensures fs.Valid()
    ensures hex.Some? ==>
      && ProperName(hex.value) && hex.value !in Here(old(fs.root), fs.cwd) && hex.value != CONFIG_FILE
      && Unused(ids, Here(old(fs.root), fs.cwd)) == hex
      && (exists i :: FirstFree(ids, Here(old(fs.root), fs.cwd), hex.value, i))
      && Became(old(fs.root), fs.cwd, fs.root, Here(old(fs.root), fs.cwd)[hex.value := Dir(map[])])
    ensures NothingLost(old(fs.root), fs.cwd, fs.root)
    ensures CONFIG_FILE in Here(fs.root, fs.cwd) ==> CONFIG_FILE in Here(old(fs.root), fs.cwd)
    ensures fs.Reliable() ==> hex == Unused(ids, Here(old(fs.root), fs.cwd))
  {
    ghost var was, h0 := fs.root, Here(fs.root, fs.cwd);
    BecameSame(was, fs.cwd);
    var i := 0;
    var found := false;
    while i < |ids| && !found
      invariant 0 <= i <= |ids| && fs.root == was && fs.Valid()
      invariant forall j | 0 <= j < i :: Hex(ids[j]) in h0
      invariant found ==> i < |ids| && Hex(ids[i]) !in h0
      decreases |ids| - i, !found
    {
      BesideResolves(was, fs.cwd, fs.root, h0, Hex(ids[i]));
      var taken := fs.FileExists(Beside(Hex(ids[i])));
      if taken {
        i := i + 1;
      } else {
        found := true;
      }
    }
    UnusedAt(ids, h0, i);
    if !found {
      return None;
    }
    var name := Hex(ids[i]);
    HexIsNotConfig(ids[i]);
    TempDirSplit(name);
    TempMkdirs(h0, name);
    BesideResolves(was, fs.cwd, fs.root, h0, name);
    HexShort(ids[i], 8);
    ghost var first := UnusedIsFirst(ids, h0);
    var ok := Mkdirs.Mkdirs(fs, Beside(name));
    NothingLostBy(was, fs.cwd, fs.root, Here(fs.root, fs.cwd));
    hex := if ok then Some(name) else None;
  }

  lemma TempMkdirs(h0: Entries, hex: bytes)
    requires hex !in h0 && hex != CONFIG_FILE
    ensures MakeDirs(h0, [hex]) == Some(h0[hex := Dir(map[])])
    ensures forall h: Entries :: PartlyMade(h0, [hex], h) ==>
      (forall n | n in h0 :: n in h && h[n] == h0[n]) && (CONFIG_FILE in h ==> CONFIG_FILE in h0)
  {
    assert [hex][1..] == [];
    assert MakeDirs(map[], []) == Some(map[]) && Child(h0, hex) == Dir(map[]);
    forall h: Entries | PartlyMade(h0, [hex], h)
      ensures h == h0 || h == h0[hex := Dir(map[])]
    {
      var k: nat :| k <= 1 && MadeUpTo(h0, [hex], k, h);
      if k == 0 {
        assert [hex][..0] == [];
      } else {
        assert [hex][..1] == [hex];
      }
    }
  }

  lemma HexIsNotConfig(n: nat)
    ensures Hex(n) != CONFIG_FILE
  {
    var s := Hex(n);
    assert |s| > 1 ==> s[1] in s;
  }

  lemma {:induction false} HexShort(n: nat, k: nat)
    requires k > 0 && n < Power16(k)
    ensures |Hex(n)| <= k
  {
    if n >= 16 {
      HexShort(n / 16, k - 1);
    }
  }

  function Power16(k: nat): nat {
    if k == 0 then 1 else 16 * Power16(k - 1)
  }

  lemma DuringEnds(fs: FileSystem, was: Node, h0: Entries, hex: bytes, m: Entries, workingDirSet: bool,
      moved: seq<bytes>, dests: seq<bytes>, moves: map<bytes, bytes>, placed: Entries)
    requires Moving(fs, was, h0, hex, m, workingDirSet, moved, dests, moves, placed)
    requires DirAt(was, fs.cwd) && h0 == Here(was, fs.cwd) && hex !in h0 && hex != CONFIG_FILE
    ensures NothingLost(was, fs.cwd, fs.root)
    ensures !workingDirSet && CONFIG_FILE in Here(fs.root, fs.cwd) ==> CONFIG_FILE in h0
  {
    var h := During(h0, hex, m, moves, placed);
    forall n | n in h0
      ensures n in h && h[n] == h0[n]
    {
      assert n !in placed && n != hex;
    }
    NothingLostBy(was, fs.cwd, fs.root, h);
  }

  lemma DuringKeeps(fs: FileSystem, was: Node, h0: Entries, hex: bytes, m: Entries, workingDirSet: bool)
    requires Became(was, fs.cwd, fs.root, h0[hex := Dir(m)])
    requires DirAt(was, fs.cwd) && h0 == Here(was, fs.cwd) && hex !in h0 && hex != CONFIG_FILE
    ensures NothingLost(was, fs.cwd, fs.root)
    ensures !workingDirSet && CONFIG_FILE in Here(fs.root, fs.cwd) ==> CONFIG_FILE in h0
  {
    MovingStart(fs, was, h0, hex, m, workingDirSet);
    DuringEnds(fs, was, h0, hex, m, workingDirSet, [], [], map[], map[]);
  }

  lemma TempListed(was: Node, fs: FileSystem, h0: Entries, hex: bytes, m: Entries)
    requires fs.Valid() && ProperName(hex) && Became(was, fs.cwd, fs.root, h0[hex := Dir(m)])
    ensures Exists(fs.root, fs.cwd, Beside(hex)) && NulFree(Beside(hex))
    ensures DirAt(fs.root, Resolve(fs.root, fs.cwd, Beside(hex)).value)
    ensures EntriesAt(fs.root, Resolve(fs.root, fs.cwd, Beside(hex)).value) == m
    ensures forall f | f in m :: ProperName(f)
    ensures Distinct(fs.order(m.Keys)) && forall f :: f in fs.order(m.Keys) <==> f in m
  {
    var h := h0[hex := Dir(m)];
    BesideResolves(was, fs.cwd, fs.root, h, hex);
    BecameHere(was, fs.cwd, fs.root, h, [hex]);
    assert [hex][1..] == [];
    assert Get(Dir(h), [hex]) == Get(h[hex], []) == Some(Dir(m));
    ProperGet(fs.root, fs.cwd + [hex]);
    assert forall f :: f in fs.order(m.Keys) <==> f in (set c | c in fs.order(m.Keys));
  }

  /** When every entry has moved, the temp directory is empty and removing it leaves exactly the moved entries. */
  lemma AllMoved(fs: FileSystem, was: Node, h0: Entries, hex: bytes, m: Entries, workingDirSet: bool,
      moved: seq<bytes>, dests: seq<bytes>, moves: map<bytes, bytes>, placed: Entries)
    requires Moving(fs, was, h0, hex, m, workingDirSet, moved, dests, moves, placed) && ProperName(hex)
    requires DirAt(was, fs.cwd) && h0 == Here(was, fs.cwd) && hex !in h0 && hex != CONFIG_FILE
    requires forall f | f in m :: f in moves
    ensures hex !in placed && moves.Keys == m.Keys && fs.CanRmdir(fs.root, Beside(hex))
    ensures var now := Drop(fs.root, Resolve(fs.root, fs.cwd, Beside(hex)).value);
            && NothingLost(was, fs.cwd, now) && Here(now, fs.cwd) == h0 + placed
            && (!workingDirSet && CONFIG_FILE in h0 + placed ==> CONFIG_FILE in h0)
  {
    hide Walk, Split, Clean, Proper, Resolve, Put, Drop, CanPut, Get, Exists, Became, Relocated, During, Chosen, Paired;
    var h := During(h0, hex, m, moves, placed);
    DuringEmptied(h0, hex, m, moves, placed);
    EmptiedTemp(was, fs, fs.root, h, hex);
    NothingLostBy(was, fs.cwd, Drop(fs.root, fs.cwd + [hex]), h0 + placed);
  }

  lemma EmptiedTemp(was: Node, fs: FileSystem, now: Node, h: Entries, hex: bytes)
    requires Became(was, fs.cwd, now, h) && hex in h && h[hex] == Dir(map[]) && ProperName(hex)
    ensures Resolve(now, fs.cwd, Beside(hex)) == Some(fs.cwd + [hex])
    ensures fs.CanRmdir(now, Beside(hex))
    ensures CanPut(now, fs.cwd + [hex]) && Became(was, fs.cwd, Drop(now, fs.cwd + [hex]), h - {hex})
  {
    BesideResolves(was, fs.cwd, now, h, hex);
    BecameHere(was, fs.cwd, now, h, [hex]);
    assert [hex][1..] == [];
    assert Get(Dir(h), [hex]) == Get(h[hex], []) == Some(Dir(map[]));
    BecameBelow(was, fs.cwd, now, h, [hex], Dir(map[]));
    BecameHere(was, fs.cwd, Drop(now, fs.cwd + [hex]), h - {hex}, []);
  }

  lemma DuringEmptied(h0: Entries, hex: bytes, m: Entries, moves: map<bytes, bytes>, placed: Entries)
    requires Relocated(h0, m, moves, placed) && hex !in h0 && hex !in placed && forall f | f in m :: f in moves
    ensures moves.Keys == m.Keys
    ensures var h := During(h0, hex, m, moves, placed);
            hex in h && h[hex] == Dir(map[]) && h - {hex} == h0 + placed
    ensures forall n | n in h0 :: n in h0 + placed && (h0 + placed)[n] == h0[n]
  {
    assert m - moves.Keys == map[];
    var h := During(h0, hex, m, moves, placed);
    assert h.Keys == h0.Keys + placed.Keys + {hex};
    assert (h - {hex}).Keys == (h0 + placed).Keys;
    assert h - {hex} == h0 + placed;
  }

  /** All entries m were moved out, in the order files, to dests: each once, under a new name that was chosen by the
      rule, with its content; the temp directory's own name is not among them. */
  ghost predicate Settled(workingDirSet: bool, h0: Entries, hex: bytes, m: Entries, files: seq<bytes>,
      dests: seq<bytes>,
      moves: map<bytes, bytes>, placed: Entries)
  {
    && Relocated(h0, m, moves, placed) && moves.Keys == m.Keys && hex !in h0 && hex !in placed
    && (forall f | f in m :: ProperName(f)) && Distinct(files) && Elements(files) == m.Keys && Distinct(dests)
    && Chosen(workingDirSet, h0.Keys + {hex}, files, dests) && Paired(files, dests, moves, placed)
  }

  lemma AllSettled(fs: FileSystem, was: Node, h0: Entries, hex: bytes, m: Entries, workingDirSet: bool,
      files: seq<bytes>, dests: seq<bytes>, moves: map<bytes, bytes>, placed: Entries)
    requires Moving(fs, was, h0, hex, m, workingDirSet, Only(files, moves.Keys), dests, moves, placed)
    requires hex !in h0 && moves.Keys == m.Keys && Distinct(files)
    requires (forall f :: f in files <==> f in m) && forall f | f in m :: ProperName(f)
    ensures Settled(workingDirSet, h0, hex, m, files, dests, moves, placed)
  {
    hide Chosen, Only;
    OnlyAll(files, moves.Keys);
  }

  /** Nothing stands in the way of the received names: none is taken, by the temp directory neither, and none is the
      configuration file's where that must not be made. */
  predicate Undisturbed(workingDirSet: bool, h0: Entries, hex: bytes, m: Entries) {
    m.Keys !! h0.Keys && hex !in m && (workingDirSet || CONFIG_FILE !in m)
  }

  /** Every entry keeps its name if and only if nothing stands in the way, and then the working directory gains
      exactly what was received. */
  lemma NamesKept(workingDirSet: bool, h0: Entries, hex: bytes, m: Entries, files: seq<bytes>, dests: seq<bytes>,
      moves: map<bytes, bytes>, placed: Entries)
    requires Settled(workingDirSet, h0, hex, m, files, dests, moves, placed)
    ensures Undisturbed(workingDirSet, h0, hex, m) <==> forall f | f in m :: moves[f] == f
    ensures Undisturbed(workingDirSet, h0, hex, m) ==> placed == m
  {
    hide NameFor, Chosen, ProperName, Distinct;
    forall f | f in m
      ensures moves[f] == f ==> f !in h0 && f != hex && (workingDirSet || f != CONFIG_FILE)
    {
      NewNameFree(workingDirSet, h0, hex, m, files, dests, moves, placed, f);
    }
    if Undisturbed(workingDirSet, h0, hex, m) {
      KeptUpTo(workingDirSet, h0.Keys + {hex}, files, dests, |files|);
      assert dests[..|files|] == dests && files[..|files|] == files;
      assert placed.Keys == m.Keys;
      forall f | f in m
        ensures moves[f] == f
      {
        assert f in files;
      }
    }
  }

  lemma NewNameFree(workingDirSet: bool, h0: Entries, hex: bytes, m: Entries, files: seq<bytes>, dests: seq<bytes>,
      moves: map<bytes, bytes>, placed: Entries, f: bytes)
    requires Settled(workingDirSet, h0, hex, m, files, dests, moves, placed) && f in m
    ensures moves[f] !in h0 && moves[f] != hex && (!workingDirSet ==> moves[f] != CONFIG_FILE)
  {
    hide NameFor, Relocated, ProperName, Distinct;
    assert f in files;
    var i :| 0 <= i < |files| && files[i] == f;
    NeverConfig(workingDirSet, h0.Keys + {hex} + Elements(dests[..i]), f, dests[i]);
  }

  lemma {:induction false} KeptUpTo(workingDirSet: bool, taken: set<bytes>, files: seq<bytes>, dests: seq<bytes>,
      i: nat)
    requires Chosen(workingDirSet, taken, files, dests) && Distinct(files) && i <= |files|
    requires forall f | f in files :: f !in taken && (workingDirSet || f != CONFIG_FILE)
    ensures dests[..i] == files[..i]
  {
    hide NameFor, Elements;
    if i > 0 {
      KeptUpTo(workingDirSet, taken, files, dests, i - 1);
      assert files[i - 1] in files;
      OwnName(workingDirSet, taken, dests[..i - 1], files[i - 1], dests[i - 1]);
      assert dests[..i] == dests[..i - 1] + [dests[i - 1]] && files[..i] == files[..i - 1] + [files[i - 1]];
    }
  }

  lemma OwnName(workingDirSet: bool, taken: set<bytes>, before: seq<bytes>, f: bytes, g: bytes)
    requires NameFor(workingDirSet, taken + Elements(before), f, g)
    requires f !in taken && f !in before && (workingDirSet || f != CONFIG_FILE)
    ensures g == f
  {
  }

  /** list_dir on the temp directory, the moves, and the removal of the temp directory. */
  method MoveOut(fs: FileSystem, hex: bytes, workingDirSet: bool, ghost was: Node, ghost h0: Entries, ghost m: Entries)
    returns (listed: bool, status: bool, dests: seq<bytes>, ghost moves: map<bytes, bytes>, ghost placed: Entries)
    requires fs.Valid() && ProperName(hex) && DirAt(was, fs.cwd) && h0 == Here(was, fs.cwd) && hex !in h0
    requires hex != CONFIG_FILE
    requires Became(was, fs.cwd, fs.root, h0[hex := Dir(m)])
    modifies fs
    ensures fs.Valid() && NothingLost(was, fs.cwd, fs.root) && (!listed ==> !status)
    ensures !workingDirSet && CONFIG_FILE in Here(fs.root, fs.cwd) ==> CONFIG_FILE in h0
    ensures status ==>
      && Settled(workingDirSet, h0, hex, m, fs.order(m.Keys), dests, moves, placed)
      && Here(fs.root, fs.cwd) == h0 + placed && hex !in Here(fs.root, fs.cwd)
    ensures status ==> Placeable(workingDirSet, h0.Keys + {hex}, fs.order(m.Keys))
    ensures fs.Reliable() && Placeable(workingDirSet, h0.Keys + {hex}, fs.order(m.Keys)) ==> status
  {
    hide Put, Get, Proper, CanPut, Became, Roomy, Walk, Split, Clean, Relocated, Moving, NothingLost, During, Settled,
      Only, Placeable;
    status, dests, moves, placed := false, [], map[], map[];
    DuringKeeps(fs, was, h0, hex, m, workingDirSet);
    TempListed(was, fs, h0, hex, m);
    var files := fs.ListDir(Beside(hex));
    listed := files.Some?;
    if !listed {
      return;
    }
    ghost var moved;
    status, dests, moved, moves, placed := MoveAll(fs, hex, files.value, workingDirSet, was, h0, m);
    DuringEnds(fs, was, h0, hex, m, workingDirSet, moved, dests, moves, placed);
    if status {
      AllMoved(fs, was, h0, hex, m, workingDirSet, moved, dests, moves, placed);
      AllSettled(fs, was, h0, hex, m, workingDirSet, files.value, dests, moves, placed);
      status := fs.Rmdir(Beside(hex));
    }
  }

  /** A successful run, seen from the working directory: what the stream announced, every top-level entry exactly
      once under the name the rule gives it, and no temp directory. */
  ghost predicate Delivered(setup: Setup, v: nat, workingDirSet: bool, stream: bytes, used: nat, h0: Entries,
      h: Entries,
      hex: bytes, received: Entries, files: seq<bytes>, dests: seq<bytes>, moves: map<bytes, bytes>, placed: Entries)
  {
    && ProperName(hex)
    && GetSpec(setup, v, hex, stream) == Some(Received(received, used))
    && Settled(workingDirSet, h0, hex, received, files, dests, moves, placed)
    && h == h0 + placed && hex !in h
  }

  /** A candidate for the temp directory is free, and the stream is acceptable whichever candidate is taken. */
  ghost predicate Promising(setup: Setup, v: nat, ids: seq<uint32>, h0: Entries, stream: bytes) {
    && (exists id | id in ids :: Hex(id) !in h0)
    && forall id | id in ids ::
         GetSpec(setup, v, Hex(id), stream).Some? && Roomy(h0, GetSpec(setup, v, Hex(id), stream).value.entries)
  }

  /** When nothing fails outside, a run succeeds exactly then: some candidate for the temp directory is free, with the
      first such one the stream is acceptable, and there is a new name for every received entry in turn. */
  ghost predicate Receivable(setup: Setup, v: nat, workingDirSet: bool, ids: seq<uint32>,
      order: set<bytes> -> seq<bytes>,
      h0: Entries, stream: bytes)
  {
    && Unused(ids, h0).Some?
    && var hex := Unused(ids, h0).value;
    && GetSpec(setup, v, hex, stream).Some?
    && Placeable(workingDirSet, h0.Keys + {hex}, order(GetSpec(setup, v, hex, stream).value.entries.Keys))
  }

  /** Without an acceptable count or a free candidate nothing is received; with them, the entries decide. */
  lemma NotReceivable(setup: Setup, v: nat, workingDirSet: bool, ids: seq<uint32>, order: set<bytes> -> seq<bytes>,
      h0: Entries, stream: bytes)
    ensures
      |stream| < 8 || DecodeSize(stream[..8]) <= 0 || DecodeSize(stream[..8]) > setup.maxFileCount
      || Unused(ids, h0) == None
      ==> !Receivable(setup, v, workingDirSet, ids, order, h0, stream)
  {
    hide Unused, Placeable, ReceiveMany;
  }

  lemma ReceivableWith(setup: Setup, v: nat, workingDirSet: bool, ids: seq<uint32>, order: set<bytes> -> seq<bytes>,
      h0: Entries, stream: bytes, hex: bytes, count: nat)
    requires |stream| >= 8 && 0 < count == DecodeSize(stream[..8]) <= setup.maxFileCount && Unused(ids, h0) == Some(hex)
    ensures
      var r := ReceiveMany(setup, v, hex, map[], stream[8..], count);
      && (r.Some? ==> GetSpec(setup, v, hex, stream) == Some(Received(r.value.entries, 8 + r.value.length)))
      && (Receivable(setup, v, workingDirSet, ids, order, h0, stream) <==>
           r.Some? && Placeable(workingDirSet, h0.Keys + {hex}, order(r.value.entries.Keys)))
  {
    hide Unused, Placeable, ReceiveMany;
  }

  /** Short names and some room are enough. */
  lemma PromisingIsReceivable(setup: Setup, v: nat, workingDirSet: bool, ids: seq<uint32>,
      order: set<bytes> -> seq<bytes>, h0: Entries, stream: bytes)
    requires Enumerates(order) && Promising(setup, v, ids, h0, stream)
    ensures Receivable(setup, v, workingDirSet, ids, order, h0, stream)
  {
    hide GetSpec, Unused, Hex, Placeable, Roomy;
    UnusedIs(ids, h0);
    var hex := Unused(ids, h0).value;
    var id :| id in ids && Hex(id) == hex;
    var m := GetSpec(setup, v, hex, stream).value.entries;
    RoomyIsPlaceable(workingDirSet, h0, hex, m, order(m.Keys));
  }

  lemma RoomyIsPlaceable(workingDirSet: bool, h0: Entries, hex: bytes, m: Entries, files: seq<bytes>)
    requires Roomy(h0, m) && Distinct(files) && (set c | c in files) == m.Keys
    ensures Placeable(workingDirSet, h0.Keys + {hex}, files)
  {
    hide Chosen;
    DistinctSize(files);
    assert |h0.Keys + {hex}| <= |h0.Keys| + 1;
    var dests := NamesForAll(workingDirSet, h0.Keys + {hex}, files);
    assert forall f | f in files :: f in (set c | c in files);
  }

  lemma {:induction false} DistinctSize(files: seq<bytes>)
    requires Distinct(files)
    ensures |set c | c in files| == |files|
  {
    if files != [] {
      var front, f := files[..|files| - 1], files[|files| - 1];
      DistinctSize(front);
      assert (set c | c in files) == (set c | c in front) + {f};
    }
  }

  lemma {:induction false} NamesForAll(workingDirSet: bool, taken: set<bytes>, files: seq<bytes>)
    returns (dests: seq<bytes>)
    requires |taken| + |files| < MAX_TRIES
    ensures Chosen(workingDirSet, taken, files, dests)
    decreases |files|
  {
    hide NameFor, Chosen, Crowded;
    if files == [] {
      dests := [];
      ChosenNone(workingDirSet, taken);
    } else {
      var front, f := files[..|files| - 1], files[|files| - 1];
      dests := NamesForAll(workingDirSet, taken, front);
      ChosenLength(workingDirSet, taken, front, dests);
      ElementsSize(dests);
      assert |taken + Elements(dests)| <= |taken| + |Elements(dests)|;
      FewTaken(workingDirSet, taken + Elements(dests), f);
      OneName(workingDirSet, taken + Elements(dests), f);
      var g :| NameFor(workingDirSet, taken + Elements(dests), f, g);
      ChosenNext(workingDirSet, taken, front, dests, f, g);
      assert files == front + [f];
      dests := dests + [g];
    }
  }

  lemma ChosenNone(workingDirSet: bool, taken: set<bytes>)
    ensures Chosen(workingDirSet, taken, [], [])
  {
  }

  lemma ChosenLength(workingDirSet: bool, taken: set<bytes>, moved: seq<bytes>, dests: seq<bytes>)
    requires Chosen(workingDirSet, taken, moved, dests)
    ensures |dests| == |moved|
  {
  }

  lemma {:induction false} ElementsSize(s: seq<bytes>)
    ensures |Elements(s)| <= |s|
  {
    if s != [] {
      ElementsSize(s[..|s| - 1]);
      assert Elements(s) == Elements(s[..|s| - 1]) + {s[|s| - 1]};
    }
  }

  lemma NothingLostYet(was: Node, cwd: Path)
    requires DirAt(was, cwd)
    ensures NothingLost(was, cwd, was)
  {
    BecameSame(was, cwd);
  }

  lemma TempBegins(was: Node, cwd: Path, mid: Node, h0: Entries, hex: bytes)
    requires DirAt(was, cwd) && h0 == Here(was, cwd) && hex !in h0
    requires Became(was, cwd, mid, h0[hex := Dir(map[])])
    ensures HasTemp(mid, cwd, hex) && TempEntries(mid, cwd, hex) == map[]
  {
    BecameHere(was, cwd, mid, h0[hex := Dir(map[])], []);
  }

  lemma TempEnds(was: Node, cwd: Path, mid: Node, now: Node, h0: Entries, hex: bytes, m: Entries)
    requires DirAt(was, cwd) && h0 == Here(was, cwd) && hex !in h0 && hex != CONFIG_FILE
    requires Became(was, cwd, mid, h0[hex := Dir(map[])]) && TempIs(mid, cwd, now, hex, m)
    ensures Became(was, cwd, now, h0[hex := Dir(m)]) && NothingLost(was, cwd, now)
    ensures CONFIG_FILE in Here(now, cwd) ==> CONFIG_FILE in h0
  {
    var h := h0[hex := Dir(map[])];
    BecameHere(was, cwd, mid, h, []);
    BecameTrans(was, cwd, mid, h, now, h[hex := Dir(m)]);
    assert h[hex := Dir(m)] == h0[hex := Dir(m)];
    NothingLostBy(was, cwd, now, h0[hex := Dir(m)]);
  }

  /** The end of _get_files_dirs: before version 4 the socket is closed before the files are moved; from version 4 on
      the acknowledgement is sent once they are, and the socket is closed last. */
  method Finish(v: nat, socket: Socket, fs: FileSystem, hex: bytes, workingDirSet: bool,
      ghost was: Node, ghost h0: Entries, ghost m: Entries, ghost st: State)
    returns (status: bool, dests: seq<bytes>, ghost moves: map<bytes, bytes>, ghost placed: Entries)
    requires socket.Valid() && socket.valid && fs.Valid()
    requires ProperName(hex) && DirAt(was, fs.cwd) && h0 == Here(was, fs.cwd) && hex !in h0 && hex != CONFIG_FILE
    requires Became(was, fs.cwd, fs.root, h0[hex := Dir(m)])
    requires st == Count(v) ==> socket.at == AtEntry(v, 0)
    modifies socket, fs
    ensures socket.Valid() && fs.Valid() && socket.pos == old(socket.pos) && NothingLost(was, fs.cwd, fs.root)
    ensures !workingDirSet && CONFIG_FILE in Here(fs.root, fs.cwd) ==> CONFIG_FILE in h0
    ensures status ==> !socket.valid
    ensures status ==>
      && Settled(workingDirSet, h0, hex, m, fs.order(m.Keys), dests, moves, placed)
      && Here(fs.root, fs.cwd) == h0 + placed && hex !in Here(fs.root, fs.cwd)
    ensures status ==> Placeable(workingDirSet, h0.Keys + {hex}, fs.order(m.Keys))
    ensures fs.Reliable() && Placeable(workingDirSet, h0.Keys + {hex}, fs.order(m.Keys)) ==> status
    ensures socket.sent == old(socket.sent) || (socket.sent == old(socket.sent) + ACK && v >= 4 && status)
    ensures v >= 4 && status && Delivers(socket.schedule) ==> socket.sent == old(socket.sent) + ACK
    ensures GetFilesFrom(st, v, status, socket.valid, socket.at)
  {
    hide Put, Get, Proper, CanPut, Became, Roomy, Walk, Split, Clean, Settled, Placeable, NothingLost, Step, Drive,
      SentIn, ReceivedIn, Delivers, Enumerates, AtEntry, Distinct, Resolve, Exists;
    DetachSteps(socket.setup, v);
    if v < 4 {
      socket.CloseSocket();
    }
    var listed;
    listed, status, dests, moves, placed := MoveOut(fs, hex, workingDirSet, was, h0, m);
    CloseUp(v, socket, listed, status, st);
  }

  /** The socket side of the end: the result is noted, acknowledged when it should be, and the socket is closed. */
  method CloseUp(v: nat, socket: Socket, listed: bool, status: bool, ghost st: State)
    requires socket.Valid() && (socket.valid <==> v >= 4) && (status ==> listed)
    requires st == Count(v) ==> socket.at == Unpack(v)
    modifies socket
    ensures socket.Valid() && socket.pos == old(socket.pos) && (listed ==> !socket.valid)
    ensures socket.sent == old(socket.sent) || (socket.sent == old(socket.sent) + ACK && v >= 4 && status)
    ensures v >= 4 && status && Delivers(socket.schedule) ==> socket.sent == old(socket.sent) + ACK
    ensures GetFilesFrom(st, v, status, socket.valid, socket.at)
  {
    hide Step, Drive, SentIn, ReceivedIn, Delivers;
    UnpackSteps(socket.setup, v, status, AckEvent(true));
    socket.Note(status);
    if !listed {
      return;
    }
    Acknowledge(v, socket, v >= 4 && status, status);
  }

  /** The acknowledgement, when it is due, and the close; a socket that was closed before stays as it is. */
  method Acknowledge(v: nat, socket: Socket, due: bool, ghost status: bool)
    requires socket.Valid() && (due ==> socket.valid)
    modifies socket
    ensures socket.Valid() && socket.pos == old(socket.pos) && !socket.valid
    ensures socket.sent == old(socket.sent) || (socket.sent == old(socket.sent) + ACK && due)
    ensures due && Delivers(socket.schedule) ==> socket.sent == old(socket.sent) + ACK
    ensures due && old(socket.at) == AckOut(v) ==> socket.at == Over(v, true, false)
    ensures !due && old(socket.at) == Over(v, status, old(socket.valid)) ==> socket.at == Over(v, status, false)
  {
    hide Step, Drive, SentIn, ReceivedIn, Delivers;
    CloseStep(socket.setup, v, status);
    CloseStep(socket.setup, v, true);
    if due {
      var acked := SendAck(socket);
      UnpackSteps(socket.setup, v, true, AckEvent(acked));
    }
    socket.CloseSocket();
  }

  /** The rest of _get_files_dirs, once the temp directory is there. */
  method ReceiveInto(v: nat, socket: Socket, fs: FileSystem, hex: bytes, count: nat, workingDirSet: bool,
      ghost was: Node, ghost h0: Entries, ghost st: State)
    returns (status: bool, dests: seq<bytes>,
      ghost received: Entries, ghost moves: map<bytes, bytes>, ghost placed: Entries)
    requires socket.Valid() && socket.valid && fs.Valid() && v >= 1 && count > 0
    requires ProperName(hex) && DirAt(was, fs.cwd) && h0 == Here(was, fs.cwd) && hex !in h0 && hex != CONFIG_FILE
    requires Became(was, fs.cwd, fs.root, h0[hex := Dir(map[])])
    requires st == Count(v) ==> socket.at == NameSize(v, count)
    modifies socket, fs
    ensures socket.Valid() && fs.Valid() && NothingLost(was, fs.cwd, fs.root)
    ensures !workingDirSet && CONFIG_FILE in Here(fs.root, fs.cwd) ==> CONFIG_FILE in h0
    ensures status ==> old(socket.pos) <= socket.pos <= |socket.inbound| && !socket.valid
    ensures status ==>
      && ReceiveMany(socket.setup, v, hex, map[], socket.inbound[old(socket.pos)..], count)
         == Some(Received(received, socket.pos - old(socket.pos)))
      && Settled(workingDirSet, h0, hex, received, fs.order(received.Keys), dests, moves, placed)
      && Here(fs.root, fs.cwd) == h0 + placed && hex !in Here(fs.root, fs.cwd)
    ensures socket.sent == old(socket.sent) || (socket.sent == old(socket.sent) + ACK && v >= 4 && status)
    ensures v >= 4 && status && Delivers(socket.schedule) ==> socket.sent == old(socket.sent) + ACK
    ensures GetFilesFrom(st, v, status, socket.valid, socket.at)
    ensures Delivers(socket.schedule) && fs.Reliable() ==>
      var r := ReceiveMany(socket.setup, v, hex, map[], socket.inbound[old(socket.pos)..], count);
      (status <==> r.Some? && Placeable(workingDirSet, h0.Keys + {hex}, fs.order(r.value.entries.Keys)))
  {
    hide Put, Get, Proper, CanPut, Became, Walk, Split, Clean, Settled, Placeable, NothingLost, TempIs, ReceiveMany,
      Step, Drive, SentIn, ReceivedIn, Delivers, AllEntriesFrom, GetFilesFrom, MakeDirs, Resolve, Enumerates, Hex;
    status, dests, received, moves, placed := false, [], map[], map[], map[];
    ghost var mid, st' := fs.root, socket.at;
    TempBegins(was, fs.cwd, mid, h0, hex);
    var ok := SaveAll(v, socket, fs, hex, count);
    received := TempEntries(fs.root, fs.cwd, hex);
    TempEnds(was, fs.cwd, mid, fs.root, h0, hex, received);
    ReceivedSoFar(st, st', v, count, ok, socket.at);
    if !ok {
      return;
    }
    status, dests, moves, placed := Finish(v, socket, fs, hex, workingDirSet, was, h0, received, st);
  }

  /** The number of entries, when it is one of an acceptable transfer. */
  method ReadCount(v: nat, socket: Socket) returns (count: Option<nat>)
    requires socket.Valid() && socket.valid
    modifies socket
    ensures socket.Valid() && socket.valid && socket.sent == old(socket.sent) && old(socket.pos) <= socket.pos
    ensures
      var stream := socket.inbound[old(socket.pos)..];
      && (count.Some? ==>
            && |stream| >= 8 && count.value == DecodeSize(stream[..8]) && 0 < count.value <= socket.setup.maxFileCount
            && socket.pos == old(socket.pos) + 8 && stream[8..] == socket.inbound[socket.pos..])
      && (Delivers(socket.schedule) && count == None ==>
            |stream| < 8 || DecodeSize(stream[..8]) <= 0 || DecodeSize(stream[..8]) > socket.setup.maxFileCount)
    ensures count == None ==> GetFilesFrom(old(socket.at), v, false, true, socket.at)
    ensures count.Some? ==>
      && GetFilesFrom(old(socket.at), v, false, true, Step(socket.setup, socket.at, Local(false)))
      && (old(socket.at) == Count(v) ==> Step(socket.setup, socket.at, Local(true)) == NameSize(v, count.value))
  {
    hide Step, Drive, SentIn, ReceivedIn, Delivers, DecodeSize, GetFilesFrom;
    ghost var start, st := socket.pos, socket.at;
    var ok, size := socket.ReadSize();
    ghost var ev := if ok then Got(socket.inbound[start..socket.pos]) else ReadCut(socket.inbound[start..socket.pos]);
    CountSteps(socket.setup, st, v, ev);
    if ok {
      HeadAndTail(socket.inbound, start, 8);
    }
    count := if !ok || size <= 0 || size > socket.setup.maxFileCount then None else Some(size);
  }

  /** _get_files_dirs. For every stream, every transport and every refusal by the system: nothing that existed is
      lost or changed and the configuration file is not created; the only byte written, if any, is the version 4
      acknowledgement, and only on success; on success the received entries are all there, exactly once. */
  method GetFilesDirs(v: nat, socket: Socket, fs: FileSystem, ids: seq<uint32>, workingDirSet: bool)
    returns (status: bool, dests: seq<bytes>,
      ghost hex: bytes, ghost received: Entries, ghost moves: map<bytes, bytes>, ghost placed: Entries)
    requires socket.Valid() && socket.valid && fs.Valid() && v >= 1
    modifies socket, fs
    ensures socket.Valid() && fs.Valid() && NothingLost(old(fs.root), fs.cwd, fs.root)
    ensures !workingDirSet && CONFIG_FILE in Here(fs.root, fs.cwd) ==> CONFIG_FILE in Here(old(fs.root), fs.cwd)
    ensures status ==> old(socket.pos) <= socket.pos <= |socket.inbound| && !socket.valid
    ensures status ==> Unused(ids, Here(old(fs.root), fs.cwd)) == Some(hex)
    ensures status ==>
      Delivered(socket.setup, v, workingDirSet, socket.inbound[old(socket.pos)..], socket.pos - old(socket.pos),
                Here(old(fs.root), fs.cwd), Here(fs.root, fs.cwd), hex, received, fs.order(received.Keys), dests, moves,
                placed)
    ensures socket.sent == old(socket.sent) || (socket.sent == old(socket.sent) + ACK && v >= 4 && status)
    ensures v >= 4 && status && Delivers(socket.schedule) ==> socket.sent == old(socket.sent) + ACK
    ensures GetFilesFrom(old(socket.at), v, status, socket.valid, socket.at)
    ensures Delivers(socket.schedule) && fs.Reliable() ==>
      (status <==>
        Receivable(socket.setup, v, workingDirSet, ids, fs.order, Here(old(fs.root), fs.cwd),
                   socket.inbound[old(socket.pos)..]))
  {
    hide Put, Get, Proper, CanPut, Became, Walk, Split, Clean, Settled, Placeable, NothingLost, TempIs, Unused,
      ReceiveMany, Step, Drive, SentIn, ReceivedIn, Delivers, GetFilesFrom, MakeDirs, Resolve, Enumerates, Hex,
      GetSpec, Receivable, Delivered, ProperName, Here, DecodeSize, EncodeSize, NulFree, CStr, EntriesAt, Exists,
      HasTemp;
    ghost var was, h0, start, st := fs.root, Here(fs.root, fs.cwd), socket.pos, socket.at;
    ghost var stream := socket.inbound[start..];
    status, dests, hex, received, moves, placed := false, [], [], map[], map[], map[];
    NothingLostYet(was, fs.cwd);
    var count := ReadCount(v, socket);
    NotReceivable(socket.setup, v, workingDirSet, ids, fs.order, h0, stream);
    if count == None {
      return;
    }
    var temp := MakeTempDir(fs, ids);
    socket.Note(temp.Some?);
    if temp == None {
      return;
    }
    hex := temp.value;
    ReceivableWith(socket.setup, v, workingDirSet, ids, fs.order, h0, stream, hex, count.value);
    status, dests, received, moves, placed :=
      ReceiveInto(v, socket, fs, temp.value, count.value, workingDirSet, was, h0, st);
    if status {
      DeliveredNow(socket.setup, v, workingDirSet, stream, socket.pos - start, h0, Here(fs.root, fs.cwd), hex, received,
        fs.order(received.Keys), dests, moves, placed);
    }
  }

  lemma HeadAndTail(s: bytes, start: nat, n: nat)
    requires start + n <= |s|
    ensures s[start..][..n] == s[start..start + n] && s[start..][n..] == s[start + n..]
  {
  }

  lemma DeliveredNow(setup: Setup, v: nat, workingDirSet: bool, stream: bytes, used: nat, h0: Entries, h: Entries,
      hex: bytes, received: Entries, files: seq<bytes>, dests: seq<bytes>, moves: map<bytes, bytes>, placed: Entries)
    requires ProperName(hex) && GetSpec(setup, v, hex, stream) == Some(Received(received, used))
    requires Settled(workingDirSet, h0, hex, received, files, dests, moves, placed) && h == h0 + placed && hex !in h
    ensures Delivered(setup, v, workingDirSet, stream, used, h0, h, hex, received, files, dests, moves, placed)
  {
  }
}
