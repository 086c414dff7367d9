/** Moving the received top-level entries out of the temp directory: _check_and_rename and the loop around it
    (src/proto/methods.c). */
module Renames {
  import opened Bytes
  import opened Numerals
  import opened Session
  import opened Trees
  import opened Paths
  import opened FileSystems
  import opened Mkdirs
  import opened ReceivedNames

  const UNDERSCORE: byte := 95
  const MAX_TRIES := 999999

  /** "clipshare-desktop.conf" */
  const CONFIG_FILE: bytes :=
    [99, 108, 105, 112, 115, 104, 97, 114, 101, 45, 100, 101, 115, 107, 116, 111, 112, 46, 99, 111, 110, 102]

  function Decimal(n: nat): (s: bytes)
    ensures s != [] && (|s| == 1 <==> n < 10)
    ensures forall b | b in s :: 48 <= b <= 57
  {
    if n < 10 then [48 + n] else Decimal(n / 10) + [48 + n % 10]
  }

  lemma {:induction false} DecimalInjective(a: nat, b: nat)
    requires Decimal(a) == Decimal(b)
    ensures a == b
  {
    var s, t := Decimal(a), Decimal(b);
    assert s[|s| - 1] == t[|t| - 1];
    if a >= 10 && b >= 10 {
      assert s[..|s| - 1] == Decimal(a / 10) && t[..|t| - 1] == Decimal(b / 10);
      DecimalInjective(a / 10, b / 10);
    }
  }

  const DECIMAL := "0123456789"

  lemma DecimalDigit(d: nat)
    requires d < 10
    ensures DECIMAL[d] as int == 48 + d
  {
  }

  /** The text of a number is its decimal numeral. */
  lemma {:induction false} DecimalSpelled(n: nat)
    ensures Numeral(Decimal(n), DECIMAL, n) && (n > 0 ==> Decimal(n)[0] != 48)
  {
    hide Spells;
    DecimalDigit(0);
    DecimalDigit(n % 10);
    if n < 10 {
      SpellsNothing(DECIMAL);
      SpellsSnoc([], DECIMAL, 0, n, 48 + n);
      assert [] + [48 + n] == Decimal(n);
    } else {
      DecimalSpelled(n / 10);
      SpellsSnoc(Decimal(n / 10), DECIMAL, n / 10, n % 10, 48 + n % 10);
      assert n / 10 * 10 + n % 10 == n;
    }
  }

  /** g is the decimal numeral of n, an underscore, and f: "%i_%s". */
  ghost predicate Alternative(n: nat, f: bytes, g: bytes) {
    exists ds :: Numeral(ds, DECIMAL, n) && g == ds + Ascii("_") + f
  }

  lemma AlternativeIs(n: nat, f: bytes, g: bytes)
    ensures Alternative(n, f, g) <==> g == Numbered(n, f)
  {
    hide Numeral, Ascii;
    DecimalSpelled(n);
    assert Ascii("_") == [UNDERSCORE];
    forall ds | Numeral(ds, DECIMAL, n)
      ensures ds == Decimal(n)
    {
      OneNumeral(ds, Decimal(n), DECIMAL, n);
    }
  }

  /** The n-th alternative name: the number, an underscore, and the name. */
  function Numbered(n: nat, name: bytes): bytes {
    Decimal(n) + [UNDERSCORE] + name
  }

  function FirstChoice(workingDirSet: bool, name: bytes): bytes {
    if workingDirSet || name != CONFIG_FILE then name else Numbered(1, name)
  }

  lemma NumberedProper(n: nat, name: bytes)
    requires ProperName(name)
    ensures ProperName(Numbered(n, name)) && Numbered(n, name) != CONFIG_FILE
  {
    var s := Numbered(n, name);
    assert s[0] == Decimal(n)[0] && Decimal(n)[0] in Decimal(n);
    forall i | 0 <= i < |s|
      ensures s[i] != NUL && s[i] != SLASH
    {
      if i < |Decimal(n)| {
        assert s[i] == Decimal(n)[i] && Decimal(n)[i] in Decimal(n);
      } else if i > |Decimal(n)| {
        assert s[i] == name[i - |Decimal(n)| - 1];
      }
    }
  }

  lemma NumberedInjective(a: nat, b: nat, name: bytes)
    requires Numbered(a, name) == Numbered(b, name)
    ensures a == b
  {
    var s, t := Numbered(a, name), Numbered(b, name);
    assert Decimal(a) == s[..|s| - |name| - 1] && Decimal(b) == t[..|t| - |name| - 1];
    DecimalInjective(a, b);
  }

  /** The alternatives with a number below n are taken. */
  ghost predicate TakenBelow(taken: set<bytes>, name: bytes, n: nat) {
    forall k: nat | 1 <= k < n :: Numbered(k, name) in taken
  }

  /** The first choice and every alternative are taken. */
  ghost predicate Crowded(workingDirSet: bool, taken: set<bytes>, name: bytes) {
    FirstChoice(workingDirSet, name) in taken && TakenBelow(taken, name, MAX_TRIES + 1)
  }

  lemma {:induction false} ManyNames(taken: set<bytes>, name: bytes, n: nat)
    requires TakenBelow(taken, name, n + 1)
    ensures |taken| >= n
    decreases n
  {
    if n > 0 {
      var c := Numbered(n, name);
      forall k: nat | 1 <= k < n
        ensures Numbered(k, name) in taken - {c}
      {
        if Numbered(k, name) == c {
          NumberedInjective(k, n, name);
        }
      }
      ManyNames(taken - {c}, name, n - 1);
    }
  }

  /** "./" and a name in the working directory */
  function Beside(g: bytes): bytes {
    [DOT, SLASH] + g
  }

  /** The path of a received entry in the temp directory. */
  function Inside(hex: bytes, f: bytes): bytes {
    TempDir(hex) + [SLASH] + f
  }

  lemma BesideResolves(was: Node, cwd: Path, now: Node, h: Entries, g: bytes)
    requires Became(was, cwd, now, h) && ProperName(g)
    ensures Resolve(now, cwd, Beside(g)) == Some(cwd + [g]) && (Exists(now, cwd, Beside(g)) <==> g in h)
    ensures NulFree(Beside(g))
  {
    TempDirSplit(g);
    assert [DOT_NAME, g] == [DOT_NAME] + [g] && Clean([DOT_NAME]) == [];
    ResolveDown(was, cwd, now, h, Beside(g), [DOT_NAME], g);
    assert [] + [g] == [g];
  }

  lemma InsideResolves(was: Node, cwd: Path, now: Node, h: Entries, hex: bytes, f: bytes)
    requires Became(was, cwd, now, h) && ProperName(hex) && ProperName(f)
    requires hex in h && h[hex].Dir?
    ensures Resolve(now, cwd, Inside(hex, f)) == Some(cwd + [hex, f])
    ensures Exists(now, cwd, Inside(hex, f)) <==> f in h[hex].entries
    ensures f in h[hex].entries ==> Get(now, cwd + [hex, f]) == Some(h[hex].entries[f])
    ensures NulFree(Inside(hex, f))
  {
    TempDirSplit(hex);
    SplitCat(TempDir(hex), f);
    SplitWhole(f);
    assert [hex] + [f] == [hex, f] && [hex, f][1..] == [f] && [f][1..] == [] && [hex][1..] == [];
    assert Get(Dir(h), [hex]) == Some(h[hex]);
    assert Get(Dir(h), [hex, f]) == Get(h[hex], [f]);
    assert f in h[hex].entries ==> Get(h[hex], [f]) == Get(h[hex].entries[f], []) == Some(h[hex].entries[f]);
    assert Split(Inside(hex, f)) == [DOT_NAME, hex] + [f];
    assert DirAt(Dir(h), [hex]);
    ResolveDown(was, cwd, now, h, Inside(hex, f), [DOT_NAME, hex], f);
    BecameHere(was, cwd, now, h, [hex, f]);
  }

  /** The working directory after one entry was moved out. */
  function MovedOut(h: Entries, hex: bytes, f: bytes, g: bytes): Entries
    requires hex in h && h[hex].Dir? && f in h[hex].entries
  {
    h[hex := Dir(h[hex].entries - {f})][g := h[hex].entries[f]]
  }

  lemma RenameMoves(was: Node, fs: FileSystem, now: Node, h: Entries, hex: bytes, f: bytes, g: bytes)
    requires Became(was, fs.cwd, now, h) && ProperName(hex) && ProperName(f) && ProperName(g)
    requires hex in h && h[hex].Dir? && f in h[hex].entries && g !in h
    ensures fs.CanMove(now, Inside(hex, f), Beside(g))
    ensures Became(was, fs.cwd, fs.Moved(now, Inside(hex, f), Beside(g)), MovedOut(h, hex, f, g))
  {
    var cwd, p, q := fs.cwd, fs.cwd + [hex, f], fs.cwd + [g];
    var x := h[hex].entries[f];
    InsideResolves(was, cwd, now, h, hex, f);
    BesideResolves(was, cwd, now, h, g);
    assert [hex, f][1..] == [f];
    BecameBelow(was, cwd, now, h, [hex, f], x);
    var h' := h[hex := Dir(h[hex].entries - {f})];
    assert Drop(Dir(h), [hex, f]) == Dir(h');
    var dropped := Drop(now, p);
    BecameBelow(was, cwd, dropped, h', [g], x);
    BecameHere(was, cwd, dropped, h', [g]);
    assert Put(Dir(h'), [g], x) == Dir(h'[g := x]);
    BecameHere(was, cwd, Put(dropped, q, x), h'[g := x], []);
    assert Get(now, q) == None by { BecameHere(was, cwd, now, h, [g]); }
  }

  /** The n-th alternative is the one with the least free number. */
  ghost predicate LeastFree(taken: set<bytes>, f: bytes, n: nat) {
    1 <= n <= MAX_TRIES && TakenBelow(taken, f, n) && Numbered(n, f) !in taken
  }

  /** The name an entry gets: the first choice when that is free, otherwise the alternative with the least free
      number. */
  ghost predicate NameFor(workingDirSet: bool, taken: set<bytes>, f: bytes, g: bytes) {
    if FirstChoice(workingDirSet, f) !in taken then g == FirstChoice(workingDirSet, f)
    else exists n: nat :: LeastFree(taken, f, n) && g == Numbered(n, f)
  }

  /** There is one such name at most, and there is none exactly when all are taken. */
  lemma OneName(workingDirSet: bool, taken: set<bytes>, f: bytes)
    ensures forall g, g' :: NameFor(workingDirSet, taken, f, g) && NameFor(workingDirSet, taken, f, g') ==> g == g'
    ensures (exists g :: NameFor(workingDirSet, taken, f, g)) <==> !Crowded(workingDirSet, taken, f)
  {
    forall n: nat, n': nat | LeastFree(taken, f, n) && LeastFree(taken, f, n')
      ensures n == n'
    {
      assert n < n' ==> Numbered(n, f) in taken;
      assert n' < n ==> Numbered(n', f) in taken;
    }
    if !Crowded(workingDirSet, taken, f) {
      if FirstChoice(workingDirSet, f) in taken {
        LeastExists(taken, f, MAX_TRIES);
        var n: nat :| LeastFree(taken, f, n);
        assert NameFor(workingDirSet, taken, f, Numbered(n, f));
      } else {
        assert NameFor(workingDirSet, taken, f, FirstChoice(workingDirSet, f));
      }
    }
  }

  lemma {:induction false} LeastExists(taken: set<bytes>, f: bytes, n: nat)
    requires n <= MAX_TRIES && !TakenBelow(taken, f, n + 1)
    ensures exists k: nat :: LeastFree(taken, f, k)
    decreases n
  {
    if TakenBelow(taken, f, n) {
      assert LeastFree(taken, f, n);
    } else {
      LeastExists(taken, f, n - 1);
    }
  }

  /** The rule, spelled out: the name itself, unless it is the configuration file's where that must not be made and
      becomes "1_clipshare-desktop.conf"; and when that is taken, the alternative with the least number that is free,
      up to 999999. */
  ghost predicate NameSpelled(workingDirSet: bool, taken: set<bytes>, f: bytes, g: bytes) {
    var first := if workingDirSet || f != Ascii("clipshare-desktop.conf") then f else Ascii("1_") + f;
    if first !in taken then g == first
    else
      exists n: nat :: LeastSpelled(taken, f, n, g)
  }

  lemma ConfigSpelled()
    ensures CONFIG_FILE == Ascii("clipshare-desktop.conf")
  {
    hide Ascii;
  }

  lemma FirstSpelled(f: bytes)
    ensures Numbered(1, f) == Ascii("1_") + f
  {
    hide Ascii;
    assert Decimal(1) == [49];
    assert Ascii("1_") == [49, UNDERSCORE];
  }

  /** It is the rule by which names are chosen. */
  lemma NameRule(workingDirSet: bool, taken: set<bytes>, f: bytes, g: bytes)
    ensures NameFor(workingDirSet, taken, f, g) <==> NameSpelled(workingDirSet, taken, f, g)
  {
    hide Numbered, Alternative, Ascii, TakenBelow;
    ConfigSpelled();
    FirstSpelled(f);
    forall n: nat
      ensures LeastFree(taken, f, n) && g == Numbered(n, f) <==> LeastSpelled(taken, f, n, g)
    {
      LeastRule(taken, f, n, g);
    }
  }

  /** g is the alternative with the number n, which is the least that is free. */
  ghost predicate LeastSpelled(taken: set<bytes>, f: bytes, n: nat, g: bytes) {
    && 1 <= n <= 999999 && Alternative(n, f, g) && g !in taken
    && forall k: nat, other | 1 <= k < n && Alternative(k, f, other) :: other in taken
  }

  lemma LeastRule(taken: set<bytes>, f: bytes, n: nat, g: bytes)
    ensures LeastFree(taken, f, n) && g == Numbered(n, f) <==> LeastSpelled(taken, f, n, g)
  {
    hide Numbered, Alternative;
    AlternativeIs(n, f, g);
    forall k: nat, other
      ensures Alternative(k, f, other) <==> other == Numbered(k, f)
    {
      AlternativeIs(k, f, other);
    }
    if LeastSpelled(taken, f, n, g) {
      forall k: nat | 1 <= k < n
        ensures Numbered(k, f) in taken
      {
        assert Alternative(k, f, Numbered(k, f));
      }
    }
  }

  lemma NeverConfig(workingDirSet: bool, taken: set<bytes>, f: bytes, g: bytes)
    requires NameFor(workingDirSet, taken, f, g) && ProperName(f)
    ensures ProperName(g) && (!workingDirSet ==> g != CONFIG_FILE) && g !in taken
  {
    forall k: nat
      ensures ProperName(Numbered(k, f)) && Numbered(k, f) != CONFIG_FILE
    {
      NumberedProper(k, f);
    }
  }

  /** The search of _check_and_rename for an unused name. */
  method FreeName(fs: FileSystem, f: bytes, workingDirSet: bool, ghost h: Entries) returns (g: Option<bytes>)
    requires fs.Valid() && ProperName(f) && Became(fs.root, fs.cwd, fs.root, h)
    ensures g.Some? ==> NameFor(workingDirSet, h.Keys, f, g.value) && ProperName(g.value)
    ensures g.Some? ==> NameSpelled(workingDirSet, h.Keys, f, g.value)
    ensures g == None <==> Crowded(workingDirSet, h.Keys, f)
  {
    hide Became, ProperName, Resolve, Exists, Numbered, NulFree, TakenBelow, NameSpelled;
    var name := FirstChoice(workingDirSet, f);
    NumberedProper(1, f);
    NoneBelow(h.Keys, f);
    BesideResolves(fs.root, fs.cwd, fs.root, h, name);
    var exists_ := fs.FileExists(Beside(name));
    var n := 1;
    while exists_
      invariant 1 <= n <= MAX_TRIES + 1
      invariant ProperName(name) && (exists_ <==> name in h)
      invariant TakenBelow(h.Keys, f, n - 1) && (exists_ ==> TakenBelow(h.Keys, f, n))
      invariant name == if n == 1 then FirstChoice(workingDirSet, f) else Numbered(n - 1, f)
      invariant n > 1 ==> FirstChoice(workingDirSet, f) in h
      decreases MAX_TRIES + 1 - n
    {
      if n > MAX_TRIES {
        return None;
      }
      name := Numbered(n, f);
      NumberedProper(n, f);
      BesideResolves(fs.root, fs.cwd, fs.root, h, name);
      exists_ := fs.FileExists(Beside(name));
      OneMoreTaken(h.Keys, f, n);
      n := n + 1;
    }
    assert n > 1 ==> LeastFree(h.Keys, f, n - 1);
    FreeIsNotCrowded(workingDirSet, h.Keys, f, n - 1);
    NameRule(workingDirSet, h.Keys, f, name);
    return Some(name);
  }

  lemma NoneBelow(taken: set<bytes>, f: bytes)
    ensures TakenBelow(taken, f, 0) && TakenBelow(taken, f, 1)
  {
  }

  lemma OneMoreTaken(taken: set<bytes>, f: bytes, n: nat)
    ensures TakenBelow(taken, f, n) && Numbered(n, f) in taken ==> TakenBelow(taken, f, n + 1)
  {
    hide Numbered;
  }

  lemma FreeIsNotCrowded(workingDirSet: bool, taken: set<bytes>, f: bytes, n: nat)
    ensures FirstChoice(workingDirSet, f) !in taken || LeastFree(taken, f, n) ==> !Crowded(workingDirSet, taken, f)
  {
    hide Numbered;
  }

  /** _check_and_rename: the entry moves to its new name, and nothing else changes; otherwise nothing does. */
  method CheckAndRename(fs: FileSystem, f: bytes, hex: bytes, workingDirSet: bool, ghost was: Node, ghost h: Entries)
    returns (g: Option<bytes>)
    requires fs.Valid() && Became(was, fs.cwd, fs.root, h)
    requires ProperName(hex) && hex in h && h[hex].Dir? && f in h[hex].entries && ProperName(f)
    modifies fs
    ensures fs.Valid()
    ensures g.Some? ==>
      && NameFor(workingDirSet, h.Keys, f, g.value)
      && Became(was, fs.cwd, fs.root, MovedOut(h, hex, f, g.value))
    ensures g == None ==> Became(was, fs.cwd, fs.root, h)
    ensures g.Some? ==> |f| <= MAX_FILE_NAME_LENGTH && !Crowded(workingDirSet, h.Keys, f)
    ensures fs.Reliable() ==> (g.Some? <==> |f| <= MAX_FILE_NAME_LENGTH && !Crowded(workingDirSet, h.Keys, f))
  {
    if |f| > MAX_FILE_NAME_LENGTH {
      return None;
    }
    BecameHere(was, fs.cwd, fs.root, h, []);
    BecameSame(fs.root, fs.cwd);
    g := FreeName(fs, f, workingDirSet, h);
    if g == None {
      return;
    }
    InsideResolves(was, fs.cwd, fs.root, h, hex, f);
    BesideResolves(was, fs.cwd, fs.root, h, g.value);
    RenameMoves(was, fs, fs.root, h, hex, f, g.value);
    var renamed := fs.Rename(Inside(hex, f), Beside(g.value));
    if !renamed {
      return None;
    }
  }
}
