/** Receiving the entries of a transfer into the temp directory: _validate_and_save and save_file
    (src/proto/methods.c). */
module ReceiveFiles {
  import opened Bytes
  import opened Wire
  import opened Session
  import opened NetUtils
  import opened Trees
  import opened Paths
  import opened FileSystems
  import opened Mkdirs
  import opened ReceivedNames
  import opened SaveFiles
  import opened TempTrees

  /** The directory part of a received path is short enough for mkdirs, or there already. */
  predicate ParentFits(hex: bytes, m: Entries, n: bytes) {
    |ParentPath(hex, n)| <= MAX_PATH || DirAt(Dir(m), Clean(Front(Within(n))))
  }

  /** The entries of the temp directory, and how much of the stream was used. */
  datatype Received = Received(entries: Entries, length: nat)

  /** What a name and the stream after it add to the temp directory's entries; None when the entry is refused. */
  function StoreOne(setup: Setup, v: nat, hex: bytes, m: Entries, name: bytes, s: bytes): Option<Received>
    requires ProperName(hex) && name != []
  {
    var n := CleanedName(v, name);
    var parsed := ParsePayload(setup, v, s);
    if PlaceFor(setup.utf8, v, hex, name) == None || parsed == None then None
    else if v > 1 && !ParentFits(hex, m, n) then None
    else if parsed.value.leaf.Dir? && |NewPath(hex, n)| > MAX_PATH then None
    else
      Confinement(setup.utf8, v, hex, name);
      match Insert(m, PlaceFor(setup.utf8, v, hex, name).value, parsed.value.leaf)
      case None => None
      case Some(m') => Some(Received(m', parsed.value.length))
  }

  /** One entry of a transfer: name length, name, size, data. */
  function ReceiveOne(setup: Setup, v: nat, hex: bytes, m: Entries, s: bytes): Option<Received>
    requires ProperName(hex)
  {
    if |s| < 8 then None
    else
      var size := DecodeSize(s[..8]);
      if size <= 0 || size > MAX_FILE_NAME_LENGTH || |s| < 8 + size then None
      else
        match StoreOne(setup, v, hex, m, s[8..8 + size], s[8 + size..])
        case None => None
        case Some(r) => Some(Received(r.entries, 8 + size + r.length))
  }

  /** count entries, one after the other. */
  function ReceiveMany(setup: Setup, v: nat, hex: bytes, m: Entries, s: bytes, count: nat): Option<Received>
    requires ProperName(hex)
    decreases count
  {
    if count == 0 then Some(Received(m, 0))
    else
      match ReceiveOne(setup, v, hex, m, s)
      case None => None
      case Some(r) =>
        if r.length > |s| then None
        else
          match ReceiveMany(setup, v, hex, r.entries, s[r.length..], count - 1)
          case None => None
          case Some(rest) => Some(Received(rest.entries, r.length + rest.length))
  }

  lemma PathShape(hex: bytes, n: bytes)
    requires ProperName(hex) && NulFree(n)
    ensures Split(NewPath(hex, n)) == ([DOT_NAME, hex] + Front(Within(n))) + [Last(Within(n))]
    ensures NewPath(hex, n)[0] == DOT && NulFree(NewPath(hex, n))
  {
    hide Split, ProperName, NulFree, TempDir;
    NewPathSplit(hex, n);
    TempDirSplit(hex);
    LastApart([DOT_NAME, hex], Within(n));
    NewPathClean(hex, n);
  }

  lemma LastApart(a: seq<bytes>, cs: seq<bytes>)
    requires cs != []
    ensures a + cs == (a + Front(cs)) + [Last(cs)]
  {
  }

  lemma NewPathClean(hex: bytes, n: bytes)
    requires NulFree(TempDir(hex)) && NulFree(n)
    ensures NewPath(hex, n)[0] == DOT && NulFree(NewPath(hex, n))
  {
  }

  lemma ParentShape(hex: bytes, n: bytes)
    requires ProperName(hex) && NulFree(n) && !HasBadPath(NewPath(hex, n))
    ensures var parent := ParentPath(hex, n);
            Downward(parent) && parent[0] == DOT && Split(parent) == [DOT_NAME, hex] + Front(Within(n))
  {
    hide Split, HasBadPath, NulFree;
    var s, i := NewPath(hex, n), AfterLastSlash(NewPath(hex, n));
    PathShape(hex, n);
    FrontIsTame(hex, n);
    SplitLast(s);
    assert i > 0 && Split(s) == Split(s[..i - 1]) + [s[i..]];
    assert Front(Split(s)) == Split(s[..i - 1]);
    PrefixOfPath(s, i - 1);
  }

  lemma PrefixOfPath(s: bytes, i: nat)
    requires i < |s| && s[0] == DOT && s[i] == SLASH && NulFree(s)
    ensures s[..i] != [] && s[..i][0] == DOT && NulFree(s[..i])
  {
  }

  /** _make_directories: mkdirs on everything before the last separator. */
  method MakeDirectories(fs: FileSystem, ghost hex: bytes, ghost n: bytes, path: bytes) returns (ok: bool)
    requires fs.Valid() && HasTemp(fs.root, fs.cwd, hex) && ProperName(hex) && NulFree(n)
    requires path == NewPath(hex, n) && !HasBadPath(path)
    modifies fs
    ensures fs.Valid() && HasTemp(fs.root, fs.cwd, hex)
    ensures TempIs(old(fs.root), fs.cwd, fs.root, hex, TempEntries(fs.root, fs.cwd, hex))
    ensures
      PartlyMade(TempEntries(old(fs.root), fs.cwd, hex), Clean(Front(Within(n))), TempEntries(fs.root, fs.cwd, hex))
    ensures ok ==>
      && ParentFits(hex, TempEntries(old(fs.root), fs.cwd, hex), n)
      && MakeDirs(TempEntries(old(fs.root), fs.cwd, hex), Clean(Front(Within(n))))
         == Some(TempEntries(fs.root, fs.cwd, hex))
    ensures fs.Reliable() ==>
      (ok <==> ParentFits(hex, TempEntries(old(fs.root), fs.cwd, hex), n)
               && MakeDirs(TempEntries(old(fs.root), fs.cwd, hex), Clean(Front(Within(n)))).Some?)
  {
    ghost var was, m, q := fs.root, TempEntries(fs.root, fs.cwd, hex), Clean(Front(Within(n)));
    ParentShape(hex, n);
    var baseName := AfterLastSlash(path);
    var parent := if baseName == 0 then path else path[..baseName - 1];
    ParentExists(was, fs.cwd, hex, parent, Front(Within(n)));
    ok := Mkdirs.Mkdirs(fs, parent);
    TempMade(was, fs.cwd, fs.root, hex, q);
  }

  /** _validate_and_save. Whatever the name is, nothing changes outside the temp directory; on success its entries
      grew by exactly the announced leaf, and without failures from outside it succeeds exactly when the
      specification accepts the entry. A failure leaves no partial file: at most directories on the way to the place
      were made. */
  method ValidateAndSave(v: nat, socket: Socket, fs: FileSystem, hex: bytes, fileName: array<byte>, nameLength: nat)
    returns (ok: bool)
    requires socket.Valid() && socket.valid && fs.Valid()
    requires HasTemp(fs.root, fs.cwd, hex) && ProperName(hex) && v >= 1
    requires 0 < nameLength && fileName.Length == nameLength + 1 && fileName[nameLength] == NUL
    modifies socket, fs, fileName
    ensures socket.Valid() && socket.valid && socket.sent == old(socket.sent) && old(socket.pos) <= socket.pos
    ensures fs.Valid() && HasTemp(fs.root, fs.cwd, hex)
    ensures TempIs(old(fs.root), fs.cwd, fs.root, hex, TempEntries(fs.root, fs.cwd, hex))
    ensures ok ==>
      StoreOne(socket.setup, v, hex, TempEntries(old(fs.root), fs.cwd, hex), old(fileName[..nameLength]),
               socket.inbound[old(socket.pos)..])
      == Some(Received(TempEntries(fs.root, fs.cwd, hex), socket.pos - old(socket.pos)))
    ensures Delivers(socket.schedule) && fs.Reliable() ==>
      (ok <==> StoreOne(socket.setup, v, hex, TempEntries(old(fs.root), fs.cwd, hex), old(fileName[..nameLength]),
                        socket.inbound[old(socket.pos)..]).Some?)
    ensures fs.Reliable() && !ok ==>
      PartlyMade(TempEntries(old(fs.root), fs.cwd, hex),
                 Clean(Front(Within(CleanedName(v, old(fileName[..nameLength]))))), TempEntries(fs.root, fs.cwd, hex))
    ensures CheckFrom(old(socket.at), v, ok, socket.at)
  {
    hide Step, Drive, SentIn, ReceivedIn, CheckFrom, Proper, Put, Get, StoreOne, StoreInParent, Delivers, Enumerates,
      Became, CStr, HasBadPath, MakeDirs, Split, Clean, PartlyMade;
    ghost var name, was, m0 := fileName[..nameLength], fs.root, TempEntries(fs.root, fs.cwd, hex);
    ghost var stream := socket.inbound[socket.pos..];
    TempSame(was, fs.cwd, hex);
    var n := CheckName(v, hex, fileName, nameLength, socket.setup.utf8);
    if n == None {
      StoreOneRefused(socket.setup, v, hex, m0, name, stream);
      NothingMade(m0, Clean(Front(Within(CleanedName(v, name)))));
      CheckSteps(socket.setup, socket.at, v, false);
      socket.Note(false);
      return false;
    }
    ok := SaveAccepted(v, socket, fs, hex, n.value, name);
  }

  /** The rest of _validate_and_save, for a name that passed the checks. */
  method SaveAccepted(v: nat, socket: Socket, fs: FileSystem, hex: bytes, n: bytes, ghost name: bytes)
    returns (ok: bool)
    requires socket.Valid() && socket.valid && fs.Valid()
    requires HasTemp(fs.root, fs.cwd, hex) && ProperName(hex) && v >= 1
    requires name != [] && n == CleanedName(v, name)
    requires ValidName(socket.setup.utf8, name) && !HasBadPath(NewPath(hex, n))
    modifies socket, fs
    ensures socket.Valid() && socket.valid && socket.sent == old(socket.sent) && old(socket.pos) <= socket.pos
    ensures fs.Valid() && HasTemp(fs.root, fs.cwd, hex)
    ensures TempIs(old(fs.root), fs.cwd, fs.root, hex, TempEntries(fs.root, fs.cwd, hex))
    ensures ok ==>
      StoreOne(socket.setup, v, hex, TempEntries(old(fs.root), fs.cwd, hex), name, socket.inbound[old(socket.pos)..])
      == Some(Received(TempEntries(fs.root, fs.cwd, hex), socket.pos - old(socket.pos)))
    ensures Delivers(socket.schedule) && fs.Reliable() ==>
      (ok <==> StoreOne(socket.setup, v, hex, TempEntries(old(fs.root), fs.cwd, hex), name,
                        socket.inbound[old(socket.pos)..]).Some?)
    ensures fs.Reliable() && !ok ==>
      PartlyMade(TempEntries(old(fs.root), fs.cwd, hex), Clean(Front(Within(n))), TempEntries(fs.root, fs.cwd, hex))
    ensures CheckFrom(old(socket.at), v, ok, socket.at)
  {
    hide Step, Drive, SentIn, ReceivedIn, CheckFrom, Proper, Put, Get, StoreOne, StoreInParent, Delivers, Enumerates,
      Became, CStr, HasBadPath, MakeDirs, Split, Clean, ValidName, CleanedName, ProperName, ParentFits, PartlyMade;
    ghost var was, m0 := fs.root, TempEntries(fs.root, fs.cwd, hex);
    ghost var stream := socket.inbound[socket.pos..];
    StoreOneUnfolds(socket.setup, v, hex, m0, name, stream);
    ok := PrepareParents(v, fs, hex, n);
    if !ok {
      CheckSteps(socket.setup, socket.at, v, false);
      socket.Note(false);
      return;
    }
    ok := SaveNew(v, socket, fs, hex, n, m0, was);
  }

  /** From version 2 on the parent directories are made; a version 1 name has none. */
  method PrepareParents(v: nat, fs: FileSystem, hex: bytes, n: bytes) returns (ok: bool)
    requires fs.Valid() && HasTemp(fs.root, fs.cwd, hex) && ProperName(hex) && NulFree(n)
    requires v >= 1 && !HasBadPath(NewPath(hex, n)) && (v == 1 ==> Clean(Front(Within(n))) == [])
    modifies fs
    ensures fs.Valid() && HasTemp(fs.root, fs.cwd, hex)
    ensures TempIs(old(fs.root), fs.cwd, fs.root, hex, TempEntries(fs.root, fs.cwd, hex))
    ensures
      PartlyMade(TempEntries(old(fs.root), fs.cwd, hex), Clean(Front(Within(n))), TempEntries(fs.root, fs.cwd, hex))
    ensures ok ==>
      && (v > 1 ==> ParentFits(hex, TempEntries(old(fs.root), fs.cwd, hex), n))
      && MakeDirs(TempEntries(old(fs.root), fs.cwd, hex), Clean(Front(Within(n))))
         == Some(TempEntries(fs.root, fs.cwd, hex))
    ensures fs.Reliable() ==>
      (ok <==> (v > 1 ==> ParentFits(hex, TempEntries(old(fs.root), fs.cwd, hex), n))
               && MakeDirs(TempEntries(old(fs.root), fs.cwd, hex), Clean(Front(Within(n)))).Some?)
  {
    ok := true;
    TempSame(fs.root, fs.cwd, hex);
    MakeDirsNothing(TempEntries(fs.root, fs.cwd, hex));
    NothingMade(TempEntries(fs.root, fs.cwd, hex), Clean(Front(Within(n))));
    if v > 1 {
      ok := MakeDirectories(fs, hex, n, NewPath(hex, n));
    }
  }

  lemma MakeDirsNothing(m: Entries)
    ensures MakeDirs(m, []) == Some(m)
  {
  }

  lemma NothingMade(m: Entries, p: Path)
    ensures PartlyMade(m, p, m)
  {
    assert MadeUpTo(m, p, 0, m);
  }

  lemma StoreOneRefused(setup: Setup, v: nat, hex: bytes, m: Entries, name: bytes, s: bytes)
    requires ProperName(hex) && name != []
    requires !ValidName(setup.utf8, name) || HasBadPath(NewPath(hex, CleanedName(v, name)))
    ensures StoreOne(setup, v, hex, m, name, s) == None
  {
  }

  /** The steps of the specification in the order of the code. */
  lemma StoreOneUnfolds(setup: Setup, v: nat, hex: bytes, m: Entries, name: bytes, s: bytes)
    requires ProperName(hex) && name != [] && v >= 1
    requires ValidName(setup.utf8, name) && !HasBadPath(NewPath(hex, CleanedName(v, name)))
    ensures var n := CleanedName(v, name);
            var q := Clean(Front(Within(n)));
            && (v == 1 ==> q == [])
            && (v > 1 && !ParentFits(hex, m, n) ==> StoreOne(setup, v, hex, m, name, s) == None)
            && (MakeDirs(m, q) == None ==> StoreOne(setup, v, hex, m, name, s) == None)
            && ((v > 1 ==> ParentFits(hex, m, n)) && MakeDirs(m, q).Some? ==>
                  StoreOne(setup, v, hex, m, name, s) == StoreInParent(setup, v, hex, MakeDirs(m, q).value, n, s))
  {
    hide CStr, HasBadPath, ParsePayload, Split, Clean, Insert, MakeDirs, Put, Get, CanPut, ValidName, ParentFits;
    var n := CleanedName(v, name);
    var q, last := Clean(Front(Within(n))), Last(Within(n));
    if v == 1 {
      NoFrontInVersionOne(name);
    }
    var parsed := ParsePayload(setup, v, s);
    if !(Stays(last) || last == DOT_DOT) {
      Confinement(setup.utf8, v, hex, name);
      if parsed.Some? {
        InsertUnfolds(m, q, last, parsed.value.leaf);
      }
    }
  }

  lemma NoFrontInVersionOne(name: bytes)
    requires name != []
    ensures Clean(Front(Within(CleanedName(1, name)))) == []
  {
    var n := CleanedName(1, name);
    SplitWhole(n);
    assert n == [] || n[0] in n;
    assert Front(Within(n)) == [];
  }

  /** The last steps, once the parent directories are there. */
  function StoreInParent(setup: Setup, v: nat, hex: bytes, m: Entries, n: bytes, s: bytes): Option<Received> {
    var p := Clean(Front(Within(n))) + [Last(Within(n))];
    var parsed := ParsePayload(setup, v, s);
    if Stays(Last(Within(n))) || Last(Within(n)) == DOT_DOT || Get(Dir(m), p).Some? || !CanPut(Dir(m), p) then None
    else if parsed == None || (parsed.value.leaf.Dir? && |NewPath(hex, n)| > MAX_PATH) then None
    else Some(Received(Put(Dir(m), p, parsed.value.leaf).entries, parsed.value.length))
  }

  /** The exists check of _validate_and_save and the save itself. */
  method SaveNew(v: nat, socket: Socket, fs: FileSystem, hex: bytes, n: bytes, ghost m0: Entries, ghost was: Node)
    returns (ok: bool)
    requires socket.Valid() && socket.valid && fs.Valid()
    requires HasTemp(fs.root, fs.cwd, hex) && ProperName(hex) && NulFree(n) && !HasBadPath(NewPath(hex, n))
    requires TempIs(was, fs.cwd, fs.root, hex, TempEntries(fs.root, fs.cwd, hex))
    requires MakeDirs(m0, Clean(Front(Within(n)))) == Some(TempEntries(fs.root, fs.cwd, hex))
    modifies socket, fs
    ensures socket.Valid() && socket.valid && socket.sent == old(socket.sent) && old(socket.pos) <= socket.pos
    ensures fs.Valid() && HasTemp(fs.root, fs.cwd, hex)
    ensures TempIs(was, fs.cwd, fs.root, hex, TempEntries(fs.root, fs.cwd, hex))
    ensures ok ==>
      StoreInParent(socket.setup, v, hex, TempEntries(old(fs.root), fs.cwd, hex), n, socket.inbound[old(socket.pos)..])
      == Some(Received(TempEntries(fs.root, fs.cwd, hex), socket.pos - old(socket.pos)))
    ensures Delivers(socket.schedule) && fs.Reliable() ==>
      (ok <==> StoreInParent(socket.setup, v, hex, TempEntries(old(fs.root), fs.cwd, hex), n,
                             socket.inbound[old(socket.pos)..]).Some?)
    ensures fs.Reliable() && !ok ==> TempEntries(fs.root, fs.cwd, hex) == TempEntries(old(fs.root), fs.cwd, hex)
    ensures CheckFrom(old(socket.at), v, ok, socket.at)
  {
    hide Step, Drive, SentIn, ReceivedIn, SaveFrom, CheckFrom, Put, Get, Drop, CanPut, Proper, Split, Clean, Walk,
      MakeDirs, Resolve, HasBadPath, Enumerates, Became;
    ghost var before, m := fs.root, TempEntries(fs.root, fs.cwd, hex);
    ghost var front, last := Front(Within(n)), Last(Within(n));
    ghost var rel := Clean(front) + [last];
    ghost var p := fs.cwd + ([hex] + rel);
    var newPath := NewPath(hex, n);
    NewPathResolves(was, fs.cwd, before, hex, m0, m, n);
    var exists_ := fs.FileExists(newPath);
    CheckSteps(socket.setup, socket.at, v, !exists_);
    socket.Note(!exists_);
    if exists_ {
      return false;
    }
    ok := SaveFileCommon(v, socket, fs, newPath, p);
    TempChanged(was, fs.cwd, before, hex, m, fs.root, rel);
    if Get(Dir(m), rel) == None {
      assert Get(before, p) == None;
    }
  }

  /** What the new path names, once its parent directories are there. */
  lemma NewPathResolves(was: Node, cwd: Path, now: Node, hex: bytes, m0: Entries, m: Entries, n: bytes)
    requires ProperName(hex) && NulFree(n) && !HasBadPath(NewPath(hex, n))
    requires TempIs(was, cwd, now, hex, m) && MakeDirs(m0, Clean(Front(Within(n)))) == Some(m)
    ensures var last := Last(Within(n));
            var rel := Clean(Front(Within(n))) + [last];
            var s := NewPath(hex, n);
            && s[0] == DOT
            && (Stays(last) || last == DOT_DOT ==> Exists(now, cwd, s))
            && (!Stays(last) && last != DOT_DOT ==>
                  && (Exists(now, cwd, s) <==> Get(Dir(m), rel).Some?)
                  && Resolve(now, cwd, s) == Some(cwd + ([hex] + rel))
                  && Downward(s) && Clean(Split(s)) == [hex] + rel && CanPut(Dir(m), rel))
  {
    hide Split, Walk, HasBadPath, Became, Put, CanPut, MakeDirs;
    var front, last := Front(Within(n)), Last(Within(n));
    var s, q := NewPath(hex, n), Clean(Front(Within(n)));
    var h := Here(was, cwd)[hex := Dir(m)];
    PathShape(hex, n);
    FrontIsTame(hex, n);
    TempDirSplit(hex);
    CleanCat([DOT_NAME, hex], front);
    MakeDirsMade(m0, q);
    assert ([hex] + q)[1..] == q && ([hex] + (q + [last]))[1..] == q + [last];
    assert Get(Dir(h), [hex] + q) == Get(Dir(m), q);
    assert Get(Dir(h), [hex] + (q + [last])) == Get(Dir(m), q + [last]);
    ResolveDown(was, cwd, now, h, s, [DOT_NAME, hex] + front, last);
    CanPutWhere(Dir(m), q, last);
    CleanSnoc([DOT_NAME, hex] + front, last);
    assert ([hex] + q) + [last] == [hex] + (q + [last]);
  }

  /** The checks on the name buffer; the C string it is edited to. */
  method CheckName(v: nat, hex: bytes, fileName: array<byte>, nameLength: nat, utf8: bytes -> bool)
    returns (n: Option<bytes>)
    requires 0 < nameLength && fileName.Length == nameLength + 1 && fileName[nameLength] == NUL
    modifies fileName
    ensures n == if ValidName(utf8, old(fileName[..nameLength]))
                    && !HasBadPath(NewPath(hex, CleanedName(v, old(fileName[..nameLength]))))
                 then Some(CleanedName(v, old(fileName[..nameLength]))) else None
  {
    hide CStr, HasBadPath, NewPath, NulFree, AfterLastSlash;
    ghost var name := fileName[..nameLength];
    var valid := IsValidName(fileName, nameLength, utf8);
    if !valid {
      return None;
    }
    if fileName[nameLength - 1] == SLASH {
      fileName[nameLength - 1] := NUL;
    }
    TrimmedString(name, fileName[..]);
    if v == 1 {
      GetBaseName(fileName);
      if SLASH in CStr(fileName[..]) {
        return None;
      }
    }
    var newPath := NewPath(hex, CStr(fileName[..]));
    if HasBadPath(newPath) {
      return None;
    }
    return Some(CStr(fileName[..]));
  }

  lemma TrimmedString(name: bytes, buf: bytes)
    requires name != [] && |buf| == |name| + 1 && buf[|name|] == NUL
    requires buf[..|name|] == if name[|name| - 1] == SLASH then name[|name| - 1 := NUL] else name
    ensures CStr(buf) == CStr(if name[|name| - 1] == SLASH then name[..|name| - 1] else name)
  {
    hide CStr;
    var whole := if name[|name| - 1] == SLASH then name[..|name| - 1] else name;
    assert whole == buf[..|whole|];
    CStrIs(buf, CStr(whole));
  }

  /** _get_base_name: memmove of what follows the last separator to the front. */
  method GetBaseName(fileName: array<byte>)
    requires NUL in fileName[..]
    modifies fileName
    ensures CStr(fileName[..]) == old(CStr(fileName[..])[AfterLastSlash(CStr(fileName[..]))..])
  {
    ghost var was := fileName[..];
    var s := CStr(fileName[..]);
    var baseName := AfterLastSlash(s);
    StringEnds(was);
    if baseName > 0 {
      forall i | 0 <= i <= |s| - baseName {
        fileName[i] := fileName[baseName + i];
      }
      BaseNameMoved(was, fileName[..], s, baseName);
    } else {
      assert s[0..] == s;
    }
  }

  lemma BaseNameMoved(was: bytes, now: bytes, s: bytes, baseName: nat)
    requires |now| == |was| && s <= was && NulFree(s) && |s| < |was| && was[|s|] == NUL && 0 < baseName <= |s|
    requires forall i | 0 <= i <= |s| - baseName :: now[i] == was[baseName + i]
    ensures CStr(now) == s[baseName..]
  {
    CStrIs(now, s[baseName..]);
  }

  /** save_file: one whole entry, as ReceiveOne specifies it. */
  method SaveFile(v: nat, socket: Socket, fs: FileSystem, hex: bytes) returns (ok: bool)
    requires socket.Valid() && socket.valid && fs.Valid()
    requires HasTemp(fs.root, fs.cwd, hex) && ProperName(hex) && v >= 1
    modifies socket, fs
    ensures socket.Valid() && socket.valid && socket.sent == old(socket.sent) && old(socket.pos) <= socket.pos
    ensures fs.Valid() && HasTemp(fs.root, fs.cwd, hex)
    ensures TempIs(old(fs.root), fs.cwd, fs.root, hex, TempEntries(fs.root, fs.cwd, hex))
    ensures ok ==>
      ReceiveOne(socket.setup, v, hex, TempEntries(old(fs.root), fs.cwd, hex), socket.inbound[old(socket.pos)..])
      == Some(Received(TempEntries(fs.root, fs.cwd, hex), socket.pos - old(socket.pos)))
    ensures Delivers(socket.schedule) && fs.Reliable() ==>
      (ok <==> ReceiveOne(socket.setup, v, hex, TempEntries(old(fs.root), fs.cwd, hex),
                          socket.inbound[old(socket.pos)..]).Some?)
    ensures EntryFrom(old(socket.at), v, ok, socket.at)
  {
    hide Step, Drive, SentIn, ReceivedIn, EntryFrom, CheckFrom, Proper, Put, Get, StoreOne, Delivers, Enumerates;
    ghost var start, st, m0 := socket.pos, socket.at, TempEntries(fs.root, fs.cwd, hex);
    ghost var stream := socket.inbound[start..];
    TempSame(fs.root, fs.cwd, hex);
    var size;
    ok, size := socket.ReadSize();
    ghost var ev := if ok then Got(socket.inbound[start..socket.pos]) else ReadCut(socket.inbound[start..socket.pos]);
    EntrySteps(socket.setup, st, v, ev);
    if !ok {
      return;
    }
    SizeInStream(socket.inbound, start);
    if size <= 0 || size > MAX_FILE_NAME_LENGTH {
      return false;
    }
    var fileName := new byte[size + 1];
    ok := socket.ReadSock(fileName, size);
    ghost var ev' := if ok then Got(socket.inbound[start + 8..socket.pos])
                     else ReadCut(socket.inbound[start + 8..socket.pos]);
    NameSteps(socket.setup, st, v, ev, ev');
    if !ok {
      return;
    }
    NameInStream(socket.inbound, start, size);
    ghost var name := fileName[..size];
    fileName[size] := NUL;
    assert fileName[..size] == name;
    ok := ValidateAndSave(v, socket, fs, hex, fileName, size);
  }

  lemma SizeInStream(s: bytes, start: nat)
    requires start + 8 <= |s|
    ensures s[start..][..8] == s[start..start + 8]
  {
  }

  lemma NameInStream(s: bytes, start: nat, size: nat)
    requires start + 8 + size <= |s|
    ensures s[start..][8..8 + size] == s[start + 8..start + 8 + size]
    ensures s[start..][8 + size..] == s[start + 8 + size..]
  {
  }

  /** Having used this much of the stream, m is what the temp directory holds, and left entries are to come. */
  ghost predicate Underway(setup: Setup, v: nat, hex: bytes, m0: Entries, stream: bytes, count: nat,
      used: nat, m: Entries, left: nat)
    requires ProperName(hex)
  {
    && used <= |stream|
    && ReceiveMany(setup, v, hex, m0, stream, count)
       == match ReceiveMany(setup, v, hex, m, stream[used..], left)
          case None => None
          case Some(rest) => Some(Received(rest.entries, used + rest.length))
  }

  lemma UnderwayStart(setup: Setup, v: nat, hex: bytes, m0: Entries, stream: bytes, count: nat)
    requires ProperName(hex)
    ensures Underway(setup, v, hex, m0, stream, count, 0, m0, count)
  {
    assert stream[0..] == stream;
  }

  lemma UnderwayStep(setup: Setup, v: nat, hex: bytes, m0: Entries, stream: bytes, count: nat,
      used: nat, m: Entries, left: nat, r: Option<Received>)
    requires ProperName(hex) && left > 0 && Underway(setup, v, hex, m0, stream, count, used, m, left)
    requires r == ReceiveOne(setup, v, hex, m, stream[used..])
    ensures r == None ==> ReceiveMany(setup, v, hex, m0, stream, count) == None
    ensures r.Some? && used + r.value.length <= |stream| ==>
      Underway(setup, v, hex, m0, stream, count, used + r.value.length, r.value.entries, left - 1)
  {
    hide ReceiveOne;
    if r.Some? && used + r.value.length <= |stream| {
      assert stream[used..][r.value.length..] == stream[used + r.value.length..];
    }
  }

  lemma UnderwayEnd(setup: Setup, v: nat, hex: bytes, m0: Entries, stream: bytes, count: nat, used: nat, m: Entries)
    requires ProperName(hex) && Underway(setup, v, hex, m0, stream, count, used, m, 0)
    ensures ReceiveMany(setup, v, hex, m0, stream, count) == Some(Received(m, used))
  {
  }

  /** The receiving loop of _get_files_dirs: count entries, as ReceiveMany specifies them. */
  method SaveAll(v: nat, socket: Socket, fs: FileSystem, hex: bytes, count: nat) returns (ok: bool)
    requires socket.Valid() && socket.valid && fs.Valid()
    requires HasTemp(fs.root, fs.cwd, hex) && ProperName(hex) && v >= 1 && count > 0
    modifies socket, fs
    ensures socket.Valid() && socket.valid && socket.sent == old(socket.sent) && old(socket.pos) <= socket.pos
    ensures fs.Valid() && HasTemp(fs.root, fs.cwd, hex)
    ensures TempIs(old(fs.root), fs.cwd, fs.root, hex, TempEntries(fs.root, fs.cwd, hex))
    ensures ok ==>
      ReceiveMany(socket.setup, v, hex, TempEntries(old(fs.root), fs.cwd, hex),
                  socket.inbound[old(socket.pos)..], count)
      == Some(Received(TempEntries(fs.root, fs.cwd, hex), socket.pos - old(socket.pos)))
    ensures Delivers(socket.schedule) && fs.Reliable() ==>
      (ok <==> ReceiveMany(socket.setup, v, hex, TempEntries(old(fs.root), fs.cwd, hex),
                           socket.inbound[old(socket.pos)..], count).Some?)
    ensures AllEntriesFrom(old(socket.at), v, count, ok, socket.at)
  {
    hide Step, Drive, SentIn, ReceivedIn, EntryFrom, EntriesFrom, AllEntriesFrom, CheckFrom, Proper, Put, Get,
      ReceiveOne, ReceiveMany, StoreOne, Underway, TempIs, Delivers, Enumerates, Became;
    ghost var was, m0, start := fs.root, TempEntries(fs.root, fs.cwd, hex), socket.pos;
    ghost var stream := socket.inbound[start..];
    TempSame(was, fs.cwd, hex);
    UnderwayStart(socket.setup, v, hex, m0, stream, count);
    EntriesEnds(socket.at, v, count, socket.at);
    ghost var st := socket.at;
    var num := 0;
    while num < count
      invariant 0 <= num <= count && start <= socket.pos
      invariant socket.Valid() && socket.valid && socket.sent == old(socket.sent)
      invariant fs.Valid() && HasTemp(fs.root, fs.cwd, hex)
      invariant TempIs(was, fs.cwd, fs.root, hex, TempEntries(fs.root, fs.cwd, hex))
      invariant Underway(socket.setup, v, hex, m0, stream, count,
                         socket.pos - start, TempEntries(fs.root, fs.cwd, hex), count - num)
      invariant EntriesFrom(st, v, count, count - num, socket.at)
    {
      ok := SaveNext(v, socket, fs, hex, count - num, was, m0, start, count, st);
      if !ok {
        return;
      }
      num := num + 1;
    }
    UnderwayEnd(socket.setup, v, hex, m0, stream, count, socket.pos - start, TempEntries(fs.root, fs.cwd, hex));
    EntriesEnds(st, v, count, socket.at);
    return true;
  }

  /** One round of the receiving loop. */
  method SaveNext(v: nat, socket: Socket, fs: FileSystem, hex: bytes, left: nat,
      ghost was: Node, ghost m0: Entries, ghost start: nat, ghost count: nat, ghost st: State)
    returns (ok: bool)
    requires socket.Valid() && socket.valid && fs.Valid() && left > 0 && start <= socket.pos
    requires HasTemp(fs.root, fs.cwd, hex) && ProperName(hex) && v >= 1
    requires TempIs(was, fs.cwd, fs.root, hex, TempEntries(fs.root, fs.cwd, hex))
    requires Underway(socket.setup, v, hex, m0, socket.inbound[start..], count,
                      socket.pos - start, TempEntries(fs.root, fs.cwd, hex), left)
    requires EntriesFrom(st, v, count, left, socket.at)
    modifies socket, fs
    ensures socket.Valid() && socket.valid && socket.sent == old(socket.sent) && old(socket.pos) <= socket.pos
    ensures fs.Valid() && HasTemp(fs.root, fs.cwd, hex)
    ensures TempIs(was, fs.cwd, fs.root, hex, TempEntries(fs.root, fs.cwd, hex))
    ensures ok ==>
      Underway(socket.setup, v, hex, m0, socket.inbound[start..], count,
               socket.pos - start, TempEntries(fs.root, fs.cwd, hex), left - 1)
    ensures Delivers(socket.schedule) && fs.Reliable() && !ok ==>
      ReceiveMany(socket.setup, v, hex, m0, socket.inbound[start..], count) == None
    ensures
      if ok then EntriesFrom(st, v, count, left - 1, socket.at) else AllEntriesFrom(st, v, count, false, socket.at)
  {
    hide Step, Drive, SentIn, ReceivedIn, EntryFrom, EntriesFrom, AllEntriesFrom, CheckFrom, Proper, Put, Get,
      ReceiveOne, ReceiveMany, StoreOne, Underway, TempIs, Delivers, Enumerates, Became;
    ghost var before, at, m, root := socket.pos, socket.at, TempEntries(fs.root, fs.cwd, hex), fs.root;
    ghost var stream := socket.inbound[start..];
    ghost var r := ReceiveOne(socket.setup, v, hex, m, socket.inbound[before..]);
    assert stream[before - start..] == socket.inbound[before..];
    UnderwayStep(socket.setup, v, hex, m0, stream, count, before - start, m, left, r);
    ok := SaveFile(v, socket, fs, hex);
    EntriesSteps(st, v, count, left, at, ok, socket.at);
    TempTrans(was, fs.cwd, root, hex, m, fs.root, TempEntries(fs.root, fs.cwd, hex));
  }
}
