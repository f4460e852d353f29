/** Initrds that belong to no kernel: the user's directory laid over the system's, copied to the ESP and
    cleaned up there. */
module Freestanding {
  import opened Text
  import opened Disks

  /** `name` is absent for an initrd the user masked with a link to /dev/null. */
  datatype InitrdEntry = InitrdEntry(name: Option<string>, dir: Area)

  const UCODE_NEEDLE: string := "-ucode.cpio"

  function Key(name: string): string { "freestanding-" + name }

  predicate IsUcode(name: string) {
    |name| > |UCODE_NEEDLE| && HasSuffix(name, UCODE_NEEDLE)
  }

  /** The names in a directory that count: non-empty files, and links to /dev/null. */
  function Usable(files: Files, nullLinks: set<Path>, dir: Area): set<string> {
    (set p | p in files && p.area == dir && files[p] != "" :: p.name)
    + (set p | p in nullLinks && p.area == dir :: p.name)
  }

  function EntryFor(nullLinks: set<Path>, dir: Area, name: string): InitrdEntry {
    InitrdEntry(if Path(dir, name) in nullLinks then None else Some(name), dir)
  }

  type Overlay = map<string, InitrdEntry>

  predicate IsUnmasked(m: Overlay, key: string) {
    key in m && m[key].name.Some?
  }

  /** The unmasked keys among `keys`, but for the one already written. */
  function Unmasked(m: Overlay, keys: seq<string>, written: Option<string>): seq<string> {
    if keys == [] then []
    else
      var rest := Unmasked(m, keys[1..], written);
      if IsUnmasked(m, keys[0]) && written != Some(keys[0]) then [keys[0]] + rest else rest
  }

  function OptSeq(x: Option<string>): seq<string> {
    if x.Some? then [x.value] else []
  }

  /** The initrds of a boot entry: early microcode, the kernel's own, its extras, the freestanding. */
  function EntryInitrds(m: Overlay, keys: seq<string>, ucode: Option<string>, own: Option<string>,
                        extras: seq<string>): seq<string> {
    OptSeq(ucode) + (OptSeq(own) + (extras + Unmasked(m, keys, ucode)))
  }

  /** What the given names of one directory contribute. */
  function FromNames(nullLinks: set<Path>, dir: Area, names: set<string>): Overlay {
    map key | key in (set n | n in names :: Key(n)) :: EntryFor(nullLinks, dir, key[|Key("")|..])
  }

  function FromDir(files: Files, nullLinks: set<Path>, dir: Area): Overlay {
    FromNames(nullLinks, dir, Usable(files, nullLinks, dir))
  }

  /** A microcode initrd that is neither masked nor hidden by an earlier directory. */
  predicate Early(nullLinks: set<Path>, dir: Area, earlier: Overlay, name: string) {
    IsUcode(name) && Path(dir, name) !in nullLinks && Key(name) !in earlier
  }

  /** Every path a freestanding initrd may use on the ESP, staging files included. */
  ghost function EspPaths(): iset<Path> {
    iset p: Path | p.area == EspKernels && HasPrefix(p.name, Key(""))
  }

  function SourceOf(m: Overlay, key: string): Path
    requires IsUnmasked(m, key)
  {
    Path(m[key].dir, m[key].name.value)
  }

  /** The unmasked initrd's copy on the ESP equals its source. */
  predicate IsCopied(files: Files, m: Overlay, key: string)
    requires IsUnmasked(m, key)
  {
    Match(files, SourceOf(m, key), Path(EspKernels, key))
  }

  ghost predicate AreCopied(files: Files, m: Overlay) {
    forall key | IsUnmasked(m, key) :: IsCopied(files, m, key)
  }

  // ----- copies staged over one another -----

  /** The name another initrd is staged under belongs to an initrd of its own only if that other one need not
      be copied. */
  ghost predicate StagesApart(files: Files, m: Overlay) {
    forall key | IsUnmasked(m, key) && IsUnmasked(m, key + ".TmpWrite") :: IsCopied(files, m, key)
  }

  /** A turn of the copy loop, among those from `first` to before `n`, stages its copy over key `i`'s file. */
  predicate StagedOver(files: Files, m: Overlay, keys: seq<string>, i: nat, first: nat, n: nat)
    requires i < |keys| && n <= |keys|
    decreases n, 0
  {
    exists j | first <= j < n :: keys[i] == keys[j] + ".TmpWrite" && IsCopyMade(files, m, keys, j)
  }

  /** Turn `i` of the copy loop writes: at the start the copy differed, or a turn before staged over it. */
  predicate IsCopyMade(files: Files, m: Overlay, keys: seq<string>, i: nat)
    requires i < |keys|
    decreases i, 1
  {
    IsUnmasked(m, keys[i]) && (!IsCopied(files, m, keys[i]) || StagedOver(files, m, keys, i, 0, i))
  }

  /** What the first `n` turns made of key `i`'s file. */
  ghost predicate Stands(before: Files, now: Files, m: Overlay, keys: seq<string>, i: nat, n: nat)
    requires i < |keys| && n <= |keys| && IsUnmasked(m, keys[i])
  {
    if StagedOver(before, m, keys, i, if i < n then i + 1 else 0, n) then Path(EspKernels, keys[i]) !in now
    else if i < n then IsCopied(now, m, keys[i])
    else Same(before, now, Path(EspKernels, keys[i]))
  }

  ghost predicate AllStand(before: Files, now: Files, m: Overlay, keys: seq<string>, n: nat)
    requires n <= |keys|
  {
    && (forall i | 0 <= i < |keys| && IsUnmasked(m, keys[i]) :: Stands(before, now, m, keys, i, n))
    && (forall key | IsUnmasked(m, key) :: Same(before, now, SourceOf(m, key)))
  }

  /** Keys and sources are those of freestanding initrds. */
  ghost predicate ValidOverlay(m: Overlay) {
    OffEspOverlay(m) && forall key | key in m :: HasPrefix(key, Key(""))
  }

  ghost predicate OffEspOverlay(m: Overlay) {
    forall key | key in m :: m[key].dir.FreestandingDir? || m[key].dir.UserFreestandingDir?
  }

  /** One turn that need not write. */
  lemma TurnSkips(before: Files, now: Files, m: Overlay, keys: seq<string>, n: nat)
    requires n < |keys| && AllStand(before, now, m, keys, n)
    requires IsUnmasked(m, keys[n]) ==> IsCopied(now, m, keys[n])
    ensures AllStand(before, now, m, keys, n + 1)
  {
    assert IsUnmasked(m, keys[n]) ==> Stands(before, now, m, keys, n, n);
    assert !IsCopyMade(before, m, keys, n);
    forall i | 0 <= i < |keys| && IsUnmasked(m, keys[i])
      ensures Stands(before, now, m, keys, i, n + 1)
    {
      assert Stands(before, now, m, keys, i, n);
    }
  }

  /** One turn that writes. */
  lemma TurnCopies(before: Files, now: Files, next: Files, m: Overlay, keys: seq<string>, n: nat)
    requires n < |keys| && AllStand(before, now, m, keys, n) && OffEspOverlay(m)
    requires forall i, j | 0 <= i < j < |keys| :: keys[i] != keys[j]
    requires IsUnmasked(m, keys[n]) && !IsCopied(now, m, keys[n]) && SourceOf(m, keys[n]) in now
    requires next == (now - {Tmp(Path(EspKernels, keys[n]))})[Path(EspKernels, keys[n]) := now[SourceOf(m, keys[n])]]
    ensures AllStand(before, next, m, keys, n + 1)
  {
    assert Stands(before, now, m, keys, n, n);
    assert IsCopyMade(before, m, keys, n);
    forall i | 0 <= i < |keys| && IsUnmasked(m, keys[i])
      ensures Stands(before, next, m, keys, i, n + 1)
    {
      assert Stands(before, now, m, keys, i, n);
    }
  }

  /** Where no key is staged over, all copies stand, whatever the order; otherwise some order loses one. */
  lemma {:induction false} CopiesStandIff(files: Files, m: Overlay)
    ensures StagesApart(files, m) <==>
            forall keys: seq<string>, i: nat | Lists(keys, m.Keys) && i < |keys| && IsUnmasked(m, keys[i]) ::
              !StagedOver(files, m, keys, i, i + 1, |keys|)
  {
    if StagesApart(files, m) {
      forall keys: seq<string>, i: nat | Lists(keys, m.Keys) && i < |keys| && IsUnmasked(m, keys[i])
        ensures !StagedOver(files, m, keys, i, i + 1, |keys|)
      {
        NothingStagedOver(files, m, keys, i, |keys|);
      }
    } else {
      var key :| IsUnmasked(m, key) && IsUnmasked(m, key + ".TmpWrite") && !IsCopied(files, m, key);
      var keys, i := LosingOrder(files, m, key);
    }
  }

  lemma {:induction false} NothingStagedOver(files: Files, m: Overlay, keys: seq<string>, i: nat, n: nat)
    requires StagesApart(files, m) && i < |keys| && n <= |keys| && IsUnmasked(m, keys[i])
    ensures !StagedOver(files, m, keys, i, 0, n)
    decreases n
  {
    forall j | 0 <= j < n && keys[i] == keys[j] + ".TmpWrite"
      ensures !IsCopyMade(files, m, keys, j)
    {
      if IsUnmasked(m, keys[j]) {
        NothingStagedOver(files, m, keys, j, j);
      }
    }
  }

  lemma {:induction false} SomeOrder(s: set<string>) returns (keys: seq<string>)
    ensures Lists(keys, s)
  {
    if s == {} {
      keys := [];
    } else {
      var x :| x in s;
      var rest := SomeOrder(s - {x});
      keys := [x] + rest;
    }
  }

  /** The failing order: the initrd that bears the staging name is copied first. */
  lemma LosingOrder(files: Files, m: Overlay, key: string) returns (keys: seq<string>, i: nat)
    requires IsUnmasked(m, key) && IsUnmasked(m, key + ".TmpWrite") && !IsCopied(files, m, key)
    ensures Lists(keys, m.Keys) && i < |keys| && keys[i] == key + ".TmpWrite"
    ensures StagedOver(files, m, keys, i, i + 1, |keys|)
  {
    var rest := SomeOrder(m.Keys - {key + ".TmpWrite"});
    keys, i := [key + ".TmpWrite"] + rest, 0;
    assert key != key + ".TmpWrite" && key in rest;
    var j :| 0 <= j < |rest| && rest[j] == key;
    assert keys[j + 1] == key && IsCopyMade(files, m, keys, j + 1);
  }

  lemma KeysDiffer(a: string, b: string)
    requires Key(a) == Key(b)
    ensures a == b
  {
    assert a == Key(a)[|Key("")|..] && b == Key(b)[|Key("")|..];
  }

  lemma KeyHasPrefix(name: string, tail: string)
    ensures HasPrefix(Key(name) + tail, Key(""))
  {
    assert Key(name) + tail == Key("") + (name + tail);
  }

  lemma NameOfKey(n: string)
    ensures Key(n)[|Key("")|..] == n
  {
  }

  /** Freestanding paths on the ESP that no key claims. */
  ghost function StalePaths(m: Overlay): iset<Path> {
    iset p | p in EspPaths() && p.name !in m
  }

  lemma StaleIs(m: Overlay, name: string)
    ensures Path(EspKernels, name) in StalePaths(m) <==> HasPrefix(name, "freestanding-") && name !in m
  {
  }

  /** The overlay so far, and the microcode initrd chosen for early loading. */
  datatype Found = Found(m: Overlay, ucode: Option<string>)

  /** One turn of the directory loop. */
  function AddOne(nullLinks: set<Path>, dir: Area, st: Found, name: string): Found {
    var key, entry := Key(name), EntryFor(nullLinks, dir, name);
    if key in st.m then st
    else Found(st.m[key := entry],
               if entry.name.Some? && IsUcode(name) && st.ucode.None? then Some(key) else st.ucode)
  }

  function AddFrom(nullLinks: set<Path>, dir: Area, st: Found, names: seq<string>, i: nat): Found
    requires i <= |names|
    decreases |names| - i
  {
    if i == |names| then st else AddFrom(nullLinks, dir, AddOne(nullLinks, dir, st, names[i]), names, i + 1)
  }

  function NamesFrom(names: seq<string>, i: nat): set<string> {
    set j | i <= j < |names| :: names[j]
  }

  /** The loop lays what was there before over the directory's own entries. */
  lemma {:induction false} AddedOverlay(nullLinks: set<Path>, dir: Area, st: Found, names: seq<string>, i: nat)
    requires i <= |names| && forall j, k | 0 <= j < k < |names| :: names[j] != names[k]
    ensures AddFrom(nullLinks, dir, st, names, i).m == FromNames(nullLinks, dir, NamesFrom(names, i)) + st.m
    decreases |names| - i
  {
    var r := FromNames(nullLinks, dir, NamesFrom(names, i)) + st.m;
    if i == |names| {
      assert r == st.m;
    } else {
      AddedOverlay(nullLinks, dir, AddOne(nullLinks, dir, st, names[i]), names, i + 1);
      assert NamesFrom(names, i) == {names[i]} + NamesFrom(names, i + 1);
      OneMoreName(nullLinks, dir, st, NamesFrom(names, i + 1), names[i]);
    }
  }

  lemma OneMoreName(nullLinks: set<Path>, dir: Area, st: Found, rest: set<string>, name: string)
    ensures FromNames(nullLinks, dir, rest) + AddOne(nullLinks, dir, st, name).m
            == FromNames(nullLinks, dir, {name} + rest) + st.m
  {
    var f, g := FromNames(nullLinks, dir, rest), FromNames(nullLinks, dir, {name} + rest);
    NameOfKey(name);
    assert Key(name) in g;
    forall key
      ensures key in g <==> key in f || key == Key(name)
    {
    }
    assert f + AddOne(nullLinks, dir, st, name).m == g + st.m;
  }

  /** The early initrd is the first candidate, if there is any. */
  lemma {:induction false} AddedUcode(nullLinks: set<Path>, dir: Area, st: Found, names: seq<string>, i: nat)
    returns (k: nat)
    requires i <= |names| && forall j, k | 0 <= j < k < |names| :: names[j] != names[k]
    ensures i <= k <= |names|
    ensures forall j | i <= j < k :: !Early(nullLinks, dir, st.m, names[j])
    ensures k < |names| ==> Early(nullLinks, dir, st.m, names[k])
    ensures AddFrom(nullLinks, dir, st, names, i).ucode
            == if st.ucode.Some? then st.ucode else if k < |names| then Some(Key(names[k])) else None
    decreases |names| - i
  {
    if i == |names| {
      k := i;
    } else {
      var st1 := AddOne(nullLinks, dir, st, names[i]);
      k := AddedUcode(nullLinks, dir, st1, names, i + 1);
      forall j | i < j < |names|
        ensures Early(nullLinks, dir, st1.m, names[j]) <==> Early(nullLinks, dir, st.m, names[j])
      {
        if Key(names[j]) == Key(names[i]) {
          KeysDiffer(names[j], names[i]);
        }
      }
      if Early(nullLinks, dir, st.m, names[i]) {
        k := i;
      }
    }
  }

  // ----- whose initrd it is -----

  /** The microcode initrds are those whose names are something and the needle. */
  lemma UcodeNames(name: string)
    ensures IsUcode(name) <==> exists x: string :: x != "" && name == x + "-ucode.cpio"
  {
    if IsUcode(name) {
      var x := name[..|name| - |UCODE_NEEDLE|];
      assert name == x + "-ucode.cpio";
    }
    forall x: string | x != "" && name == x + "-ucode.cpio"
      ensures IsUcode(name)
    {
      assert name[|name| - |UCODE_NEEDLE|..] == UCODE_NEEDLE;
    }
  }

  /** A file of this name is there and not empty. */
  predicate HasFile(files: Files, dir: Area, name: string) {
    Path(dir, name) in files && files[Path(dir, name)] != ""
  }

  /** What the key of a name says behind the reading of one directory: what it said before; else nothing if the name is
      a link to /dev/null; else the file, if there is one. */
  ghost predicate IsLaid(files: Files, nullLinks: set<Path>, dir: Area, before: Overlay, after: Overlay, name: string) {
    var key := "freestanding-" + name;
    if key in before then key in after && after[key] == before[key]
    else if Path(dir, name) in nullLinks then key in after && after[key].name == None
    else if HasFile(files, dir, name) then key in after && after[key] == InitrdEntry(Some(name), dir)
    else key !in after
  }

  /** Whose file the freestanding initrd of a name is: a link to /dev/null of the user's masks the name, whatever the
      system has; next comes the user's file, then the system's link, then the system's file. */
  ghost predicate IsDecided(files: Files, nullLinks: set<Path>, m: Overlay, name: string) {
    var key := "freestanding-" + name;
    var user, system := Path(UserFreestandingDir, name), Path(FreestandingDir, name);
    if user in nullLinks then key in m && !IsUnmasked(m, key)
    else if HasFile(files, UserFreestandingDir, name) then IsUnmasked(m, key) && SourceOf(m, key) == user
    else if system in nullLinks then key in m && !IsUnmasked(m, key)
    else if HasFile(files, FreestandingDir, name) then IsUnmasked(m, key) && SourceOf(m, key) == system
    else key !in m
  }

  lemma UsableIs(files: Files, nullLinks: set<Path>, dir: Area, name: string)
    ensures name in Usable(files, nullLinks, dir) <==> HasFile(files, dir, name) || Path(dir, name) in nullLinks
  {
    if HasFile(files, dir, name) || Path(dir, name) in nullLinks {
      assert Path(dir, name).name == name;
    }
  }

  lemma LaidOver(files: Files, nullLinks: set<Path>, dir: Area, before: Overlay, name: string)
    ensures IsLaid(files, nullLinks, dir, before, FromDir(files, nullLinks, dir) + before, name)
  {
    UsableIs(files, nullLinks, dir, name);
    FromDirHas(files, nullLinks, dir, name);
  }

  lemma Decided(files: Files, nullLinks: set<Path>, user: Overlay, m: Overlay, name: string)
    requires IsLaid(files, nullLinks, UserFreestandingDir, map[], user, name)
    requires IsLaid(files, nullLinks, FreestandingDir, user, m, name)
    ensures IsDecided(files, nullLinks, m, name)
  {
  }

  lemma AllDecided(files: Files, nullLinks: set<Path>, user: Overlay, m: Overlay)
    requires forall name :: IsLaid(files, nullLinks, UserFreestandingDir, map[], user, name)
    requires forall name :: IsLaid(files, nullLinks, FreestandingDir, user, m, name)
    ensures forall name :: IsDecided(files, nullLinks, m, name)
  {
    forall name
      ensures IsDecided(files, nullLinks, m, name)
    {
      Decided(files, nullLinks, user, m, name);
    }
  }

  /** What the reading of one directory chose for early loading: nothing else if something was chosen before; and else
      a candidate, if there is any. */
  ghost predicate PicksEarly(files: Files, nullLinks: set<Path>, dir: Area, earlier: Overlay, before: Option<string>,
                             after: Option<string>) {
    if before.Some? then after == before
    else
      match after
      case None => forall n | n in Usable(files, nullLinks, dir) :: !Early(nullLinks, dir, earlier, n)
      case Some(key) =>
        exists n :: n in Usable(files, nullLinks, dir) && Early(nullLinks, dir, earlier, n) && key == Key(n)
  }

  /** A microcode initrd that no link masks. */
  predicate IsMicrocode(m: Overlay, name: string) {
    IsUcode(name) && IsUnmasked(m, "freestanding-" + name)
  }

  predicate IsUsers(m: Overlay, key: string) {
    IsUnmasked(m, key) && m[key].dir == UserFreestandingDir
  }

  /** What is loaded early is some microcode initrd if there is one, and the user's if the user has one. */
  ghost predicate IsEarliest(m: Overlay, ucode: Option<string>) {
    match ucode
    case None => forall n :: !IsMicrocode(m, n)
    case Some(key) =>
      && (exists n :: IsMicrocode(m, n) && key == "freestanding-" + n)
      && ((exists n :: IsMicrocode(m, n) && IsUsers(m, Key(n))) ==> IsUsers(m, key))
  }

  lemma EarliestIs(files: Files, nullLinks: set<Path>, user: Overlay, m: Overlay, between: Option<string>,
                   ucode: Option<string>)
    requires forall name :: IsLaid(files, nullLinks, UserFreestandingDir, map[], user, name)
    requires forall name :: IsLaid(files, nullLinks, FreestandingDir, user, m, name)
    requires PicksEarly(files, nullLinks, UserFreestandingDir, map[], None, between)
    requires PicksEarly(files, nullLinks, FreestandingDir, user, between, ucode)
    ensures IsEarliest(m, ucode)
  {
    forall n
      ensures IsLaid(files, nullLinks, UserFreestandingDir, map[], user, n)
      ensures IsLaid(files, nullLinks, FreestandingDir, user, m, n)
      ensures IsMicrocode(m, n) && IsUsers(m, Key(n)) ==>
                n in Usable(files, nullLinks, UserFreestandingDir) && Early(nullLinks, UserFreestandingDir, map[], n)
      ensures IsMicrocode(m, n) && !IsUsers(m, Key(n)) ==>
                n in Usable(files, nullLinks, FreestandingDir) && Early(nullLinks, FreestandingDir, user, n)
    {
      UsableIs(files, nullLinks, UserFreestandingDir, n);
      UsableIs(files, nullLinks, FreestandingDir, n);
    }
    if between.Some? {
      var n :| n in Usable(files, nullLinks, UserFreestandingDir) && between.value == Key(n) &&
               Early(nullLinks, UserFreestandingDir, map[], n);
      UsableIs(files, nullLinks, UserFreestandingDir, n);
      assert IsMicrocode(m, n) && IsUsers(m, Key(n));
    } else if ucode.Some? {
      var n :| n in Usable(files, nullLinks, FreestandingDir) && ucode.value == Key(n) &&
               Early(nullLinks, FreestandingDir, user, n);
      UsableIs(files, nullLinks, FreestandingDir, n);
      assert IsMicrocode(m, n);
    }
  }

  class Initrds {
    const disk: Disk
    const nullLinks: set<Path>
    var initrds: Overlay
    var ucode: Option<string>

    ghost predicate Valid()
      reads this, disk
    {
      && disk.Valid()
      && ValidOverlay(initrds)
      && (ucode.Some? ==> IsUnmasked(initrds, ucode.value))
    }

    constructor (disk: Disk, nullLinks: set<Path>)
      requires disk.Valid()
      ensures Valid() && this.disk == disk && this.nullLinks == nullLinks
      ensures initrds == map[] && ucode == None
    {
      this.disk := disk;
      this.nullLinks := nullLinks;
      initrds := map[];
      ucode := None;
    }

    /** Reads one directory; keys that are already there win. */
    method EnumerateDir(dir: Area) returns (ok: bool)
      requires Valid() && (dir.FreestandingDir? || dir.UserFreestandingDir?)
      modifies this, disk`faults
      ensures Valid() && disk.faults == old(disk.faults) + if ok then 0 else 1
      ensures !ok ==> initrds == old(initrds) && ucode == old(ucode)
      ensures ok ==> initrds == FromDir(disk.files, nullLinks, dir) + old(initrds)
      ensures ok ==> forall name :: IsLaid(disk.files, nullLinks, dir, old(initrds), initrds, name)
      ensures ok ==> PicksEarly(disk.files, nullLinks, dir, old(initrds), old(ucode), ucode)
    {
      ok := disk.Try();
      if !ok {
        return;
      }
      ghost var st0 := Found(initrds, ucode);
      var names := disk.order(Usable(disk.files, nullLinks, dir));
      for i := 0 to |names|
        invariant Valid() && disk.faults == old(disk.faults)
        invariant AddFrom(nullLinks, dir, Found(initrds, ucode), names, i) == AddFrom(nullLinks, dir, st0, names, 0)
      {
        var name := names[i];
        var key := Key(name);
        if key in initrds {
          continue;
        }
        var entry := EntryFor(nullLinks, dir, name);
        KeyHasPrefix(name, "");
        assert key + "" == key;
        if entry.name.Some? && IsUcode(name) && ucode.None? {
          ucode := Some(key);
        }
        initrds := initrds[key := entry];
      }
      AddedOverlay(nullLinks, dir, st0, names, 0);
      assert NamesFrom(names, 0) == Usable(disk.files, nullLinks, dir);
      ghost var k := AddedUcode(nullLinks, dir, st0, names, 0);
      assert k < |names| ==> names[k] in Usable(disk.files, nullLinks, dir);
      forall name
        ensures IsLaid(disk.files, nullLinks, dir, st0.m, initrds, name)
      {
        LaidOver(disk.files, nullLinks, dir, st0.m, name);
      }
    }

    /** The user's directory first, so that its entries and masks win. */
    method Enumerate() returns (ok: bool)
      requires Valid()
      modifies this, disk`faults
      ensures Valid() && disk.faults >= old(disk.faults)
      ensures disk.faults == old(disk.faults) ==> ok
      ensures ok ==> initrds == FromDir(disk.files, nullLinks, FreestandingDir)
                                + (FromDir(disk.files, nullLinks, UserFreestandingDir) + old(initrds))
      ensures ok ==> exists between ::
                && PicksEarly(disk.files, nullLinks, UserFreestandingDir, old(initrds), old(ucode), between)
                && PicksEarly(disk.files, nullLinks, FreestandingDir,
                              FromDir(disk.files, nullLinks, UserFreestandingDir) + old(initrds), between, ucode)
      ensures ok && old(initrds) == map[] ==> forall name :: IsDecided(disk.files, nullLinks, initrds, name)
      ensures ok && old(initrds) == map[] && old(ucode) == None ==> IsEarliest(initrds, ucode)
    {
      ok := EnumerateDir(UserFreestandingDir);
      if !ok {
        return;
      }
      ghost var user, between := initrds, ucode;
      ok := EnumerateDir(FreestandingDir);
      if ok && old(initrds) == map[] {
        AllDecided(disk.files, nullLinks, user, initrds);
        if old(ucode) == None {
          EarliestIs(disk.files, nullLinks, user, initrds, between, ucode);
        }
      }
    }

    ghost predicate SourcesThere()
      reads this, disk
    {
      forall key | IsUnmasked(initrds, key) :: SourceOf(initrds, key) in disk.files
    }

    /** A copy stands at the end unless a later one was staged over it. */
    method Copy() returns (ok: bool)
      requires Valid()
      modifies disk
      ensures Valid() && Evolves(old(disk.history), disk.history, EspPaths()) && disk.faults >= old(disk.faults)
      ensures old(SourcesThere()) && disk.faults == old(disk.faults) ==> ok
      ensures ok ==> var keys := disk.order(initrds.Keys);
                     forall i | 0 <= i < |keys| && IsUnmasked(initrds, keys[i]) ::
                       IsCopied(disk.files, initrds, keys[i]) <==>
                       !StagedOver(old(disk.files), initrds, keys, i, i + 1, |keys|)
      ensures ok && old(StagesApart(disk.files, initrds)) ==> AreCopied(disk.files, initrds)
    {
      ghost var h0, f0 := disk.history, disk.files;
      var keys := disk.order(initrds.Keys);
      for i := 0 to |keys|
        invariant Valid() && Evolves(h0, disk.history, EspPaths()) && disk.faults >= old(disk.faults)
        invariant old(SourcesThere()) ==> SourcesThere()
        invariant AllStand(f0, disk.files, initrds, keys, i)
      {
        var key := keys[i];
        if initrds[key].name.None? {
          TurnSkips(f0, disk.files, initrds, keys, i);
          continue;
        }
        var source, target := SourceOf(initrds, key), Path(EspKernels, key);
        if disk.FilesMatch(source, target) {
          TurnSkips(f0, disk.files, initrds, keys, i);
        } else {
          ghost var h1, f1 := disk.history, disk.files;
          ok := disk.CopyFileAtomic(source, target);
          StagingIsFreestanding(key);
          EvolvesThen(h0, h1, disk.history, EspPaths(), iset{target, Tmp(target)}, EspPaths());
          if !ok {
            return false;
          }
          TurnCopies(f0, f1, disk.files, initrds, keys, i);
        }
      }
      ok := true;
      StandingIsCopied(f0, disk.files, initrds, keys);
    }

    /** What no entry claims may go. */
    ghost function Stale(): iset<Path>
      reads this
    {
      StalePaths(initrds)
    }

    /** Nothing on the ESP is stale but what these names from `i` on tell. */
    ghost predicate StaleFrom(names: seq<string>, i: nat)
      reads this, disk
    {
      forall p | p in disk.files && p in Stale() :: exists j :: i <= j < |names| && p.name == names[j]
    }

    /** One name of the ESP's kernel directory. */
    method RemoveIfStale(ghost names: seq<string>, ghost i: nat, name: string) returns (ok: bool)
      requires Valid() && i < |names| && names[i] == name && StaleFrom(names, i)
      modifies disk
      ensures Valid() && Removes(old(disk.history), disk.history, Stale()) && disk.faults >= old(disk.faults)
      ensures Shrunk(old(disk.files), disk.files)
      ensures disk.faults == old(disk.faults) ==> ok
      ensures ok ==> StaleFrom(names, i + 1)
    {
      ghost var h0 := disk.history;
      ok := true;
      var p := Path(EspKernels, name);
      if HasPrefix(name, Key("")) && name !in initrds && p in disk.files {
        ok := disk.Unlink(p);
        RemovesThen(h0, disk.history, disk.history, iset{p}, iset{}, Stale());
      }
    }

    method RemoveOld() returns (ok: bool)
      requires Valid()
      modifies disk
      ensures Valid() && Removes(old(disk.history), disk.history, Stale()) && disk.faults >= old(disk.faults)
      ensures Shrunk(old(disk.files), disk.files)
      ensures disk.faults == old(disk.faults) ==> ok
      ensures ok ==> forall p | p in disk.files && p in EspPaths() :: p.name in initrds
      ensures ok ==> forall name | HasPrefix(name, "freestanding-") && name !in initrds ::
                       Path(EspKernels, name) !in disk.files
    {
      ok := disk.Try();
      if !ok {
        return;
      }
      ghost var h0 := disk.history;
      var present := set p | p in disk.files && p.area == EspKernels :: p.name;
      var names := disk.order(present);
      assert forall p | p in disk.files && p in EspPaths() :: p.name in present && p.name in names;
      for i := 0 to |names|
        invariant Valid() && Removes(h0, disk.history, Stale()) && disk.faults >= old(disk.faults)
        invariant Shrunk(old(disk.files), disk.files) && StaleFrom(names, i)
      {
        ghost var h1 := disk.history;
        ok := RemoveIfStale(names, i, names[i]);
        RemovesThen(h0, h1, disk.history, Stale(), Stale(), Stale());
        if !ok {
          return false;
        }
      }
      assert forall p | p in disk.files && p in EspPaths() && p.name !in initrds :: p in Stale();
      forall name | HasPrefix(name, "freestanding-") && name !in initrds
        ensures Path(EspKernels, name) !in disk.files
      {
        StaleIs(initrds, name);
      }
    }
  }

  /** Copies are a matter of the sources and of themselves. */
  lemma CopiesFrame(m: Overlay, f: Files, g: Files, fp: iset<Path>)
    requires Frame(f, g, fp) && AreCopied(f, m)
    requires forall key | IsUnmasked(m, key) :: Path(EspKernels, key) !in fp && SourceOf(m, key) !in fp
    ensures AreCopied(g, m)
  {
    forall key | IsUnmasked(m, key)
      ensures IsCopied(g, m, key)
    {
      assert Same(f, g, SourceOf(m, key)) && Same(f, g, Path(EspKernels, key)) && IsCopied(f, m, key);
    }
  }

  lemma {:induction false} StandingIsCopied(before: Files, now: Files, m: Overlay, keys: seq<string>)
    requires Lists(keys, m.Keys) && AllStand(before, now, m, keys, |keys|)
    ensures forall i | 0 <= i < |keys| && IsUnmasked(m, keys[i]) ::
              IsCopied(now, m, keys[i]) <==> !StagedOver(before, m, keys, i, i + 1, |keys|)
    ensures StagesApart(before, m) ==> AreCopied(now, m)
  {
    forall i | 0 <= i < |keys| && IsUnmasked(m, keys[i])
      ensures IsCopied(now, m, keys[i]) <==> !StagedOver(before, m, keys, i, i + 1, |keys|)
    {
      assert Stands(before, now, m, keys, i, |keys|);
    }
    CopiesStandIff(before, m);
    assert forall key | IsUnmasked(m, key) :: key in keys;
  }

  lemma StagingIsFreestanding(key: string)
    requires HasPrefix(key, Key(""))
    ensures Path(EspKernels, key) in EspPaths() && Tmp(Path(EspKernels, key)) in EspPaths()
  {
    assert (key + ".TmpWrite")[..|Key("")|] == key[..|Key("")|];
  }

  /** The copy on the ESP is that of the user's file, or without one of the system's, unless a link masks the name. */
  lemma CopiedFrom(files: Files, nullLinks: set<Path>, m: Overlay, now: Files, name: string)
    requires IsDecided(files, nullLinks, m, name) && AreCopied(now, m)
    ensures var user, system := Path(UserFreestandingDir, name), Path(FreestandingDir, name);
            var source := if HasFile(files, UserFreestandingDir, name) then user else system;
            source in files && files[source] != "" && user !in nullLinks && (source == user || system !in nullLinks) ==>
              Match(now, source, Path(EspKernels, "freestanding-" + name))
  {
    if IsUnmasked(m, "freestanding-" + name) {
      assert IsCopied(now, m, "freestanding-" + name);
    }
  }

  /** Of the files and masks of one name, the user's wins. */
  lemma UserOverSystem(files: Files, nullLinks: set<Path>, name: string)
    ensures var m := FromDir(files, nullLinks, FreestandingDir) + FromDir(files, nullLinks, UserFreestandingDir);
            var user := Usable(files, nullLinks, UserFreestandingDir);
            var system := Usable(files, nullLinks, FreestandingDir);
            && (Key(name) in m <==> name in user || name in system)
            && (name in user ==> m[Key(name)] == EntryFor(nullLinks, UserFreestandingDir, name))
            && (name in system && name !in user ==> m[Key(name)] == EntryFor(nullLinks, FreestandingDir, name))
  {
    NameOfKey(name);
    FromDirHas(files, nullLinks, FreestandingDir, name);
    FromDirHas(files, nullLinks, UserFreestandingDir, name);
  }

  lemma FromDirHas(files: Files, nullLinks: set<Path>, dir: Area, name: string)
    ensures Key(name) in FromDir(files, nullLinks, dir) <==> name in Usable(files, nullLinks, dir)
    ensures name in Usable(files, nullLinks, dir) ==>
              FromDir(files, nullLinks, dir)[Key(name)] == EntryFor(nullLinks, dir, name)
  {
    NameOfKey(name);
    forall n | n in Usable(files, nullLinks, dir) && Key(n) == Key(name)
      ensures n == name
    {
      KeysDiffer(n, name);
    }
  }

  lemma {:induction false} UnmaskedCounts(m: Overlay, keys: seq<string>, written: Option<string>, key: string)
    ensures multiset(Unmasked(m, keys, written))[key]
            == if IsUnmasked(m, key) && written != Some(key) then multiset(keys)[key] else 0
  {
    if keys != [] {
      UnmaskedCounts(m, keys[1..], written, key);
      assert keys == [keys[0]] + keys[1..];
    }
  }

  lemma {:induction false} CountInList(keys: seq<string>, key: string)
    requires forall i, j | 0 <= i < j < |keys| :: keys[i] != keys[j]
    ensures multiset(keys)[key] == if key in keys then 1 else 0
  {
    if keys != [] {
      assert keys == [keys[0]] + keys[1..];
      CountInList(keys[1..], key);
      assert forall i | 0 < i < |keys| :: keys[i] == keys[1..][i - 1];
    }
  }

  /** A boot entry starts with the early microcode, and lists every unmasked freestanding initrd once
      and no masked one, whatever order the hash map is walked in. */
  lemma EntryListsEachOnce(m: Overlay, keys: seq<string>, ucode: Option<string>, own: Option<string>,
                           extras: seq<string>, key: string)
    requires Lists(keys, m.Keys) && (ucode.Some? ==> IsUnmasked(m, ucode.value))
    requires own != Some(key) && key !in extras
    ensures multiset(EntryInitrds(m, keys, ucode, own, extras))[key] == if IsUnmasked(m, key) then 1 else 0
    ensures ucode.Some? ==> EntryInitrds(m, keys, ucode, own, extras)[0] == ucode.value
  {
    UnmaskedCounts(m, keys, ucode, key);
    CountInList(keys, key);
    assert multiset(extras)[key] == 0;
  }

  /** Which initrds an entry lists, in order: first the microcode, directly behind it the kernel's own, then its extras
      as they come, and behind these unmasked freestanding ones. */
  lemma EntryOrder(m: Overlay, keys: seq<string>, ucode: Option<string>, own: Option<string>, extras: seq<string>)
    ensures var all := EntryInitrds(m, keys, ucode, own, extras);
            var first := if ucode.Some? then 1 else 0;
            var next := if own.Some? then first + 1 else first;
            && next + |extras| <= |all|
            && (ucode.Some? ==> all[0] == ucode.value)
            && (own.Some? ==> all[first] == own.value)
            && (forall j | 0 <= j < |extras| :: all[next + j] == extras[j])
            && (forall j | next + |extras| <= j < |all| :: IsUnmasked(m, all[j]))
  {
    var all := EntryInitrds(m, keys, ucode, own, extras);
    var n := |OptSeq(ucode)| + |OptSeq(own)| + |extras|;
    forall j | n <= j < |all|
      ensures IsUnmasked(m, all[j])
    {
      assert all[j] == Unmasked(m, keys, ucode)[j - n] && all[j] in Unmasked(m, keys, ucode);
      UnmaskedIsUnmasked(m, keys, ucode, all[j]);
    }
  }

  lemma {:induction false} UnmaskedIsUnmasked(m: Overlay, keys: seq<string>, written: Option<string>, name: string)
    requires name in Unmasked(m, keys, written)
    ensures IsUnmasked(m, name)
  {
    if keys != [] && !(IsUnmasked(m, keys[0]) && written != Some(keys[0]) && name == keys[0]) {
      UnmaskedIsUnmasked(m, keys[1..], written, name);
    }
  }
}
