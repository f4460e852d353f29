/** The identity of a kernel (type, version, release) and every file name generated from it. */
module Names {
  import opened Text
  import opened Disks

  /** `release` is the number as it stands in the file name; the C code stores it as an int16_t. */
  datatype Ident = Ident(ktype: string, version: string, release: int)

  /** The build-time strings: kernel namespace and vendor prefix. */
  /** `usrModules` tells whether the module directory lies below /usr. */
  datatype Build = Build(namespace: string, vendor: string, usrModules: bool)

  const GLOB_META: string := "*?[\\"

  predicate Canonical(id: Ident) {
    && 1 <= |id.ktype| <= 31 && '.' !in id.ktype
    && 1 <= |id.version| <= 15 && '-' !in id.version
    && 0 <= id.release < 0x8000
    && (forall c | c in GLOB_META :: c !in id.ktype && c !in id.version)
  }

  /** i.e. "4.2.1-121.kvm", which is also the kernel's uname */
  function Uname(id: Ident): string {
    id.version + "-" + PrintInt(id.release) + "." + id.ktype
  }

  /** The older name of a module directory, which kernels of all types share. */
  function UntypedName(id: Ident): string {
    id.version + "-" + PrintInt(id.release)
  }

  /** i.e. "org.clearlinux.kvm.4.2.1-121" */
  function KernelName(b: Build, id: Ident): string {
    b.namespace + "." + id.ktype + "." + id.version + "-" + PrintInt(id.release)
  }

  function CmdlineName(id: Ident): string { "cmdline-" + Uname(id) }
  function ConfigName(id: Ident): string { "config-" + Uname(id) }
  function SystemMapName(id: Ident): string { "System.map-" + Uname(id) }
  function VmlinuxName(id: Ident): string { "vmlinux-" + Uname(id) }
  function HeadersName(id: Ident): string { "linux-headers-" + Uname(id) }
  function MarkerName(id: Ident): string { "k_booted_" + Uname(id) }
  function InitrdName(b: Build, id: Ident): string { "initrd-" + KernelName(b, id) }
  function TargetName(b: Build, id: Ident): string { "kernel-" + KernelName(b, id) }

  /** i.e. "Clear-linux-native-4.1.6-113.conf" */
  function EntryName(b: Build, id: Ident): string {
    b.vendor + "-" + id.ktype + "-" + id.version + "-" + PrintInt(id.release) + ".conf"
  }

  // ----- reading names back -----

  /** The last two fields of a kernel's file name: "%15[^-]-%d". */
  function ParseVersionRelease(ktype: string, s: string): Option<Ident> {
    var j := IndexOf(s, '-');
    if j < 1 || j > 15 || j == |s| then None
    else
      var (release, used) := Strtol(s[j + 1..]);
      if used == 0 then None else Some(Ident(ktype, s[..j], release))
  }

  /** The part behind the namespace: "%31[^.].%15[^-]-%d". */
  function ParseFields(s: string): Option<Ident> {
    var i := IndexOf(s, '.');
    if i < 1 || i > 31 || i == |s| then None else ParseVersionRelease(s[..i], s[i + 1..])
  }

  /** The sscanf of a kernel's file name: "NAMESPACE.%31[^.].%15[^-]-%d". */
  function ParseKernelName(b: Build, name: string): Option<Ident> {
    if HasPrefix(name, b.namespace + ".") then ParseFields(name[|b.namespace| + 1..]) else None
  }

  /** What cbm_parse_system_kernel makes of the text behind the version: "release.type". */
  function ParseReleaseType(version: string, s: string): Option<Ident> {
    var i := IndexOf(s, '.');
    if i == |s| || i + 1 >= 31 || i < 1 then None
    else
      var (release, used) := Strtol(s[..i]);
      var len := |s| - i - 1;
      if used == 0 || len < 1 || len + 1 > 31 then None
      else Some(Ident(s[i + 1..], version, Int16(ToLong(release))))
  }

  /** cbm_parse_system_kernel */
  function ParseUname(inp: string): Option<Ident> {
    var c := IndexOf(inp, '-');
    if c == |inp| || c >= 31 || c < 1 then None else ParseReleaseType(inp[..c], inp[c + 1..])
  }

  lemma {:induction false} VersionReleaseReadsBack(ktype: string, version: string, release: nat)
    requires 1 <= |version| <= 15 && '-' !in version
    ensures ParseVersionRelease(ktype, version + "-" + Decimal(release)) == Some(Ident(ktype, version, release))
  {
    var d := Decimal(release);
    var s := version + "-" + d;
    IndexOfIs(version, '-', d);
    assert s[..|version|] == version && s[|version| + 1..] == d;
    StrtolReadsBack(release, "");
    assert d + "" == d;
  }

  lemma {:induction false} IdentReadsBack(ktype: string, version: string, release: nat)
    requires 1 <= |ktype| <= 31 && '.' !in ktype
    requires 1 <= |version| <= 15 && '-' !in version
    ensures ParseFields(ktype + "." + (version + "-" + Decimal(release))) == Some(Ident(ktype, version, release))
  {
    var rest := version + "-" + Decimal(release);
    var s := ktype + "." + rest;
    IndexOfIs(ktype, '.', rest);
    assert s[..|ktype|] == ktype && s[|ktype| + 1..] == rest;
    VersionReleaseReadsBack(ktype, version, release);
  }

  /** The namespace, then the fields. */
  lemma KernelNameSplits(b: Build, id: Ident)
    ensures KernelName(b, id) == (b.namespace + ".") + (id.ktype + "." + (id.version + "-" + PrintInt(id.release)))
  {
  }

  lemma HeadAndTail(a: string, z: string)
    ensures (a + z)[..|a|] == a && (a + z)[|a|..] == z
  {
  }

  /** A file name generated from a canonical identity is read back as that identity. */
  lemma KernelNameReadsBack(b: Build, id: Ident)
    requires Canonical(id)
    ensures ParseKernelName(b, KernelName(b, id)) == Some(id)
  {
    KernelNameSplits(b, id);
    HeadAndTail(b.namespace + ".", id.ktype + "." + (id.version + "-" + PrintInt(id.release)));
    IdentReadsBack(id.ktype, id.version, id.release);
  }

  lemma ReleaseTypeReadsBack(id: Ident)
    requires Canonical(id)
    ensures ParseReleaseType(id.version, Decimal(id.release) + "." + id.ktype)
            == if |id.ktype| <= 30 then Some(id) else None
  {
    var d := Decimal(id.release);
    var s := d + "." + id.ktype;
    DecimalShort(id.release);
    IndexOfIs(d, '.', id.ktype);
    assert s[..|d|] == d && s[|d| + 1..] == id.ktype;
    StrtolReadsBack(id.release, "");
    assert d + "" == d;
  }

  /** A canonical uname is read back as its identity exactly when the type has at most 30 characters,
      one less than a kernel's file name may have. */
  lemma UnameReadsBack(id: Ident)
    requires Canonical(id)
    ensures ParseUname(Uname(id)) == if |id.ktype| <= 30 then Some(id) else None
  {
    var r := Decimal(id.release) + "." + id.ktype;
    var u := Uname(id);
    assert u == id.version + "-" + r;
    IndexOfIs(id.version, '-', r);
    assert u[|id.version| + 1..] == r && u[..|id.version|] == id.version;
    ReleaseTypeReadsBack(id);
  }

  lemma {:induction false} DecimalShort(n: nat)
    requires n < 0x8000
    ensures |Decimal(n)| <= 5
  {
    var a := n / 10;
    var b := a / 10;
    var c := b / 10;
    assert c / 10 < 10;
    assert |Decimal(c)| <= 2;
    assert |Decimal(b)| <= 3;
    assert |Decimal(a)| <= 4;
  }

  // ----- no two kernels share a name -----

  /** Kernel names with a tail that does not start with a digit (nothing, ".TmpWrite", or the
      extension of an extra initrd) still determine the kernel. */
  lemma KernelNameDetermines(b: Build, id1: Ident, x1: string, id2: Ident, x2: string)
    requires Canonical(id1) && Canonical(id2)
    requires x1 == "" || !IsDigit(x1[0])
    requires x2 == "" || !IsDigit(x2[0])
    requires KernelName(b, id1) + x1 == KernelName(b, id2) + x2
    ensures id1 == id2 && x1 == x2
  {
    var d1, d2 := Decimal(id1.release), Decimal(id2.release);
    var t1, t2 := id1.version + "-" + (d1 + x1), id2.version + "-" + (d2 + x2);
    TailOfName(b, id1, x1);
    TailOfName(b, id2, x2);
    SplitFirst(id1.ktype, t1, id2.ktype, t2, '.');
    SplitFirst(id1.version, d1 + x1, id2.version, d2 + x2, '-');
    NumberAndTail(id1.release, x1, id2.release, x2);
  }

  lemma TailOfName(b: Build, id: Ident, x: string)
    ensures (KernelName(b, id) + x)[|b.namespace| + 1..] ==
            id.ktype + "." + (id.version + "-" + (PrintInt(id.release) + x))
  {
    var t := id.ktype + "." + (id.version + "-" + (PrintInt(id.release) + x));
    assert KernelName(b, id) + x == (b.namespace + ".") + t;
    HeadAndTail(b.namespace + ".", t);
  }

  lemma {:induction false} NumberAndTail(m: nat, x: string, n: nat, y: string)
    requires x == "" || !IsDigit(x[0])
    requires y == "" || !IsDigit(y[0])
    requires Decimal(m) + x == Decimal(n) + y
    ensures m == n && x == y
  {
    DigitRunIs(Decimal(m), x);
    DigitRunIs(Decimal(n), y);
    DecimalInjective(m, n);
    HeadAndTail(Decimal(m), x);
    HeadAndTail(Decimal(n), y);
  }

  lemma UnameDetermines(id1: Ident, id2: Ident)
    requires Canonical(id1) && Canonical(id2)
    requires Uname(id1) == Uname(id2)
    ensures id1 == id2
  {
    var d1, d2 := Decimal(id1.release), Decimal(id2.release);
    assert Uname(id1) == id1.version + "-" + (d1 + "." + id1.ktype);
    assert Uname(id2) == id2.version + "-" + (d2 + "." + id2.ktype);
    SplitFirst(id1.version, d1 + "." + id1.ktype, id2.version, d2 + "." + id2.ktype, '-');
    SplitFirst(d1, id1.ktype, d2, id2.ktype, '.');
    DecimalInjective(id1.release, id2.release);
  }

  /** An untyped module directory tells version and release, and is nobody's typed one. */
  lemma UntypedDetermines(id1: Ident, id2: Ident)
    requires Canonical(id1) && Canonical(id2)
    ensures UntypedName(id1) == UntypedName(id2) <==> id1.version == id2.version && id1.release == id2.release
    ensures UntypedName(id1) != Uname(id2)
  {
    var d1, d2 := Decimal(id1.release), Decimal(id2.release);
    assert (d2 + "." + id2.ktype)[|d2|] == '.' && '.' !in d1;
    if UntypedName(id1) == UntypedName(id2) {
      SplitFirst(id1.version, d1, id2.version, d2, '-');
      DecimalInjective(id1.release, id2.release);
    }
    if UntypedName(id1) == Uname(id2) {
      assert Uname(id2) == id2.version + "-" + (d2 + "." + id2.ktype);
      SplitFirst(id1.version, d1, id2.version, d2 + "." + id2.ktype, '-');
      assert false;
    }
  }

  /** Loader entries are told apart from the end, so types and the vendor prefix may hold dashes. */
  lemma EntryNameDetermines(b: Build, id1: Ident, id2: Ident)
    requires Canonical(id1) && Canonical(id2)
    requires EntryName(b, id1) == EntryName(b, id2)
    ensures id1 == id2
  {
    var d1, d2 := Decimal(id1.release), Decimal(id2.release);
    var t1, t2 := b.vendor + "-" + id1.ktype, b.vendor + "-" + id2.ktype;
    var v1, v2 := t1 + "-" + id1.version, t2 + "-" + id2.version;
    var n1, n2 := EntryName(b, id1), EntryName(b, id2);
    assert n1 == (v1 + "-" + d1) + ".conf" && n2 == (v2 + "-" + d2) + ".conf";
    assert v1 + "-" + d1 == n1[..|n1| - 5] && v2 + "-" + d2 == n2[..|n2| - 5];
    SplitLast(v1, d1, v2, d2, '-');
    SplitLast(t1, id1.version, t2, id2.version, '-');
    assert id1.ktype == t1[|b.vendor| + 1..] && id2.ktype == t2[|b.vendor| + 1..];
    DecimalInjective(id1.release, id2.release);
  }

  // ----- ownership -----

  /** The first words of the names found in the kernel directory. */
  function Stem(b: Build, kind: nat): string
    requires kind < 6
  {
    match kind
    case 0 => b.namespace + "."
    case 1 => "cmdline-"
    case 2 => "config-"
    case 3 => "System.map-"
    case 4 => "vmlinux-"
    case _ => "initrd-"
  }

  /** The namespace cannot be mistaken for one of the other prefixes in the kernel directory. */
  ghost predicate SaneBuild(b: Build) {
    forall kind: nat | 1 <= kind < 6 :: Diverge(Stem(b, 0), Stem(b, kind))
  }

  /** The name is `base` or matched by the glob `base.*`. */
  predicate IsOrExtends(name: string, base: string) {
    name == base || HasPrefix(name, base + ".")
  }

  /** The files that bear the identity of a kernel, in every directory. */
  predicate Owns(b: Build, id: Ident, p: Path) {
    match p.area
    case KernelDir =>
      || p.name == KernelName(b, id)
      || p.name == CmdlineName(id)
      || p.name == ConfigName(id)
      || p.name == SystemMapName(id)
      || p.name == VmlinuxName(id)
      || IsOrExtends(p.name, InitrdName(b, id))
    case UserInitrdDir => IsOrExtends(p.name, InitrdName(b, id))
    case ModuleDir => p.name == Uname(id)
    case OldModuleDir => p.name == Uname(id)
    case HeaderDir => p.name == HeadersName(id)
    case MarkerDir => p.name == MarkerName(id)
    case EspKernels => IsOrExtends(p.name, TargetName(b, id)) || IsOrExtends(p.name, InitrdName(b, id))
    case EspRoot => p.name == KernelName(b, id) || p.name == InitrdName(b, id)
    case LoaderEntries => p.name == EntryName(b, id)
    case _ => false
  }

  ghost function Owned(b: Build, id: Ident): iset<Path> {
    iset p | Owns(b, id, p)
  }

  /** Names with the same literal in front, one of them followed by a kernel name and an extension. */
  lemma ExtensionsDetermine(b: Build, lit: string, id1: Ident, id2: Ident, name: string)
    requires Canonical(id1) && Canonical(id2)
    requires IsOrExtends(name, lit + KernelName(b, id1)) && IsOrExtends(name, lit + KernelName(b, id2))
    ensures id1 == id2
  {
    var x1 := ExtensionOf(name, lit, KernelName(b, id1));
    var x2 := ExtensionOf(name, lit, KernelName(b, id2));
    KernelNameDetermines(b, id1, x1, id2, x2);
  }

  lemma ExtensionOf(name: string, lit: string, stem: string) returns (x: string)
    requires IsOrExtends(name, lit + stem)
    ensures name[..|lit|] == lit && name[|lit|..] == stem + x
    ensures x == "" || x[0] == '.'
  {
    x := name[|lit + stem|..];
    if name != lit + stem {
      assert name[..|lit + stem| + 1] == lit + stem + ".";
      assert name == (lit + stem + ".") + name[|lit + stem| + 1..];
    }
    assert name == lit + (stem + x);
  }

  /** Which family a name in the kernel directory belongs to. */
  ghost predicate OfKind(b: Build, id: Ident, kind: nat, name: string)
    requires kind < 6
  {
    match kind
    case 0 => name == KernelName(b, id)
    case 5 => IsOrExtends(name, InitrdName(b, id))
    case _ => name == Stem(b, kind) + Uname(id)
  }

  lemma KindHasStem(b: Build, id: Ident, kind: nat, name: string) returns (tail: string)
    requires kind < 6 && OfKind(b, id, kind, name)
    ensures name == Stem(b, kind) + tail
  {
    tail := name[|Stem(b, kind)|..];
    if kind == 0 {
      assert name == Stem(b, 0) + (id.ktype + "." + id.version + "-" + PrintInt(id.release));
    } else if kind == 5 {
      assert name[..|InitrdName(b, id)|] == InitrdName(b, id);
      assert name[..|Stem(b, 5)|] == InitrdName(b, id)[..|Stem(b, 5)|];
    }
  }

  lemma StemsDiverge(b: Build, j: nat, k: nat)
    requires SaneBuild(b) && j < k < 6
    ensures Diverge(Stem(b, j), Stem(b, k))
  {
    if j == 0 {
    } else if j == 1 && k == 2 {
      assert "cmdline-"[1] != "config-"[1];
    } else {
      assert Stem(b, j)[0] != Stem(b, k)[0];
    }
  }

  lemma KindsDisjoint(b: Build, id1: Ident, j: nat, id2: Ident, k: nat, name: string)
    requires SaneBuild(b) && Canonical(id1) && Canonical(id2)
    requires j < 6 && k < 6 && OfKind(b, id1, j, name) && OfKind(b, id2, k, name)
    ensures id1 == id2
  {
    var x := KindHasStem(b, id1, j, name);
    var y := KindHasStem(b, id2, k, name);
    if j < k {
      StemsDiverge(b, j, k);
      DivergeExtends(Stem(b, j), x, Stem(b, k), y);
      assert false;
    } else if k < j {
      StemsDiverge(b, k, j);
      DivergeExtends(Stem(b, k), y, Stem(b, j), x);
      assert false;
    } else if j == 0 {
      ExtensionsDetermine(b, "", id1, id2, name);
    } else if j == 5 {
      ExtensionsDetermine(b, "initrd-", id1, id2, name);
    } else {
      assert Uname(id1) == name[|Stem(b, j)|..] && Uname(id2) == name[|Stem(b, j)|..];
      UnameDetermines(id1, id2);
    }
  }

  lemma KernelDirKind(b: Build, id: Ident, name: string) returns (kind: nat)
    requires Owns(b, id, Path(KernelDir, name))
    ensures kind < 6 && OfKind(b, id, kind, name)
  {
    kind :=
      if name == KernelName(b, id) then 0
      else if name == CmdlineName(id) then 1
      else if name == ConfigName(id) then 2
      else if name == SystemMapName(id) then 3
      else if name == VmlinuxName(id) then 4
      else 5;
  }

  /** Two canonical kernels never share a file, be it a source, an installed copy, an extra initrd, a
      boot marker or a loader entry; in particular neither one's `initrd-….*` glob matches a file of
      the other. */
  lemma OwnershipDisjoint(b: Build, id1: Ident, id2: Ident, p: Path)
    requires SaneBuild(b) && Canonical(id1) && Canonical(id2)
    requires Owns(b, id1, p) && Owns(b, id2, p)
    ensures id1 == id2
  {
    match p.area
    case KernelDir =>
      var j := KernelDirKind(b, id1, p.name);
      var k := KernelDirKind(b, id2, p.name);
      KindsDisjoint(b, id1, j, id2, k, p.name);
    case UserInitrdDir =>
      ExtensionsDetermine(b, "initrd-", id1, id2, p.name);
    case ModuleDir =>
      UnameDetermines(id1, id2);
    case OldModuleDir =>
      UnameDetermines(id1, id2);
    case HeaderDir =>
      assert Uname(id1) == p.name[|"linux-headers-"|..] && Uname(id2) == p.name[|"linux-headers-"|..];
      UnameDetermines(id1, id2);
    case MarkerDir =>
      assert Uname(id1) == p.name[|"k_booted_"|..] && Uname(id2) == p.name[|"k_booted_"|..];
      UnameDetermines(id1, id2);
    case EspKernels =>
      EspDisjoint(b, id1, id2, p.name);
    case EspRoot =>
      EspRootDisjoint(b, id1, id2, p.name);
    case LoaderEntries =>
      EntryNameDetermines(b, id1, id2);
    case _ =>
  }

  lemma FirstChar(name: string, base: string)
    requires base != "" && IsOrExtends(name, base)
    ensures name != "" && name[0] == base[0]
  {
    assert name[0] == name[..|base|][0];
  }

  lemma EspDisjoint(b: Build, id1: Ident, id2: Ident, name: string)
    requires Canonical(id1) && Canonical(id2)
    requires IsOrExtends(name, TargetName(b, id1)) || IsOrExtends(name, InitrdName(b, id1))
    requires IsOrExtends(name, TargetName(b, id2)) || IsOrExtends(name, InitrdName(b, id2))
    ensures id1 == id2
  {
    assert TargetName(b, id1)[0] == 'k' == TargetName(b, id2)[0];
    assert InitrdName(b, id1)[0] == 'i' == InitrdName(b, id2)[0];
    if IsOrExtends(name, TargetName(b, id1)) {
      FirstChar(name, TargetName(b, id1));
      if IsOrExtends(name, InitrdName(b, id2)) {
        FirstChar(name, InitrdName(b, id2));
      }
      ExtensionsDetermine(b, "kernel-", id1, id2, name);
    } else {
      FirstChar(name, InitrdName(b, id1));
      if IsOrExtends(name, TargetName(b, id2)) {
        FirstChar(name, TargetName(b, id2));
      }
      ExtensionsDetermine(b, "initrd-", id1, id2, name);
    }
  }

  lemma EspRootDisjoint(b: Build, id1: Ident, id2: Ident, name: string)
    requires SaneBuild(b) && Canonical(id1) && Canonical(id2)
    requires name == KernelName(b, id1) || name == InitrdName(b, id1)
    requires name == KernelName(b, id2) || name == InitrdName(b, id2)
    ensures id1 == id2
  {
    var j := if name == KernelName(b, id1) then 0 else 5;
    var k := if name == KernelName(b, id2) then 0 else 5;
    KindsDisjoint(b, id1, j, id2, k, name);
  }
}
