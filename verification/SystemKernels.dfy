/** The kernel the machine was booted with: its uname parsed into fixed buffers, and the marker that reports
    a successful boot. */
module SystemKernels {
  import opened Text
  import opened Util
  import opened Disks
  import opened Names
  import opened Kernels

  const KELEM_LEN: nat := 31

  class SystemKernel {
    const version: array<char>
    const ktype: array<char>
    var release: int

    constructor ()
      ensures Valid() && fresh(version) && fresh(ktype)
    {
      version := new char[KELEM_LEN + 1](i => NUL);
      ktype := new char[KELEM_LEN + 1](i => NUL);
      release := 0;
    }

    ghost predicate Valid()
      reads this
    {
      version != ktype && version.Length == KELEM_LEN + 1 && ktype.Length == KELEM_LEN + 1
    }

    /** The buffers hold the strings of the identity, NUL-terminated. */
    ghost predicate IsIdent(id: Ident)
      reads this, version, ktype
    {
      && HoldsString(version, id.version) && HoldsString(ktype, id.ktype)
      && release == id.release
    }

    /** cbm_parse_system_kernel; every write stays inside its buffer. */
    method Parse(inp: string) returns (ok: bool)
      requires Valid() && NulFree(inp)
      modifies this, version, ktype
      ensures Valid() && (ok <==> ParseUname(inp).Some?)
      ensures ok ==> IsIdent(ParseUname(inp).value)
    {
      Clear(version);
      Clear(ktype);
      release := 0;
      var c := IndexOf(inp, '-');
      if c == |inp| || c >= KELEM_LEN || c + 1 == |inp| {
        EmptyRest(inp, c);
        return false;
      }
      var rest := inp[c + 1..];
      var i := IndexOf(rest, '.');
      if i == |rest| || i + 1 >= KELEM_LEN || c < 1 {
        return false;
      }
      StringCopy(version, inp[..c]);
      ok := ParseRest(inp[..c], rest, i);
    }

    /** The release, then the type. */
    method ParseRest(ghost ver: string, rest: string, i: nat) returns (ok: bool)
      requires Valid() && i == IndexOf(rest, '.') && i < |rest| && i + 1 < KELEM_LEN
      requires HoldsString(version, ver) && forall j | 0 <= j < ktype.Length :: ktype[j] == NUL
      modifies this, ktype
      ensures Valid() && (ok <==> ParseReleaseType(ver, rest).Some?)
      ensures ok ==> IsIdent(ParseReleaseType(ver, rest).value)
    {
      if i < 1 {
        return false;
      }
      var krelease := new char[KELEM_LEN + 1](j => NUL);
      StringCopy(krelease, rest[..i]);
      var (number, used) := Strtol(krelease[..i]);
      if used == 0 {
        return false;
      }
      release := Int16(ToLong(number));
      var len := |rest| - i - 1;
      if len < 1 || len + 1 > KELEM_LEN {
        return false;
      }
      StringCopy(ktype, rest[i + 1..]);
      ok := true;
    }
  }

  ghost predicate HoldsString(buf: array<char>, s: string)
    reads buf
  {
    |s| < buf.Length && buf[..|s|] == s && buf[|s|] == NUL
  }

  /** memset */
  method Clear(buf: array<char>)
    modifies buf
    ensures forall j | 0 <= j < buf.Length :: buf[j] == NUL
  {
    forall j | 0 <= j < buf.Length {
      buf[j] := NUL;
    }
  }

  /** strncpy of the characters of `s`, and a terminator one past where it would be needed: the buffer has
      been cleared before. */
  method StringCopy(buf: array<char>, s: string)
    requires |s| + 1 < buf.Length && forall j | 0 <= j < buf.Length :: buf[j] == NUL
    modifies buf
    ensures HoldsString(buf, s)
  {
    forall j | 0 <= j < |s| {
      buf[j] := s[j];
    }
    buf[|s| + 1] := NUL;
  }

  /** Nothing behind the dash is no release. */
  lemma EmptyRest(inp: string, c: nat)
    requires c == IndexOf(inp, '-') && (c == |inp| || c >= KELEM_LEN || c + 1 == |inp|)
    ensures ParseUname(inp).None?
  {
    if 1 <= c < KELEM_LEN && c + 1 == |inp| {
      assert inp[c + 1..] == "";
      assert IndexOf("", '.') == 0;
    }
  }

  // ----- reporting a boot -----

  const MARKER_TEXT: string := "clr-boot-manager file\n"

  function MarkerPath(id: Ident): Path {
    Path(MarkerDir, MarkerName(id))
  }

  /** cbm_command_report_booted, on a native root. */
  method ReportBooted(disk: Disk, release: string) returns (ok: bool)
    requires disk.Valid() && NulFree(release)
    modifies disk
    ensures disk.Valid()
    ensures ok ==> ParseUname(release).Some? && disk.files == Marked(old(disk.files), ParseUname(release).value)
    ensures ParseUname(release).None? ==> !ok && disk.history == old(disk.history)
    ensures ParseUname(release).Some? && disk.faults == old(disk.faults) ==> ok
  {
    var sys := new SystemKernel();
    ok := sys.Parse(release);
    if !ok {
      return;
    }
    ghost var id := ParseUname(release).value;
    var version := TextOf(sys.version, id.version);
    var ktype := TextOf(sys.ktype, id.ktype);
    ok := disk.FileSetText(MarkerPath(Ident(ktype, version, sys.release)), MARKER_TEXT);
  }

  /** The string in a buffer. */
  method TextOf(buf: array<char>, ghost s: string) returns (r: string)
    requires HoldsString(buf, s) && NulFree(s)
    ensures r == s
  {
    assert forall j | 0 <= j < |s| :: buf[j] == buf[..|s|][j];
    var n := StrLen(buf, 0, |s|);
    r := buf[..n];
  }

  /** Once the kernel of this identity has reported itself. */
  function AsReported(k: Kernel, id: Ident): Kernel {
    k.(boots := k.boots || k.id == id)
  }

  lemma MarkersDiffer(id1: Ident, id2: Ident)
    requires Canonical(id1) && Canonical(id2) && MarkerName(id1) == MarkerName(id2)
    ensures id1 == id2
  {
    assert Uname(id1) == MarkerName(id1)[|"k_booted_"|..] && Uname(id2) == MarkerName(id2)[|"k_booted_"|..];
    UnameDetermines(id1, id2);
  }

  /** The disk with the marker of this identity in place. */
  function Marked(f: Files, id: Ident): Files {
    f[MarkerPath(id) := MARKER_TEXT]
  }

  lemma MarkedIn(f: Files, id: Ident, other: Ident)
    requires Canonical(id) && Canonical(other)
    ensures MarkerPath(other) in Marked(f, id) <==> MarkerPath(other) in f || other == id
  {
    if MarkerName(other) == MarkerName(id) {
      MarkersDiffer(other, id);
    }
  }

  lemma MarkerFlags(f: Files, id: Ident, k: Kernel)
    requires Canonical(id) && Canonical(k.id) && k.release == k.id.release && (k.boots <==> MarkerOf(k) in f)
    ensures AsReported(k, id) == k.(boots := MarkerOf(k) in Marked(f, id))
  {
    assert MetaIdent(k) == k.id;
    MarkedIn(f, id, k.id);
  }

  /** The same kernels, with exactly the reported one flagged beyond those flagged before. */
  ghost predicate FlagsOne(before: iset<Kernel>, after: iset<Kernel>, id: Ident) {
    && (forall k | k in before :: AsReported(k, id) in after)
    && (forall k | k in after :: exists j :: j in before && k == AsReported(j, id))
  }

  lemma RemarkedFlagsOne(b: Build, f: Files, id: Ident, before: iset<Kernel>, after: iset<Kernel>)
    requires Canonical(id) && forall k | k in before :: CanonicalKernel(b, k)
    requires FlagsTell(before, f) && FlagsTell(after, Marked(f, id))
    requires Remarked(before, Marked(f, id), after) && Remarked(after, f, before)
    ensures FlagsOne(before, after, id)
  {
    forall k | k in before
      ensures AsReported(k, id) in after
    {
      MarkerFlags(f, id, k);
    }
    forall k | k in after
      ensures exists j :: j in before && k == AsReported(j, id)
    {
      var j := k.(boots := MarkerOf(k) in f);
      assert j in before && AsReported(j, id) in after && AsReported(j, id).bpath == k.bpath;
    }
  }

  /** After a report the next enumeration finds the same kernels, and flags exactly the reported one beyond
      those flagged before. */
  lemma ReportFlagsOne(s: Settings, f: Files, id: Ident)
    requires CanonicalTree(s, f) && Canonical(id)
    ensures FlagsOne(KernelsOn(s, f), KernelsOn(s, Marked(f, id)), id)
  {
    RemarkedTree(s, f, Marked(f, id));
    RemarkedTree(s, Marked(f, id), f);
    TreeFlagsTell(s, f);
    TreeFlagsTell(s, Marked(f, id));
    RemarkedFlagsOne(s.build, f, id, KernelsOn(s, f), KernelsOn(s, Marked(f, id)));
  }
}
