/** Kernels found on disk, and the choices made among them: running, default, last booted. */
module Kernels {
  import opened Text
  import opened Disks
  import opened Names
  import opened CommandLine
  import opened WordList

  /** What enumeration reads besides the kernel's own files. */
  datatype Settings = Settings(build: Build, globalCmdline: Option<string>,
                               removals: seq<Option<string>>)

  /** Which module directory a kernel was found with: its own, its own from before /usr was merged, or the one of
      the older naming that it shares with kernels of other types. */
  datatype Modules = NoModules | Typed | TypedBeforeUsr | Untyped

  /** `release` is the release cast to int16_t; a source file's path is set exactly when its flag is. */
  datatype Kernel = Kernel(
    bpath: string, id: Ident, release: int, cmdline: string, boots: bool,
    modules: Modules, hasHeaders: bool, hasConfig: bool, hasSystemMap: bool, hasVmlinux: bool,
    hasInitrd: bool, hasUserInitrd: bool)

  /** The identity the loader and the boot markers print: the release is the stored one. */
  function MetaIdent(k: Kernel): Ident {
    k.id.(release := k.release)
  }

  function SourcePath(k: Kernel): Path { Path(KernelDir, k.bpath) }

  /** A kernel's command line: its own file, the merged global one, then the removals. */
  function FullCmdline(s: Settings, text: string): string {
    var own := Parsed(text);
    RemovedFiles(if s.globalCmdline.Some? then own + " " + s.globalCmdline.value else own, s.removals)
  }

  /** Without removals a kernel's words come first, then the global ones, and none of them fuse. */
  lemma FullCmdlineWords(s: Settings, text: string)
    requires s.removals == []
    ensures Words(FullCmdline(s, text)) ==
            Words(Parsed(text)) + (if s.globalCmdline.Some? then Words(s.globalCmdline.value) else [])
  {
    if s.globalCmdline.Some? {
      var own, rest := Parsed(text), s.globalCmdline.value;
      WordsOfSpace(own);
      WordsConcat(own + " ", rest);
    }
  }

  function ModulesOf(b: Build, files: Files, id: Ident): Modules {
    if Path(ModuleDir, Uname(id)) in files then Typed
    else if b.usrModules && Path(OldModuleDir, Uname(id)) in files then TypedBeforeUsr
    else if Path(ModuleDir, UntypedName(id)) in files then Untyped
    else NoModules
  }

  function ModulePath(k: Kernel): Option<Path> {
    match k.modules
    case NoModules => None
    case Typed => Some(Path(ModuleDir, Uname(k.id)))
    case TypedBeforeUsr => Some(Path(OldModuleDir, Uname(k.id)))
    case Untyped => Some(Path(ModuleDir, UntypedName(k.id)))
  }

  /** boot_manager_inspect_kernel */
  function Inspect(s: Settings, files: Files, name: string): Option<Kernel> {
    match ParseKernelName(s.build, name)
    case None => None
    case Some(id) =>
      if Path(KernelDir, CmdlineName(id)) !in files then None
      else
        Some(Kernel(
               name, id, Int16(id.release),
               FullCmdline(s, files[Path(KernelDir, CmdlineName(id))]),
               Path(MarkerDir, MarkerName(id.(release := Int16(id.release)))) in files,
               ModulesOf(s.build, files, id),
               Path(HeaderDir, HeadersName(id)) in files,
               Path(KernelDir, ConfigName(id)) in files,
               Path(KernelDir, SystemMapName(id)) in files,
               Path(KernelDir, VmlinuxName(id)) in files,
               Path(KernelDir, InitrdName(s.build, id)) in files,
               Path(UserInitrdDir, InitrdName(s.build, id)) in files))
  }

  /** A non-empty file of the kernel directory that passes inspection, and what inspection makes of it. */
  predicate IsKernel(s: Settings, files: Files, k: Kernel) {
    SourcePath(k) in files && files[SourcePath(k)] != "" && Inspect(s, files, k.bpath) == Some(k)
  }

  ghost function KernelsOn(s: Settings, files: Files): iset<Kernel> {
    iset k | IsKernel(s, files, k)
  }

  /** The name is canonical, and the modules are the kernel's own. */
  ghost predicate CanonicalKernel(b: Build, k: Kernel) {
    Canonical(k.id) && k.bpath == KernelName(b, k.id) && k.release == k.id.release && !k.modules.Untyped?
  }

  /** Every kernel bears a canonical name and has its own modules, if any. */
  ghost predicate CanonicalTree(s: Settings, files: Files) {
    SaneBuild(s.build) && forall k | k in KernelsOn(s, files) :: CanonicalKernel(s.build, k)
  }

  /** Kernels of one tree are told apart by their identities. */
  lemma DistinctIdents(s: Settings, files: Files, j: Kernel, k: Kernel)
    requires CanonicalTree(s, files) && j in KernelsOn(s, files) && k in KernelsOn(s, files) && j != k
    ensures j.id != k.id
  {
    assert CanonicalKernel(s.build, j) && CanonicalKernel(s.build, k);
  }

  /** The files inspection of a kernel looks at. */
  predicate Inspected(b: Build, id: Ident, p: Path) {
    match p.area
    case KernelDir =>
      || p.name == CmdlineName(id) || p.name == ConfigName(id) || p.name == SystemMapName(id)
      || p.name == VmlinuxName(id) || p.name == InitrdName(b, id)
    case MarkerDir => p.name == MarkerName(id.(release := Int16(id.release)))
    case ModuleDir => p.name == Uname(id) || p.name == UntypedName(id)
    case OldModuleDir => p.name == Uname(id)
    case HeaderDir => p.name == HeadersName(id)
    case UserInitrdDir => p.name == InitrdName(b, id)
    case _ => false
  }

  lemma InspectFrame(s: Settings, f: Files, g: Files, name: string)
    requires ParseKernelName(s.build, name).Some? ==>
               forall p | Inspected(s.build, ParseKernelName(s.build, name).value, p) :: Same(f, g, p)
    ensures Inspect(s, f, name) == Inspect(s, g, name)
  {
    hide FullCmdline, ParseKernelName, PrintInt, Uname, KernelName, Int16;
    var b, r := s.build, ParseKernelName(s.build, name);
    if r.Some? {
      var id := r.value;
      assert Inspected(b, id, Path(KernelDir, CmdlineName(id))) && Inspected(b, id, Path(KernelDir, ConfigName(id)));
      assert Inspected(b, id, Path(KernelDir, SystemMapName(id))) && Inspected(b, id, Path(KernelDir, VmlinuxName(id)));
      assert Inspected(b, id, Path(MarkerDir, MarkerName(id.(release := Int16(id.release)))));
      assert Inspected(b, id, Path(ModuleDir, Uname(id))) && Inspected(b, id, Path(OldModuleDir, Uname(id)));
      assert Inspected(b, id, Path(ModuleDir, UntypedName(id))) && Inspected(b, id, Path(HeaderDir, HeadersName(id)));
      assert Inspected(b, id, Path(KernelDir, InitrdName(b, id)));
      assert Inspected(b, id, Path(UserInitrdDir, InitrdName(b, id)));
    }
  }

  function MarkerOf(k: Kernel): Path {
    Path(MarkerDir, MarkerName(MetaIdent(k)))
  }

  lemma InspectedIs(s: Settings, f: Files, name: string)
    requires Inspect(s, f, name).Some?
    ensures ParseKernelName(s.build, name).Some?
    ensures var k, id := Inspect(s, f, name).value, ParseKernelName(s.build, name).value;
            && k.bpath == name && k.id == id && MetaIdent(k) == id.(release := Int16(id.release))
            && (k.boots <==> MarkerOf(k) in f)
  {
  }

  /** Of the boot markers, inspection sees one. */
  lemma InspectMarker(s: Settings, f: Files, g: Files, name: string, id: Ident)
    requires ParseKernelName(s.build, name) == Some(id)
    requires forall p: Path | !p.area.MarkerDir? :: Same(f, g, p)
    ensures Inspect(s, f, name).Some? <==> Inspect(s, g, name).Some?
    ensures Inspect(s, f, name).Some? ==>
              Inspect(s, g, name).value
              == Inspect(s, f, name).value.(boots := MarkerOf(Inspect(s, f, name).value) in g)
  {
    assert Same(f, g, Path(KernelDir, CmdlineName(id))) && Same(f, g, Path(KernelDir, ConfigName(id)));
    assert Same(f, g, Path(KernelDir, SystemMapName(id))) && Same(f, g, Path(KernelDir, VmlinuxName(id)));
    assert Same(f, g, Path(ModuleDir, Uname(id))) && Same(f, g, Path(OldModuleDir, Uname(id)));
    assert Same(f, g, Path(ModuleDir, UntypedName(id))) && Same(f, g, Path(HeaderDir, HeadersName(id)));
    assert Same(f, g, Path(KernelDir, InitrdName(s.build, id)));
    assert Same(f, g, Path(UserInitrdDir, InitrdName(s.build, id)));
  }

  lemma FoundIs(s: Settings, f: Files, k: Kernel)
    requires k in KernelsOn(s, f)
    ensures ParseKernelName(s.build, k.bpath) == Some(k.id) && Inspect(s, f, k.bpath) == Some(k)
    ensures k.boots <==> MarkerOf(k) in f
  {
    InspectedIs(s, f, k.bpath);
  }

  lemma FoundAs(s: Settings, f: Files, name: string)
    requires Path(KernelDir, name) in f && f[Path(KernelDir, name)] != "" && Inspect(s, f, name).Some?
    ensures Inspect(s, f, name).value in KernelsOn(s, f)
  {
    InspectedIs(s, f, name);
  }

  /** A kernel is found whatever markers there are; its flag tells whether its own is. */
  lemma MarkedKernel(s: Settings, f: Files, g: Files, k: Kernel)
    requires k in KernelsOn(s, f) && forall p: Path | !p.area.MarkerDir? :: Same(f, g, p)
    ensures k.(boots := MarkerOf(k) in g) in KernelsOn(s, g)
  {
    FoundIs(s, f, k);
    InspectMarker(s, f, g, k.bpath, k.id);
    assert Same(f, g, SourcePath(k));
    FoundAs(s, g, k.bpath);
  }

  /** Two kernel sets that differ in nothing but the markers in place. */
  ghost predicate Remarked(before: iset<Kernel>, g: Files, after: iset<Kernel>) {
    forall k | k in before :: k.(boots := MarkerOf(k) in g) in after
  }

  lemma RemarkedTree(s: Settings, f: Files, g: Files)
    requires forall p: Path | !p.area.MarkerDir? :: Same(f, g, p)
    ensures Remarked(KernelsOn(s, f), g, KernelsOn(s, g))
  {
    forall k | k in KernelsOn(s, f)
      ensures k.(boots := MarkerOf(k) in g) in KernelsOn(s, g)
    {
      MarkedKernel(s, f, g, k);
    }
  }

  /** A flag tells whether the kernel's marker is there, and a name is that of one kernel. */
  ghost predicate FlagsTell(all: iset<Kernel>, f: Files) {
    && (forall k | k in all :: k.boots <==> MarkerOf(k) in f)
    && (forall j, k | j in all && k in all && j.bpath == k.bpath :: j == k)
  }

  lemma OneKernelPerName(s: Settings, f: Files, j: Kernel, k: Kernel)
    requires j in KernelsOn(s, f) && k in KernelsOn(s, f) && j.bpath == k.bpath
    ensures j == k
  {
  }

  lemma TreeFlagsTell(s: Settings, f: Files)
    ensures FlagsTell(KernelsOn(s, f), f)
  {
    forall k | k in KernelsOn(s, f)
      ensures k.boots <==> MarkerOf(k) in f
    {
      FoundIs(s, f, k);
    }
    forall j, k | j in KernelsOn(s, f) && k in KernelsOn(s, f) && j.bpath == k.bpath
      ensures j == k
    {
      OneKernelPerName(s, f, j, k);
    }
  }

  /** What inspection sees is the kernel's own, but for the untyped module directory. */
  lemma InspectedOwned(b: Build, id: Ident, p: Path)
    requires Canonical(id) && Inspected(b, id, p)
    ensures Owns(b, id, p) || p == Path(ModuleDir, UntypedName(id))
    ensures !p.area.EspKernels? && !p.area.EspRoot? && !p.area.LoaderEntries? && !p.area.LoaderDir?
  {
  }

  lemma KernelFrame(s: Settings, f: Files, g: Files, k: Kernel)
    requires CanonicalKernel(s.build, k) && forall p | Inspected(s.build, k.id, p) :: Same(f, g, p)
    ensures Inspect(s, f, k.bpath) == Inspect(s, g, k.bpath)
  {
    KernelNameReadsBack(s.build, k.id);
    InspectFrame(s, f, g, k.bpath);
  }

  /** What reading the names of the kernel directory below `n` may have found: kernels, each once. */
  ghost predicate ReadSome(all: iset<Kernel>, names: seq<string>, n: nat, ks: seq<Kernel>)
    requires n <= |names|
  {
    && (forall i | 0 <= i < |ks| :: ks[i] in all)
    && (forall i, j | 0 <= i < j < |ks| :: ks[i].bpath != ks[j].bpath)
    && (forall i, j | 0 <= i < |ks| && n <= j < |names| :: ks[i].bpath != names[j])
  }

  /** None of the kernels among the first `n` names was missed. */
  ghost predicate ReadEach(all: iset<Kernel>, names: seq<string>, n: nat, ks: seq<Kernel>)
    requires n <= |names|
  {
    forall j, k | 0 <= j < n && k in all && k.bpath == names[j] :: k in ks
  }

  /** The kernel of a name is what inspection makes of its file. */
  lemma NamedKernel(s: Settings, f: Files, name: string)
    requires Path(KernelDir, name) in f
    ensures forall j :: j in KernelsOn(s, f) && j.bpath == name <==>
                        f[Path(KernelDir, name)] != "" && Inspect(s, f, name) == Some(j)
  {
    if Inspect(s, f, name).Some? {
      InspectedIs(s, f, name);
    }
  }

  lemma ReadNone(all: iset<Kernel>, names: seq<string>, n: nat, ks: seq<Kernel>)
    requires n < |names| && ReadSome(all, names, n, ks)
    ensures ReadSome(all, names, n + 1, ks)
    ensures ReadEach(all, names, n, ks) && (forall j | j in all :: j.bpath != names[n]) ==>
              ReadEach(all, names, n + 1, ks)
  {
  }

  lemma ReadOne(all: iset<Kernel>, names: seq<string>, n: nat, ks: seq<Kernel>, k: Kernel)
    requires n < |names| && ReadSome(all, names, n, ks) && Distinct(names)
    requires k.bpath == names[n] && forall j :: j in all && j.bpath == names[n] <==> j == k
    ensures ReadSome(all, names, n + 1, ks + [k])
    ensures ReadEach(all, names, n, ks) ==> ReadEach(all, names, n + 1, ks + [k])
  {
    var more := ks + [k];
    assert more[|ks|] == k && forall i | 0 <= i < |ks| :: more[i] == ks[i];
  }

  /** Kernels of the tree, each once. */
  ghost predicate AreKernels(all: iset<Kernel>, ks: seq<Kernel>) {
    && (forall k | k in ks :: k in all)
    && (forall i, j | 0 <= i < j < |ks| :: ks[i].bpath != ks[j].bpath)
  }

  ghost predicate IsComplete(all: iset<Kernel>, ks: seq<Kernel>) {
    forall k | k in all :: k in ks
  }

  lemma AllRead(s: Settings, files: Files, names: seq<string>, ks: seq<Kernel>)
    requires ReadSome(KernelsOn(s, files), names, |names|, ks)
    requires forall p | p in files && p.area == KernelDir :: p.name in names
    ensures AreKernels(KernelsOn(s, files), ks)
    ensures ReadEach(KernelsOn(s, files), names, |names|, ks) ==> IsComplete(KernelsOn(s, files), ks)
  {
    forall k | k in KernelsOn(s, files)
      ensures k.bpath in names
    {
      assert SourcePath(k) in files;
    }
  }

  // ----- lists -----

  predicate Distinct<T(==)>(q: seq<T>) {
    forall i, j | 0 <= i < j < |q| :: q[i] != q[j]
  }

  predicate Descending(ks: seq<Kernel>) {
    forall i, j | 0 <= i < j < |ks| :: ks[i].release >= ks[j].release
  }

  /** The same elements, in some order. */
  ghost predicate Permutation(p: seq<Kernel>, q: seq<Kernel>) {
    multiset(p) == multiset(q)
  }

  lemma PermutationMembers(p: seq<Kernel>, q: seq<Kernel>)
    requires Permutation(p, q)
    ensures forall k :: k in p <==> k in q
    ensures |p| == |q|
  {
    assert forall k :: k in p <==> k in multiset(p);
    assert forall k :: k in q <==> k in multiset(q);
    assert |multiset(p)| == |p| && |multiset(q)| == |q|;
  }

  lemma {:induction false} DistinctCounts(q: seq<Kernel>)
    requires Distinct(q)
    ensures forall k :: multiset(q)[k] <= 1
  {
    if q != [] {
      var r := q[..|q| - 1];
      DistinctCounts(r);
      assert q == r + [q[|q| - 1]];
      assert forall i | 0 <= i < |r| :: r[i] == q[i];
      assert q[|q| - 1] !in r;
    }
  }

  lemma CountsDistinct(q: seq<Kernel>)
    requires forall k :: multiset(q)[k] <= 1
    ensures Distinct(q)
  {
    forall i, j | 0 <= i < j < |q|
      ensures q[i] != q[j]
    {
      assert q == q[..j] + q[j..];
      assert q[i] == q[..j][i] && q[j] == q[j..][0];
      assert multiset(q)[q[i]] == multiset(q[..j])[q[i]] + multiset(q[j..])[q[i]];
    }
  }

  lemma PermutationDistinct(p: seq<Kernel>, q: seq<Kernel>)
    requires Permutation(p, q) && Distinct(q)
    ensures Distinct(p)
  {
    DistinctCounts(q);
    CountsDistinct(p);
  }

  lemma {:induction false} HighestExists(ks: seq<Kernel>) returns (i: nat)
    requires ks != []
    ensures i < |ks| && forall j | 0 <= j < |ks| :: ks[j].release <= ks[i].release
  {
    if |ks| == 1 {
      i := 0;
    } else {
      var r := ks[..|ks| - 1];
      i := HighestExists(r);
      assert forall j | 0 <= j < |r| :: ks[j] == r[j];
      if ks[|ks| - 1].release > ks[i].release {
        i := |ks| - 1;
      }
    }
  }

  lemma TakeOut(ks: seq<Kernel>, i: nat)
    requires i < |ks|
    ensures multiset(ks) == multiset(ks[..i] + ks[i + 1..]) + multiset{ks[i]}
  {
    assert ks == ks[..i] + [ks[i]] + ks[i + 1..];
  }

  /** qsort with kernel_compare_reverse. The comparator never calls two kernels equal, so kernels of the
      same release may come out in any order. */
  method SortDescending(ks: seq<Kernel>) returns (sorted: seq<Kernel>)
    ensures Permutation(sorted, ks) && Descending(sorted)
  {
    sorted := [];
    var rest := ks;
    while rest != []
      invariant multiset(sorted) + multiset(rest) == multiset(ks)
      invariant Descending(sorted)
      invariant forall i, j | 0 <= i < |sorted| && 0 <= j < |rest| :: sorted[i].release >= rest[j].release
      decreases |rest|
    {
      ghost var h := HighestExists(rest);
      var i :| 0 <= i < |rest| && forall j | 0 <= j < |rest| :: rest[j].release <= rest[i].release;
      TakeOut(rest, i);
      sorted := sorted + [rest[i]];
      rest := rest[..i] + rest[i + 1..];
    }
  }

  // ----- lookups -----

  /** The first kernel from `i` on that satisfies `p`. */
  function FirstFrom(ks: seq<Kernel>, p: Kernel -> bool, i: nat): (r: Option<Kernel>)
    requires i <= |ks|
    ensures r.Some? ==> r.value in ks && p(r.value)
    ensures r.Some? ==> exists j :: i <= j < |ks| && ks[j] == r.value && forall l | i <= l < j :: !p(ks[l])
    ensures r.None? ==> forall j | i <= j < |ks| :: !p(ks[j])
    decreases |ks| - i
  {
    if i == |ks| then None else if p(ks[i]) then Some(ks[i]) else FirstFrom(ks, p, i + 1)
  }

  function First(ks: seq<Kernel>, p: Kernel -> bool): Option<Kernel> {
    FirstFrom(ks, p, 0)
  }

  /** When at most one kernel can be meant, the order of the list does not matter. */
  lemma FirstIsUnique(ks: seq<Kernel>, p: Kernel -> bool, k: Kernel)
    requires k in ks && p(k) && forall j | j in ks && p(j) :: j == k
    ensures First(ks, p) == Some(k)
  {
    var i :| 0 <= i < |ks| && ks[i] == k;
    assert First(ks, p).Some?;
  }

  lemma NoneFirst(ks: seq<Kernel>, p: Kernel -> bool)
    requires forall j | j in ks :: !p(j)
    ensures First(ks, p) == None
  {
  }

  function IsSystemKernel(sys: Ident): Kernel -> bool {
    (k: Kernel) => k.id.ktype == sys.ktype && k.id.version == sys.version && k.release == sys.release
  }

  function HasTypeAndRelease(sys: Ident): Kernel -> bool {
    (k: Kernel) => k.id.ktype == sys.ktype && k.release == sys.release
  }

  function HasName(name: string): Kernel -> bool {
    (k: Kernel) => k.bpath == name
  }

  /** The running kernel: exact match, else type and release only. */
  function RunningOf(ks: seq<Kernel>, sys: Option<Ident>): (r: Option<Kernel>)
    ensures r.Some? ==>
              r.value in ks && sys.Some? && r.value.id.ktype == sys.value.ktype && r.value.release == sys.value.release
  {
    if sys.None? then None
    else
      var exact := First(ks, IsSystemKernel(sys.value));
      if exact.Some? then exact else First(ks, HasTypeAndRelease(sys.value))
  }

  /** The default links of the kernel directory: type to the name its link holds. */
  type Links = map<string, string>

  function DefaultFor(links: Links, ks: seq<Kernel>, ktype: string): (r: Option<Kernel>)
    ensures r.Some? ==> r.value in ks && ktype in links && r.value.bpath == links[ktype]
  {
    if ktype !in links then None else First(ks, HasName(links[ktype]))
  }

  method FindFirst(ks: seq<Kernel>, p: Kernel -> bool) returns (r: Option<Kernel>)
    ensures r == First(ks, p)
  {
    for i := 0 to |ks|
      invariant FirstFrom(ks, p, i) == First(ks, p)
    {
      if p(ks[i]) {
        return Some(ks[i]);
      }
    }
    return None;
  }

  /** boot_manager_get_running_kernel, then the fallback comparison. */
  method GetRunningKernel(ks: seq<Kernel>, sys: Option<Ident>) returns (r: Option<Kernel>)
    ensures r == RunningOf(ks, sys)
  {
    if sys.None? {
      return None;
    }
    r := FindFirst(ks, IsSystemKernel(sys.value));
    if r.None? {
      r := FindFirst(ks, HasTypeAndRelease(sys.value));
    }
  }

  method GetDefaultForType(links: Links, ks: seq<Kernel>, ktype: string) returns (r: Option<Kernel>)
    ensures r == DefaultFor(links, ks, ktype)
  {
    if ktype !in links {
      return None;
    }
    r := FindFirst(ks, HasName(links[ktype]));
  }

  /** boot_manager_get_last_booted on the first `n` kernels. */
  function LastBootedUpto(ks: seq<Kernel>, n: nat): (r: Option<Kernel>)
    requires n <= |ks|
    ensures r.Some? ==> r.value in ks && r.value.boots
  {
    if n == 0 then None
    else
      var before := LastBootedUpto(ks, n - 1);
      var k := ks[n - 1];
      if k.boots && k.release >= (if before.Some? then before.value.release else -1) then Some(k) else before
  }

  function LastBooted(ks: seq<Kernel>): Option<Kernel> {
    LastBootedUpto(ks, |ks|)
  }

  method GetLastBooted(ks: seq<Kernel>) returns (candidate: Option<Kernel>)
    ensures candidate == LastBooted(ks)
  {
    var highRel := -1;
    candidate := None;
    for i := 0 to |ks|
      invariant candidate == LastBootedUpto(ks, i)
      invariant highRel == if candidate.Some? then candidate.value.release else -1
    {
      var k := ks[i];
      if k.release < highRel {
        continue;
      }
      if !k.boots {
        continue;
      }
      candidate := Some(k);
      highRel := k.release;
    }
  }

  /** The last booted kernel is a booting one of the highest release, the last of them in the list; and there is one
      as soon as any kernel boots whose release is not below the loop's starting value. */
  lemma {:induction false} LastBootedIsHighest(ks: seq<Kernel>, n: nat)
    requires n <= |ks|
    ensures var r := LastBootedUpto(ks, n);
            forall j | 0 <= j < n && ks[j].boots && ks[j].release >= -1 :: r.Some? && ks[j].release <= r.value.release
    ensures var r := LastBootedUpto(ks, n);
            r.Some? ==>
              && r.value.boots && r.value.release >= -1
              && exists j :: 0 <= j < n && ks[j] == r.value &&
                             forall l | j < l < n && ks[l].boots :: ks[l].release < r.value.release
  {
    if n > 0 {
      LastBootedIsHighest(ks, n - 1);
    }
  }

  // ----- types -----

  /** Those of the first `n` kernels that have the type, in order. */
  function OfTypeUpto(ks: seq<Kernel>, ktype: string, n: nat): seq<Kernel>
    requires n <= |ks|
  {
    if n == 0 then []
    else
      var before := OfTypeUpto(ks, ktype, n - 1);
      if ks[n - 1].id.ktype == ktype then before + [ks[n - 1]] else before
  }

  function OfType(ks: seq<Kernel>, ktype: string): seq<Kernel> {
    OfTypeUpto(ks, ktype, |ks|)
  }

  function TypesOf(ks: seq<Kernel>): set<string> {
    set k | k in ks :: k.id.ktype
  }

  lemma {:induction false} OfTypeMembers(ks: seq<Kernel>, ktype: string, n: nat)
    requires n <= |ks|
    ensures forall k :: k in OfTypeUpto(ks, ktype, n) <==> k in ks[..n] && k.id.ktype == ktype
  {
    if n > 0 {
      OfTypeMembers(ks, ktype, n - 1);
      assert ks[..n] == ks[..n - 1] + [ks[n - 1]];
    }
  }

  lemma {:induction false} OfTypeDistinct(ks: seq<Kernel>, ktype: string, n: nat)
    requires n <= |ks| && Distinct(ks)
    ensures Distinct(OfTypeUpto(ks, ktype, n))
  {
    if n > 0 {
      OfTypeDistinct(ks, ktype, n - 1);
      OfTypeMembers(ks, ktype, n - 1);
    }
  }

  /** Splitting by type loses and invents no kernel, and repeats none. */
  lemma TypesPartition(ks: seq<Kernel>)
    requires Distinct(ks)
    ensures forall k, t :: k in OfType(ks, t) <==> k in ks && k.id.ktype == t
    ensures forall t :: Distinct(OfType(ks, t))
    ensures forall t :: t in TypesOf(ks) <==> OfType(ks, t) != []
  {
    assert ks[..|ks|] == ks;
    forall t
      ensures forall k :: k in OfType(ks, t) <==> k in ks && k.id.ktype == t
      ensures Distinct(OfType(ks, t))
      ensures t in TypesOf(ks) <==> OfType(ks, t) != []
    {
      OfTypeMembers(ks, t, |ks|);
      OfTypeDistinct(ks, t, |ks|);
      if OfType(ks, t) != [] {
        assert OfType(ks, t)[0] in OfType(ks, t);
      }
    }
  }

  /** boot_manager_map_kernels */
  method MapKernels(ks: seq<Kernel>) returns (m: map<string, seq<Kernel>>)
    ensures forall t :: t in m <==> OfType(ks, t) != []
    ensures forall t | t in m :: m[t] == OfType(ks, t)
  {
    m := map[];
    for i := 0 to |ks|
      invariant forall t :: t in m <==> OfTypeUpto(ks, t, i) != []
      invariant forall t | t in m :: m[t] == OfTypeUpto(ks, t, i)
    {
      var t := ks[i].id.ktype;
      var r := if t in m then m[t] else [];
      m := m[t := r + [ks[i]]];
    }
  }
}
