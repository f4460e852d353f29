/** Installing and removing one kernel, and writing the default: the steps of an update on the disk, with
    the paths each may touch at any crash point. The boot loader is the systemd-class one. */
module Installs {
  import opened Text
  import opened Disks
  import opened Names
  import opened Freestanding
  import opened Systemd
  import opened Kernels

  // ----- the paths of a kernel -----

  function TargetPath(k: Kernel): Path { Path(EspKernels, "kernel-" + k.bpath) }
  function EspInitrd(b: Build, k: Kernel): Path { Path(EspKernels, InitrdName(b, k.id)) }
  function EntryPath(b: Build, k: Kernel): Path { Path(LoaderEntries, EntryName(b, MetaIdent(k))) }
  const LOADER_CONF: Path := Path(LoaderDir, "loader.conf")

  predicate OnEsp(p: Path) {
    p.area.EspKernels? || p.area.EspRoot? || p.area.LoaderEntries? || p.area.LoaderDir?
  }

  ghost function EspArea(): iset<Path> {
    iset p: Path | OnEsp(p)
  }

  /** Kernel and initrd copies on the ESP, staging files included. */
  predicate IsBlob(b: Build, k: Kernel, p: Path) {
    p.area.EspKernels? && (IsOrExtends(p.name, "kernel-" + k.bpath) || IsOrExtends(p.name, InitrdName(b, k.id)))
  }

  /** What else an installation may touch: files left by old versions, and the entry. */
  predicate IsExtra(b: Build, k: Kernel, p: Path) {
    || p == EntryPath(b, k)
    || (p.area.EspRoot? && (p.name == k.bpath || p.name == InitrdName(b, k.id)))
  }

  ghost function InstallPaths(b: Build, k: Kernel): iset<Path> {
    iset p: Path | IsBlob(b, k, p) || IsExtra(b, k, p)
  }

  ghost function ExtraPaths(b: Build, k: Kernel): iset<Path> {
    iset p: Path | IsExtra(b, k, p)
  }

  /** Every file of a kernel. */
  ghost function KernelPaths(b: Build, k: Kernel): iset<Path> {
    iset p: Path | Owns(b, k.id, p) || p == SourcePath(k) || IsBlob(b, k, p) || IsExtra(b, k, p)
  }

  lemma CanonicalPaths(b: Build, k: Kernel)
    requires CanonicalKernel(b, k)
    ensures KernelPaths(b, k) == Owned(b, k.id)
    ensures InstallPaths(b, k) <= Owned(b, k.id) && InstallPaths(b, k) <= EspArea()
  {
    assert MetaIdent(k) == k.id;
  }

  lemma TmpExtends(p: Path, base: string)
    requires p.name == base || HasPrefix(p.name, base + ".")
    ensures HasPrefix(Tmp(p).name, base + ".")
  {
    var t := p.name + ".TmpWrite";
    if p.name == base {
      assert t == (base + ".") + "TmpWrite";
    } else {
      assert t[..|base| + 1] == p.name[..|base| + 1];
    }
  }

  /** The initrd that is installed: the user's if there is one, else the system's. */
  function InitrdSource(b: Build, k: Kernel): Option<Path> {
    if k.hasUserInitrd then Some(Path(UserInitrdDir, InitrdName(b, k.id)))
    else if k.hasInitrd then Some(Path(KernelDir, InitrdName(b, k.id)))
    else None
  }

  function TargetInitrd(b: Build, k: Kernel): Option<string> {
    if k.hasInitrd || k.hasUserInitrd then Some(InitrdName(b, k.id)) else None
  }

  /** The copies on the ESP equal their sources: kernel, initrd, and extra initrds. */
  ghost predicate BlobsInstalled(b: Build, files: Files, k: Kernel) {
    && Match(files, SourcePath(k), TargetPath(k))
    && match InitrdSource(b, k) {
         case None => true
         case Some(src) => InitrdInstalled(b, files, k, src)
       }
  }

  ghost predicate InitrdInstalled(b: Build, files: Files, k: Kernel, src: Path) {
    Match(files, src, EspInitrd(b, k)) && ExtrasMatch(b, files, k, src.area)
  }

  ghost predicate ExtrasMatch(b: Build, files: Files, k: Kernel, area: Area) {
    forall n | n in GlobNames(files, area, InitrdName(b, k.id)) :: Match(files, Path(area, n), Path(EspKernels, n))
  }

  /** No initrd source bears the name a copy is staged under. */
  ghost predicate NoStagingSources(files: Files) {
    forall p | p in files && (p.area.KernelDir? || p.area.UserInitrdDir?) :: !HasSuffix(p.name, ".TmpWrite")
  }

  /** What boot entries are made of, besides the kernel. */
  datatype Env = Env(build: Build, config: Config, overlay: Overlay, keys: seq<string>, ucode: Option<string>,
                     order: set<string> -> seq<string>)

  function ExtraInitrds(e: Env, files: Files, k: Kernel): seq<string> {
    if k.hasInitrd then e.order(GlobNames(files, KernelDir, InitrdName(e.build, k.id))) else []
  }

  function EntryOf(e: Env, files: Files, k: Kernel): string {
    EntryText(e.config, "kernel-" + k.bpath,
              EntryInitrds(e.overlay, e.keys, e.ucode, TargetInitrd(e.build, k), ExtraInitrds(e, files, k)),
              k.cmdline)
  }

  ghost predicate EntryWritten(e: Env, files: Files, k: Kernel) {
    EntryPath(e.build, k) in files && files[EntryPath(e.build, k)] == EntryOf(e, files, k)
  }

  ghost predicate Installed(e: Env, files: Files, k: Kernel) {
    BlobsInstalled(e.build, files, k) && EntryWritten(e, files, k)
  }

  ghost predicate DefaultWritten(b: Build, c: Config, files: Files, k: Kernel) {
    LOADER_CONF in files && files[LOADER_CONF] == LoaderText(b, c, MetaIdent(k))
  }

  /** Being installed is a matter of the kernel's own files. */
  lemma InstalledFrame(e: Env, f: Files, g: Files, k: Kernel)
    requires CanonicalKernel(e.build, k)
    requires forall p | Owns(e.build, k.id, p) :: Same(f, g, p)
    ensures Installed(e, f, k) <==> Installed(e, g, k)
    ensures BlobsInstalled(e.build, f, k) <==> BlobsInstalled(e.build, g, k)
  {
    var b := e.build;
    CanonicalPaths(b, k);
    GlobFrame(b, k.id, f, g, KernelDir);
    GlobFrame(b, k.id, f, g, UserInitrdDir);
    assert SourcePath(k) in KernelPaths(b, k) && TargetPath(k) in KernelPaths(b, k);
    assert EspInitrd(b, k) in KernelPaths(b, k) && EntryPath(b, k) in KernelPaths(b, k);
    forall n | HasPrefix(n, InitrdName(b, k.id) + ".")
      ensures Owns(b, k.id, Path(EspKernels, n)) && Owns(b, k.id, Path(KernelDir, n))
      ensures Owns(b, k.id, Path(UserInitrdDir, n))
    {
    }
    assert Owns(b, k.id, Path(UserInitrdDir, InitrdName(b, k.id)));
    assert Owns(b, k.id, Path(KernelDir, InitrdName(b, k.id)));
  }

  lemma GlobFrame(b: Build, id: Ident, f: Files, g: Files, area: Area)
    requires area.KernelDir? || area.UserInitrdDir?
    requires forall p | Owns(b, id, p) :: Same(f, g, p)
    ensures GlobNames(f, area, InitrdName(b, id)) == GlobNames(g, area, InitrdName(b, id))
  {
    forall n | HasPrefix(n, InitrdName(b, id) + ".")
      ensures Path(area, n) in f <==> Path(area, n) in g
    {
      assert Owns(b, id, Path(area, n));
    }
    var base := InitrdName(b, id);
    assert forall n :: n in GlobNames(f, area, base) <==> Path(area, n) in f && HasPrefix(n, base + ".");
    assert forall n :: n in GlobNames(g, area, base) <==> Path(area, n) in g && HasPrefix(n, base + ".");
  }

  /** What touches another kernel, or no kernel at all, leaves this one alone. */
  lemma OthersSpare(b: Build, j: Kernel, k: Kernel)
    requires SaneBuild(b) && CanonicalKernel(b, j) && CanonicalKernel(b, k) && j.id != k.id
    ensures KernelPaths(b, j) !! Owned(b, k.id)
  {
    CanonicalPaths(b, j);
    forall p | p in Owned(b, j.id) && p in Owned(b, k.id)
      ensures false
    {
      OwnershipDisjoint(b, j.id, k.id, p);
    }
  }

  lemma FreestandingSpares(b: Build, id: Ident)
    ensures Freestanding.EspPaths() !! Owned(b, id)
  {
    forall p | p in Freestanding.EspPaths()
      ensures !Owns(b, id, p)
    {
      assert p.name[..|Key("")|][0] == 'f';
      assert (TargetName(b, id) + ".")[0] == 'k' && (InitrdName(b, id) + ".")[0] == 'i';
      if IsOrExtends(p.name, TargetName(b, id)) {
        FirstChar(p.name, TargetName(b, id));
      }
      if IsOrExtends(p.name, InitrdName(b, id)) {
        FirstChar(p.name, InitrdName(b, id));
      }
    }
  }

  // ----- the steps of an installation -----

  /** Copies of extra initrds, staging files included. */
  ghost function ExtraTargets(b: Build, k: Kernel): iset<Path> {
    iset p: Path | p.area.EspKernels? && HasPrefix(p.name, InitrdName(b, k.id) + ".")
  }

  ghost function InitrdTargets(b: Build, k: Kernel): iset<Path> {
    iset p: Path | p.area.EspKernels? && IsOrExtends(p.name, InitrdName(b, k.id))
  }

  predicate IsSource(p: Path) {
    p.area.KernelDir? || p.area.UserInitrdDir?
  }

  /** The sources are what they were. */
  ghost predicate SourcesKept(f: Files, g: Files) {
    forall p | IsSource(p) :: Same(f, g, p)
  }

  lemma SourcesStay(f: Files, g: Files, area: Area, base: string)
    requires SourcesKept(f, g) && (area.KernelDir? || area.UserInitrdDir?)
    ensures GlobNames(f, area, base) == GlobNames(g, area, base)
    ensures NoStagingSources(f) ==> NoStagingSources(g)
  {
    forall n
      ensures Path(area, n) in f <==> Path(area, n) in g
    {
      assert Same(f, g, Path(area, n));
    }
    assert forall n :: n in GlobNames(f, area, base) <==> Path(area, n) in f && HasPrefix(n, base + ".");
    assert forall n :: n in GlobNames(g, area, base) <==> Path(area, n) in g && HasPrefix(n, base + ".");
    forall p | p in g && IsSource(p)
      ensures p in f
    {
      assert Same(f, g, p);
    }
  }

  /** The first `i` extra initrds have been copied. */
  ghost predicate Copied(files: Files, area: Area, names: seq<string>, i: nat)
    requires i <= |names|
  {
    forall j | 0 <= j < i :: Match(files, Path(area, names[j]), Path(EspKernels, names[j]))
  }

  /** Copying one extra initrd leaves the others matching: none of them is named like its staging file. */
  lemma CopiedOne(f0: Files, f: Files, g: Files, area: Area, names: seq<string>, i: nat, fp: iset<Path>)
    requires NoStagingSources(f0) && IsSource(Path(area, "")) && Frame(f0, f, fp) && forall p | p in fp :: !IsSource(p)
    requires i < |names| && (forall j, k | 0 <= j < k < |names| :: names[j] != names[k])
    requires Copied(f, area, names, i)
    requires Frame(f, g, iset{Path(EspKernels, names[i]), Tmp(Path(EspKernels, names[i]))})
    requires Match(g, Path(area, names[i]), Path(EspKernels, names[i]))
    ensures Copied(g, area, names, i + 1)
  {
    forall j | 0 <= j < i
      ensures Match(g, Path(area, names[j]), Path(EspKernels, names[j]))
    {
      assert Match(f, Path(area, names[j]), Path(EspKernels, names[j]));
      assert Same(f0, f, Path(area, names[j]));
      StagingApart(f0, names[j], names[i], area);
      assert Same(f, g, Path(area, names[j])) && Same(f, g, Path(EspKernels, names[j]));
    }
  }

  lemma StagingApart(f: Files, other: string, n: string, area: Area)
    requires NoStagingSources(f) && IsSource(Path(area, other)) && Path(area, other) in f
    ensures other != n + ".TmpWrite"
  {
    if other == n + ".TmpWrite" {
      assert HasSuffix(other, ".TmpWrite");
      assert false;
    }
  }

  lemma EspOnlyKeepsSources(f: Files, g: Files, fp: iset<Path>)
    requires Frame(f, g, fp) && forall p | p in fp :: !IsSource(p)
    ensures SourcesKept(f, g)
  {
  }

  /** The initrd is copied first; copying the extra ones leaves it in place. */
  lemma InitrdDone(b: Build, k: Kernel, src: Path, f0: Files, f1: Files, f2: Files)
    requires InitrdSource(b, k) == Some(src)
    requires Frame(f0, f1, iset{EspInitrd(b, k), Tmp(EspInitrd(b, k))}) && Match(f1, src, EspInitrd(b, k))
    requires Frame(f1, f2, ExtraTargets(b, k))
    requires NoStagingSources(f1) ==>
      forall n | n in GlobNames(f1, src.area, InitrdName(b, k.id)) :: Match(f2, Path(src.area, n), Path(EspKernels, n))
    ensures NoStagingSources(f0) ==> InitrdInstalled(b, f2, k, src)
  {
    EspOnlyKeepsSources(f0, f1, iset{EspInitrd(b, k), Tmp(EspInitrd(b, k))});
    EspOnlyKeepsSources(f1, f2, ExtraTargets(b, k));
    SourcesStay(f0, f1, src.area, InitrdName(b, k.id));
    SourcesStay(f1, f2, src.area, InitrdName(b, k.id));
    assert Same(f1, f2, src) && Same(f1, f2, EspInitrd(b, k));
  }

  /** Copying initrds leaves the kernel alone. */
  lemma BlobsDone(b: Build, k: Kernel, src: Path, f: Files, g: Files)
    requires InitrdSource(b, k) == Some(src)
    requires Match(f, SourcePath(k), TargetPath(k))
    requires Frame(f, g, InitrdTargets(b, k)) && InitrdInstalled(b, g, k, src)
    ensures BlobsInstalled(b, g, k)
  {
    var t, base := TargetPath(k), InitrdName(b, k.id);
    assert t.name[0] == 'k' && base[0] == 'i';
    if IsOrExtends(t.name, base) {
      FirstChar(t.name, base);
      assert false;
    }
    assert Same(f, g, SourcePath(k)) && Same(f, g, t);
  }

  /** Neither the entry nor the files of old versions are among the copies. */
  lemma BlobsStay(b: Build, k: Kernel, f: Files, g: Files)
    requires Frame(f, g, ExtraPaths(b, k)) && BlobsInstalled(b, f, k)
    ensures BlobsInstalled(b, g, k)
  {
    var base := InitrdName(b, k.id);
    EspOnlyKeepsSources(f, g, ExtraPaths(b, k));
    assert Same(f, g, SourcePath(k)) && Same(f, g, TargetPath(k));
    var src := InitrdSource(b, k);
    if src.Some? {
      SourcesStay(f, g, src.value.area, base);
      assert Same(f, g, src.value) && Same(f, g, EspInitrd(b, k));
      forall n | n in GlobNames(g, src.value.area, base)
        ensures Match(g, Path(src.value.area, n), Path(EspKernels, n))
      {
        assert Same(f, g, Path(src.value.area, n)) && Same(f, g, Path(EspKernels, n));
      }
    }
  }

  /** What an installation copies from is there. */
  ghost predicate SourcesThere(b: Build, files: Files, k: Kernel) {
    SourcePath(k) in files && (InitrdSource(b, k).Some? ==> InitrdSource(b, k).value in files)
  }

  // ----- the files a removal deletes -----

  /** The module directory the kernel was found with, and if that lies below /usr the one outside too. */
  predicate ModuleTree(b: Build, k: Kernel, p: Path) {
    match ModulePath(k)
    case None => false
    case Some(dir) => p == dir || (b.usrModules && dir.area.ModuleDir? && p == Path(OldModuleDir, dir.name))
  }

  predicate CopyOrTree(b: Build, k: Kernel, p: Path) {
    || p == TargetPath(k)
    || ModuleTree(b, k, p)
    || (k.hasHeaders && p == Path(HeaderDir, HeadersName(k.id)))
  }

  predicate Configuration(k: Kernel, p: Path) {
    || p == Path(KernelDir, CmdlineName(k.id))
    || (k.hasConfig && p == Path(KernelDir, ConfigName(k.id)))
    || (k.hasSystemMap && p == Path(KernelDir, SystemMapName(k.id)))
    || (k.hasVmlinux && p == Path(KernelDir, VmlinuxName(k.id)))
    || p == Path(MarkerDir, MarkerName(MetaIdent(k)))
  }

  predicate InitrdFile(b: Build, k: Kernel, p: Path) {
    k.hasInitrd && (p.area.KernelDir? || p.area.EspKernels?) && IsOrExtends(p.name, InitrdName(b, k.id))
  }

  predicate Legacy(b: Build, k: Kernel, p: Path) {
    p.area.EspRoot? && (p.name == k.bpath || (TargetInitrd(b, k).Some? && p.name == InitrdName(b, k.id)))
  }

  /** What is removed before the source. */
  predicate RemovedFirst(b: Build, k: Kernel, p: Path) {
    CopyOrTree(b, k, p) || Configuration(k, p) || InitrdFile(b, k, p)
  }

  ghost function EarlyPaths(b: Build, k: Kernel): iset<Path> {
    iset p: Path | RemovedFirst(b, k, p)
  }

  /** Everything of a kernel but its user initrds, and but its initrds on the ESP when it has no system
      initrd of its own. */
  predicate Removable(b: Build, k: Kernel, p: Path) {
    RemovedFirst(b, k, p) || p == SourcePath(k) || Legacy(b, k, p) || p == EntryPath(b, k)
  }

  ghost function RemovablePaths(b: Build, k: Kernel): iset<Path> {
    iset p: Path | Removable(b, k, p)
  }

  lemma RemovableOwned(b: Build, k: Kernel)
    requires CanonicalKernel(b, k)
    ensures RemovablePaths(b, k) <= Owned(b, k.id)
  {
    assert MetaIdent(k) == k.id;
  }

  /** A kernel's source is not mistaken for one of its other files. */
  lemma SourceApart(b: Build, k: Kernel)
    requires SaneBuild(b) && CanonicalKernel(b, k)
    ensures !RemovedFirst(b, k, SourcePath(k))
  {
    var name, id := k.bpath, k.id;
    if RemovedFirst(b, k, SourcePath(k)) {
      var kind: nat :=
        if name == CmdlineName(id) then 1
        else if name == ConfigName(id) then 2
        else if name == SystemMapName(id) then 3
        else if name == VmlinuxName(id) then 4
        else 5;
      var x := KindHasStem(b, id, 0, name);
      var y := KindHasStem(b, id, kind, name);
      DivergeExtends(Stem(b, 0), x, Stem(b, kind), y);
      assert false;
    }
  }
}
