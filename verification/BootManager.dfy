/** The boot manager's own steps: installing and removing a kernel, writing the default. Each says which
    paths it may touch at any crash point, whatever fails, and what it has achieved when it succeeds. */
module BootManagers {
  import opened Text
  import opened Disks
  import opened Names
  import opened Freestanding
  import opened Systemd
  import opened Kernels
  import opened Installs

  class BootManager {
    const settings: Settings
    const config: Config
    const links: Links
    const disk: Disk
    const initrds: Initrds
    const sysKernel: Option<Ident>
    const sane: bool             // cbm_is_sysconfig_sane

    ghost predicate Valid()
      reads this, disk, initrds
    {
      initrds.disk == disk && initrds.Valid()
    }

    constructor (settings: Settings, config: Config, links: Links, initrds: Initrds, sysKernel: Option<Ident>,
                 sane: bool)
      requires initrds.Valid()
      ensures Valid() && this.settings == settings && this.config == config && this.links == links
      ensures this.initrds == initrds && this.sysKernel == sysKernel && this.sane == sane
    {
      this.settings := settings;
      this.config := config;
      this.links := links;
      this.disk := initrds.disk;
      this.initrds := initrds;
      this.sysKernel := sysKernel;
      this.sane := sane;
    }

    function Environment(): Env
      reads this, initrds
    {
      Env(settings.build, config, initrds.initrds, disk.order(initrds.initrds.Keys), initrds.ucode, disk.order)
    }

    // ----- installing -----

    /** Copies unless the files already match. */
    method CopyIfNeeded(src: Path, target: Path, ghost fp: iset<Path>) returns (ok: bool)
      requires disk.Valid() && src != target && src != Tmp(target)
      requires target in fp && Tmp(target) in fp
      modifies disk
      ensures disk.Valid() && Evolves(old(disk.history), disk.history, fp) && disk.faults >= old(disk.faults)
      ensures Frame(old(disk.files), disk.files, iset{target, Tmp(target)})
      ensures ok ==> Match(disk.files, src, target)
      ensures src in old(disk.files) && disk.faults == old(disk.faults) ==> ok
      ensures old(Match(disk.files, src, target)) ==> disk.history == old(disk.history)
    {
      if disk.FilesMatch(src, target) {
        return true;
      }
      ghost var h0 := disk.history;
      ok := disk.CopyFileAtomic(src, target);
      EvolvesLast(h0, disk.history, iset{target, Tmp(target)});
      EvolvesThen(h0, disk.history, disk.history, iset{target, Tmp(target)}, fp, fp);
    }

    /** Unlinks a file if it is there. `h0` is the history at the start of the caller. */
    method Discard(p: Path, ghost h0: seq<Files>, ghost fp: iset<Path>) returns (gone: bool)
      requires disk.Valid() && Removes(h0, disk.history, fp) && p in fp
      modifies disk
      ensures disk.Valid() && Removes(h0, disk.history, fp) && disk.faults >= old(disk.faults)
      ensures Shrunk(old(disk.files), disk.files) && (gone ==> p !in disk.files)
      ensures disk.faults == old(disk.faults) ==> gone
    {
      gone := true;
      if p in disk.files {
        ghost var h1 := disk.history;
        gone := disk.Unlink(p);
        RemovesThen(h0, h1, disk.history, fp, iset{p}, fp);
      }
    }

    /** boot_manager_remove_legacy_uefi_kernel */
    method RemoveLegacy(k: Kernel, ghost h0: seq<Files>, ghost fp: iset<Path>) returns (ok: bool)
      requires disk.Valid() && Removes(h0, disk.history, fp)
      requires Path(EspRoot, k.bpath) in fp
      requires TargetInitrd(settings.build, k).Some? ==> Path(EspRoot, InitrdName(settings.build, k.id)) in fp
      modifies disk
      ensures disk.Valid() && Removes(h0, disk.history, fp) && disk.faults >= old(disk.faults)
      ensures Shrunk(old(disk.files), disk.files)
      ensures disk.faults == old(disk.faults) ==>
                && Path(EspRoot, k.bpath) !in disk.files
                && (TargetInitrd(settings.build, k).Some? ==>
                      Path(EspRoot, InitrdName(settings.build, k.id)) !in disk.files)
    {
      ok := Discard(Path(EspRoot, k.bpath), h0, fp);
      if TargetInitrd(settings.build, k).Some? {
        var gone := Discard(Path(EspRoot, InitrdName(settings.build, k.id)), h0, fp);
        ok := ok && gone;
      }
    }

    /** _copy_glob_result */
    method CopyGlobResult(k: Kernel, area: Area, names: seq<string>) returns (ok: bool)
      requires disk.Valid() && IsSource(Path(area, "")) && Distinct(names)
      requires forall j | 0 <= j < |names| :: HasPrefix(names[j], InitrdName(settings.build, k.id) + ".")
      requires forall j | 0 <= j < |names| :: Path(area, names[j]) in disk.files
      modifies disk
      ensures disk.Valid() && Evolves(old(disk.history), disk.history, ExtraTargets(settings.build, k))
      ensures disk.faults >= old(disk.faults)
      ensures ok && NoStagingSources(old(disk.files)) ==> Copied(disk.files, area, names, |names|)
      ensures disk.faults == old(disk.faults) ==> ok
      ensures old(Copied(disk.files, area, names, |names|)) ==> disk.history == old(disk.history)
    {
      ghost var h0, f0 := disk.history, disk.files;
      ghost var tp := ExtraTargets(settings.build, k);
      for i := 0 to |names|
        invariant disk.Valid() && Evolves(h0, disk.history, tp) && disk.faults >= old(disk.faults)
        invariant NoStagingSources(f0) ==> Copied(disk.files, area, names, i)
        invariant SourcesKept(f0, disk.files)
        invariant Copied(f0, area, names, |names|) ==> disk.history == h0
      {
        var target := Path(EspKernels, names[i]);
        TmpExtends(target, InitrdName(settings.build, k.id));
        ghost var h1, f1 := disk.history, disk.files;
        assert Same(f0, f1, Path(area, names[i]));
        ok := CopyIfNeeded(Path(area, names[i]), target, tp);
        EvolvesThen(h0, h1, disk.history, tp, tp, tp);
        EvolvesLast(h0, disk.history, tp);
        EspOnlyKeepsSources(f0, disk.files, tp);
        if !ok {
          return false;
        }
        if NoStagingSources(f0) {
          CopiedOne(f0, f1, disk.files, area, names, i, tp);
        }
      }
      ok := true;
    }

    /** _copy_extra_initrds */
    method CopyExtras(k: Kernel, area: Area) returns (ok: bool)
      requires disk.Valid() && IsSource(Path(area, ""))
      modifies disk
      ensures disk.Valid() && Evolves(old(disk.history), disk.history, ExtraTargets(settings.build, k))
      ensures disk.faults >= old(disk.faults)
      ensures ok && NoStagingSources(old(disk.files)) ==>
                forall n | n in old(GlobNames(disk.files, area, InitrdName(settings.build, k.id))) ::
                  Match(disk.files, Path(area, n), Path(EspKernels, n))
      ensures disk.faults == old(disk.faults) ==> ok
      ensures old(ExtrasMatch(settings.build, disk.files, k, area)) ==> disk.history == old(disk.history)
    {
      ok := disk.Try();
      if !ok {
        return false;
      }
      var base := InitrdName(settings.build, k.id);
      var names := disk.Glob(area, base);
      ghost var extras := GlobNames(disk.files, area, base);
      assert forall n | n in extras :: n in names;
      assert forall j | 0 <= j < |names| :: names[j] in extras;
      ok := CopyGlobResult(k, area, names);
    }

    /** The part of boot_manager_install_kernel_internal that copies initrds. */
    method InstallInitrd(k: Kernel, src: Path) returns (ok: bool)
      requires disk.Valid() && InitrdSource(settings.build, k) == Some(src)
      modifies disk
      ensures disk.Valid() && Evolves(old(disk.history), disk.history, InitrdTargets(settings.build, k))
      ensures disk.faults >= old(disk.faults)
      ensures ok && NoStagingSources(old(disk.files)) ==> InitrdInstalled(settings.build, disk.files, k, src)
      ensures src in old(disk.files) && disk.faults == old(disk.faults) ==> ok
      ensures old(InitrdInstalled(settings.build, disk.files, k, src)) ==> disk.history == old(disk.history)
    {
      ghost var h0, f0 := disk.history, disk.files;
      ghost var fp := InitrdTargets(settings.build, k);
      var target := EspInitrd(settings.build, k);
      TmpExtends(target, InitrdName(settings.build, k.id));
      ok := CopyIfNeeded(src, target, fp);
      if !ok {
        return false;
      }
      ghost var h1, f1 := disk.history, disk.files;
      ok := CopyExtras(k, src.area);
      ghost var xp := ExtraTargets(settings.build, k);
      EvolvesThen(h0, h1, disk.history, fp, xp, fp);
      EvolvesLast(h1, disk.history, xp);
      if ok {
        InitrdDone(settings.build, k, src, f0, f1, disk.files);
      }
    }

    /** Behind the kernel's own copy: the initrds, and after them the files old versions left. */
    method InstallInitrds(k: Kernel, src: Path) returns (ok: bool)
      requires disk.Valid() && InitrdSource(settings.build, k) == Some(src)
      requires Match(disk.files, SourcePath(k), TargetPath(k))
      modifies disk
      ensures disk.Valid() && Evolves(old(disk.history), disk.history, InstallPaths(settings.build, k))
      ensures disk.faults >= old(disk.faults)
      ensures ok && NoStagingSources(old(disk.files)) ==> BlobsInstalled(settings.build, disk.files, k)
      ensures src in old(disk.files) && disk.faults == old(disk.faults) ==> ok
      ensures old(InitrdInstalled(settings.build, disk.files, k, src)) ==>
                Evolves(old(disk.history), disk.history, ExtraPaths(settings.build, k))
    {
      ghost var h0, f0, b := disk.history, disk.files, settings.build;
      ghost var fp, ip, xp := InstallPaths(b, k), InitrdTargets(b, k), ExtraPaths(b, k);
      ok := InstallInitrd(k, src);
      EvolvesThen(h0, disk.history, disk.history, ip, iset{}, fp);
      if !ok {
        return;
      }
      ghost var h1, f1 := disk.history, disk.files;
      var _ := RemoveLegacy(k, h1, xp);
      EvolvesThen(h0, h1, disk.history, fp, xp, fp);
      EvolvesLast(h0, h1, ip);
      EvolvesLast(h1, disk.history, xp);
      if NoStagingSources(f0) {
        BlobsDone(b, k, src, f0, f1);
        BlobsStay(b, k, f1, disk.files);
      }
    }

    /** boot_manager_install_kernel_internal */
    method InstallBlobs(k: Kernel) returns (ok: bool)
      requires disk.Valid()
      modifies disk
      ensures disk.Valid() && Evolves(old(disk.history), disk.history, InstallPaths(settings.build, k))
      ensures disk.faults >= old(disk.faults)
      ensures ok && NoStagingSources(old(disk.files)) ==> BlobsInstalled(settings.build, disk.files, k)
      ensures old(SourcesThere(settings.build, disk.files, k)) && disk.faults == old(disk.faults) ==> ok
      ensures old(BlobsInstalled(settings.build, disk.files, k)) ==>
                Evolves(old(disk.history), disk.history, ExtraPaths(settings.build, k))
    {
      ghost var h0, f0, fp := disk.history, disk.files, InstallPaths(settings.build, k);
      TmpExtends(TargetPath(k), "kernel-" + k.bpath);
      ok := CopyIfNeeded(SourcePath(k), TargetPath(k), fp);
      var src := InitrdSource(settings.build, k);
      if !ok || src.None? {
        return;
      }
      ghost var h1, f1 := disk.history, disk.files;
      assert Same(f0, f1, src.value);
      EspOnlyKeepsSources(f0, f1, iset{TargetPath(k), Tmp(TargetPath(k))});
      SourcesStay(f0, f1, src.value.area, "");
      ok := InstallInitrds(k, src.value);
      EvolvesThen(h0, h1, disk.history, fp, fp, fp);
    }

    /** sd_class_install_kernel */
    method WriteEntry(k: Kernel) returns (ok: bool)
      requires Valid()
      modifies disk
      ensures Valid() && Evolves(old(disk.history), disk.history, iset{EntryPath(settings.build, k)})
      ensures disk.faults >= old(disk.faults)
      ensures disk.faults == old(disk.faults) ==> ok
      ensures ok ==> EntryWritten(Environment(), disk.files, k)
      ensures old(EntryWritten(Environment(), disk.files, k)) ==> disk.history == old(disk.history)
    {
      ghost var h0, f0, e := disk.history, disk.files, Environment();
      var extras := [];
      if k.hasInitrd {
        extras := disk.Glob(KernelDir, InitrdName(settings.build, k.id));
      }
      var keys := disk.order(initrds.initrds.Keys);
      var text := ComposeEntry(config, "kernel-" + k.bpath, initrds.initrds, keys, initrds.ucode,
                               TargetInitrd(settings.build, k), extras, k.cmdline);
      assert text == EntryOf(e, f0, k);
      var p := EntryPath(settings.build, k);
      if p in disk.files && disk.files[p] == text {
        return true;
      }
      ok := disk.FileSetText(p, text);
      EvolvesLast(h0, disk.history, iset{p});
      EspOnlyKeepsSources(f0, disk.files, iset{p});
      SourcesStay(f0, disk.files, KernelDir, InitrdName(settings.build, k.id));
    }

    /** boot_manager_install_kernel */
    method InstallKernel(k: Kernel) returns (ok: bool)
      requires Valid()
      modifies disk
      ensures Valid() && Evolves(old(disk.history), disk.history, InstallPaths(settings.build, k))
      ensures disk.faults >= old(disk.faults)
      ensures ok && NoStagingSources(old(disk.files)) ==> Installed(Environment(), disk.files, k)
      ensures sane && old(SourcesThere(settings.build, disk.files, k)) && disk.faults == old(disk.faults) ==> ok
      ensures old(BlobsInstalled(settings.build, disk.files, k)) ==>
                Evolves(old(disk.history), disk.history, ExtraPaths(settings.build, k))
    {
      if !sane {
        return false;
      }
      ghost var h0 := disk.history;
      ok := InstallBlobs(k);
      if !ok {
        return false;
      }
      ghost var h1, f1 := disk.history, disk.files;
      ghost var ep, xp := iset{EntryPath(settings.build, k)}, ExtraPaths(settings.build, k);
      ok := WriteEntry(k);
      EvolvesThen(h0, h1, disk.history, InstallPaths(settings.build, k), ep, InstallPaths(settings.build, k));
      EvolvesThen(h1, h1, disk.history, xp, ep, xp);
      EvolvesLast(h1, disk.history, xp);
      if BlobsInstalled(settings.build, f1, k) {
        BlobsStay(settings.build, k, f1, disk.files);
      }
      if old(BlobsInstalled(settings.build, disk.files, k)) {
        EvolvesThen(h0, h1, disk.history, xp, ep, xp);
      }
    }

    // ----- removing -----

    /** Unlinks a file whose presence was recorded when the kernel was inspected. */
    method DiscardIf(recorded: bool, p: Path, ghost h0: seq<Files>, ghost fp: iset<Path>)
      requires disk.Valid() && Removes(h0, disk.history, fp) && (recorded ==> p in fp)
      modifies disk
      ensures disk.Valid() && Removes(h0, disk.history, fp) && disk.faults >= old(disk.faults)
      ensures Shrunk(old(disk.files), disk.files)
      ensures recorded && disk.faults == old(disk.faults) ==> p !in disk.files
    {
      if recorded {
        var _ := Discard(p, h0, fp);
      }
    }

    /** nc_rm_rf of a directory whose presence was recorded. */
    method DiscardTree(recorded: bool, p: Path, ghost h0: seq<Files>, ghost fp: iset<Path>)
      requires disk.Valid() && Removes(h0, disk.history, fp) && (recorded ==> p in fp)
      modifies disk
      ensures disk.Valid() && Removes(h0, disk.history, fp) && disk.faults >= old(disk.faults)
      ensures Shrunk(old(disk.files), disk.files)
      ensures recorded && disk.faults == old(disk.faults) ==> p !in disk.files
    {
      if recorded && p in disk.files {
        ghost var h1 := disk.history;
        var _ := disk.RemoveTree(p);
        RemovesThen(h0, h1, disk.history, fp, iset{p}, fp);
      }
    }

    /** The kernel on the ESP, and its module and header directories; failures are only reported. */
    method RemoveTrees(k: Kernel, ghost h0: seq<Files>, ghost fp: iset<Path>)
      requires disk.Valid() && Removes(h0, disk.history, fp) && forall p | CopyOrTree(settings.build, k, p) :: p in fp
      modifies disk
      ensures disk.Valid() && Removes(h0, disk.history, fp) && disk.faults >= old(disk.faults)
      ensures Shrunk(old(disk.files), disk.files)
      ensures disk.faults == old(disk.faults) ==> forall p | CopyOrTree(settings.build, k, p) :: p !in disk.files
    {
      DiscardIf(true, TargetPath(k), h0, fp);
      var dir := ModulePath(k);
      if dir.Some? {
        DiscardTree(true, dir.value, h0, fp);
        DiscardTree(settings.build.usrModules && dir.value.area.ModuleDir?, Path(OldModuleDir, dir.value.name), h0, fp);
      }
      DiscardTree(k.hasHeaders, Path(HeaderDir, HeadersName(k.id)), h0, fp);
    }

    /** The files beside the kernel; failures are only reported. */
    method RemoveConfiguration(k: Kernel, ghost h0: seq<Files>, ghost fp: iset<Path>)
      requires disk.Valid() && Removes(h0, disk.history, fp) && forall p | Configuration(k, p) :: p in fp
      modifies disk
      ensures disk.Valid() && Removes(h0, disk.history, fp) && disk.faults >= old(disk.faults)
      ensures Shrunk(old(disk.files), disk.files)
      ensures disk.faults == old(disk.faults) ==> forall p | Configuration(k, p) :: p !in disk.files
    {
      DiscardIf(true, Path(KernelDir, CmdlineName(k.id)), h0, fp);
      DiscardIf(k.hasConfig, Path(KernelDir, ConfigName(k.id)), h0, fp);
      DiscardIf(k.hasSystemMap, Path(KernelDir, SystemMapName(k.id)), h0, fp);
      DiscardIf(k.hasVmlinux, Path(KernelDir, VmlinuxName(k.id)), h0, fp);
      DiscardIf(true, Path(MarkerDir, MarkerName(MetaIdent(k))), h0, fp);
    }

    /** _remove_glob_result: goes on after a failure. */
    method RemoveGlobResult(area: Area, names: seq<string>, ghost h0: seq<Files>, ghost fp: iset<Path>)
      returns (ok: bool)
      requires disk.Valid() && Removes(h0, disk.history, fp) && Distinct(names)
      requires forall j | 0 <= j < |names| :: Path(area, names[j]) in disk.files && Path(area, names[j]) in fp
      modifies disk
      ensures disk.Valid() && Removes(h0, disk.history, fp) && disk.faults >= old(disk.faults)
      ensures Shrunk(old(disk.files), disk.files)
      ensures disk.faults == old(disk.faults) ==> ok
      ensures ok ==> forall j | 0 <= j < |names| :: Path(area, names[j]) !in disk.files
    {
      ok := true;
      for i := 0 to |names|
        invariant disk.Valid() && Removes(h0, disk.history, fp) && disk.faults >= old(disk.faults)
        invariant Shrunk(old(disk.files), disk.files)
        invariant forall j | i <= j < |names| :: Path(area, names[j]) in disk.files
        invariant disk.faults == old(disk.faults) ==> ok
        invariant ok ==> forall j | 0 <= j < i :: Path(area, names[j]) !in disk.files
      {
        ghost var h1 := disk.history;
        var gone := disk.Unlink(Path(area, names[i]));
        RemovesThen(h0, h1, disk.history, fp, iset{Path(area, names[i])}, fp);
        ok := ok && gone;
      }
    }

    /** _remove_extra_initrds */
    method RemoveExtras(area: Area, base: string, ghost h0: seq<Files>, ghost fp: iset<Path>) returns (ok: bool)
      requires disk.Valid() && Removes(h0, disk.history, fp)
      requires forall n | HasPrefix(n, base + ".") :: Path(area, n) in fp
      modifies disk
      ensures disk.Valid() && Removes(h0, disk.history, fp) && disk.faults >= old(disk.faults)
      ensures Shrunk(old(disk.files), disk.files)
      ensures disk.faults == old(disk.faults) ==> ok
      ensures ok ==> forall n | HasPrefix(n, base + ".") :: Path(area, n) !in disk.files
    {
      ok := disk.Try();
      if !ok {
        return false;
      }
      ghost var f0 := disk.files;
      var names := disk.Glob(area, base);
      assert forall j | 0 <= j < |names| :: names[j] in GlobNames(f0, area, base);
      ok := RemoveGlobResult(area, names, h0, fp);
      assert forall n | HasPrefix(n, base + ".") && Path(area, n) in f0 :: n in names by {
        assert forall n | HasPrefix(n, base + ".") && Path(area, n) in f0 :: n in GlobNames(f0, area, base);
      }
    }

    /** The initrds of a kernel that has one; only failing to remove the extra ones counts. */
    method RemoveInitrds(k: Kernel, ghost h0: seq<Files>, ghost fp: iset<Path>) returns (ok: bool)
      requires disk.Valid() && Removes(h0, disk.history, fp) && forall p | InitrdFile(settings.build, k, p) :: p in fp
      modifies disk
      ensures disk.Valid() && Removes(h0, disk.history, fp) && disk.faults >= old(disk.faults)
      ensures Shrunk(old(disk.files), disk.files)
      ensures disk.faults == old(disk.faults) ==> ok
      ensures disk.faults == old(disk.faults) ==> forall p | InitrdFile(settings.build, k, p) :: p !in disk.files
    {
      ok := true;
      if k.hasInitrd {
        var name := InitrdName(settings.build, k.id);
        DiscardIf(true, Path(KernelDir, name), h0, fp);
        DiscardIf(true, EspInitrd(settings.build, k), h0, fp);
        ok := RemoveExtras(KernelDir, name, h0, fp);
        if ok {
          ok := RemoveExtras(EspKernels, name, h0, fp);
        }
      }
    }

    /** Everything that goes before the source. */
    method RemoveBeforeSource(k: Kernel) returns (ok: bool)
      requires disk.Valid()
      modifies disk
      ensures disk.Valid() && Removes(old(disk.history), disk.history, EarlyPaths(settings.build, k))
      ensures disk.faults >= old(disk.faults) && Shrunk(old(disk.files), disk.files)
      ensures disk.faults == old(disk.faults) ==> ok
      ensures disk.faults == old(disk.faults) ==> forall p | RemovedFirst(settings.build, k, p) :: p !in disk.files
    {
      ghost var h0, fp := disk.history, EarlyPaths(settings.build, k);
      RemoveTrees(k, h0, fp);
      RemoveConfiguration(k, h0, fp);
      ok := RemoveInitrds(k, h0, fp);
    }

    /** boot_manager_remove_kernel_internal */
    method RemoveBlobs(k: Kernel) returns (ok: bool)
      requires disk.Valid()
      modifies disk
      ensures disk.Valid() && Removes(old(disk.history), disk.history, RemovablePaths(settings.build, k))
      ensures disk.faults >= old(disk.faults) && Shrunk(old(disk.files), disk.files)
      ensures ok ==> SourcePath(k) !in disk.files
      ensures (&& SourcePath(k) in old(disk.files) && !RemovedFirst(settings.build, k, SourcePath(k))
               && disk.faults == old(disk.faults)) ==> ok
      ensures ok && disk.faults == old(disk.faults) ==>
                forall p | Removable(settings.build, k, p) && p != EntryPath(settings.build, k) :: p !in disk.files
    {
      ghost var h0, f0, fp, src := disk.history, disk.files, RemovablePaths(settings.build, k), SourcePath(k);
      ok := RemoveBeforeSource(k);
      ghost var h1 := disk.history;
      RemovesThen(h0, h1, h1, EarlyPaths(settings.build, k), fp, fp);
      if !ok {
        return false;
      }
      assert !RemovedFirst(settings.build, k, src) ==> Same(f0, disk.files, src) by {
        EvolvesLast(h0, h1, EarlyPaths(settings.build, k));
        assert !RemovedFirst(settings.build, k, src) ==> src !in EarlyPaths(settings.build, k);
      }
      ok := disk.Unlink(SourcePath(k));
      RemovesThen(h0, h1, disk.history, fp, iset{src}, fp);
      if !ok {
        return false;
      }
      var _ := RemoveLegacy(k, h0, fp);
    }

    /** boot_manager_remove_kernel */
    method RemoveKernel(k: Kernel) returns (ok: bool)
      requires Valid()
      modifies disk
      ensures Valid() && Removes(old(disk.history), disk.history, RemovablePaths(settings.build, k))
      ensures disk.faults >= old(disk.faults) && Shrunk(old(disk.files), disk.files)
      ensures ok ==> SourcePath(k) !in disk.files
      ensures (&& sane && SourcePath(k) in old(disk.files) && !RemovedFirst(settings.build, k, SourcePath(k))
               && disk.faults == old(disk.faults)) ==> ok
      ensures ok && disk.faults == old(disk.faults) ==>
                forall p | Removable(settings.build, k, p) :: p !in disk.files
    {
      if !sane {
        return false;
      }
      ghost var h0 := disk.history;
      ok := RemoveBlobs(k);
      if !ok {
        return false;
      }
      var _ := Discard(EntryPath(settings.build, k), h0, RemovablePaths(settings.build, k));
    }

    // ----- finding kernels, writing the default -----

    /** The loop over the names of the kernel directory; a kernel that cannot be read is skipped. */
    method ReadKernels(files: Files, names: seq<string>) returns (ks: seq<Kernel>)
      requires Distinct(names) && forall i | 0 <= i < |names| :: Path(KernelDir, names[i]) in files
      modifies disk`faults
      ensures disk.faults >= old(disk.faults)
      ensures ReadSome(KernelsOn(settings, files), names, |names|, ks)
      ensures disk.faults == old(disk.faults) ==> ReadEach(KernelsOn(settings, files), names, |names|, ks)
    {
      ks := [];
      ghost var all := KernelsOn(settings, files);
      for i := 0 to |names|
        invariant disk.faults >= old(disk.faults)
        invariant ReadSome(all, names, i, ks)
        invariant disk.faults == old(disk.faults) ==> ReadEach(all, names, i, ks)
      {
        NamedKernel(settings, files, names[i]);
        ReadNone(all, names, i, ks);
        if files[Path(KernelDir, names[i])] == "" {
          continue;
        }
        var k := Inspect(settings, files, names[i]);
        var readable := disk.Try();
        if readable && k.Some? {
          ReadOne(all, names, i, ks, k.value);
          ks := ks + [k.value];
        }
      }
    }

    /** boot_manager_get_kernels */
    method GetKernels() returns (ks: seq<Kernel>)
      requires disk.Valid()
      modifies disk`faults
      ensures disk.Valid() && disk.faults >= old(disk.faults)
      ensures AreKernels(KernelsOn(settings, disk.files), ks)
      ensures disk.faults == old(disk.faults) ==> IsComplete(KernelsOn(settings, disk.files), ks)
    {
      hide Inspect, IsKernel, KernelsOn;
      ks := [];
      var readable := disk.Try();
      if readable {
        var names := disk.List(KernelDir);
        ks := ReadKernels(disk.files, names);
        AllRead(settings, disk.files, names, ks);
      }
    }

    /** sd_class_set_default_kernel */
    method WriteDefaultConfig(k: Kernel) returns (ok: bool)
      requires Valid()
      modifies disk
      ensures Valid() && Evolves(old(disk.history), disk.history, iset{LOADER_CONF}) && disk.faults >= old(disk.faults)
      ensures ok ==> DefaultWritten(settings.build, config, disk.files, k)
      ensures disk.faults == old(disk.faults) ==> ok
      ensures old(DefaultWritten(settings.build, config, disk.files, k)) ==> disk.history == old(disk.history)
    {
      var text := LoaderText(settings.build, config, MetaIdent(k));
      if LOADER_CONF in disk.files && disk.files[LOADER_CONF] == text {
        return true;
      }
      ok := disk.FileSetText(LOADER_CONF, text);
    }

    /** Whether the kernel is found again when the kernel directory is read anew. */
    method FindAgain(k: Kernel) returns (ok: bool)
      requires disk.Valid()
      modifies disk`faults
      ensures disk.Valid() && disk.faults >= old(disk.faults)
      ensures ok ==> exists j :: j in KernelsOn(settings, disk.files) && MetaIdent(j) == MetaIdent(k)
      ensures k in KernelsOn(settings, disk.files) && disk.faults == old(disk.faults) ==> ok
    {
      var ks := GetKernels();
      if ks == [] {
        return false;
      }
      ok := disk.Try();
      if ok {
        var found := FindFirst(ks, IsSystemKernel(MetaIdent(k)));
        ok := found.Some?;
        assert ok ==> found.value in ks && MetaIdent(found.value) == MetaIdent(k);
      }
    }

    /** boot_manager_set_default_kernel: only a kernel that is still found may become the default. */
    method SetDefaultKernel(k: Kernel) returns (ok: bool)
      requires Valid()
      modifies disk
      ensures Valid() && Evolves(old(disk.history), disk.history, iset{LOADER_CONF}) && disk.faults >= old(disk.faults)
      ensures ok ==> DefaultWritten(settings.build, config, disk.files, k)
      ensures ok ==> exists j :: j in KernelsOn(settings, old(disk.files)) && MetaIdent(j) == MetaIdent(k)
      ensures sane && k in KernelsOn(settings, old(disk.files)) && disk.faults == old(disk.faults) ==> ok
      ensures old(DefaultWritten(settings.build, config, disk.files, k)) ==> disk.history == old(disk.history)
    {
      if !sane {
        return false;
      }
      ok := FindAgain(k);
      if ok {
        ok := WriteDefaultConfig(k);
      }
    }
  }
}
