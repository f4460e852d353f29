/** What an update may touch, and what it leaves in place, at every state the disk goes through. */
module Safety {
  import opened Disks
  import opened Names
  import opened Kernels
  import opened Installs
  import Freestanding

  /** An update as seen from its beginning: the disk's history so far, the kernels of the tree, and those
      of them whose copies on the ESP were already in place. */
  datatype Scene = Scene(settings: Settings, env: Env, start: seq<Files>, all: iset<Kernel>, safe: iset<Kernel>)

  ghost predicate Orderly(c: Scene) {
    && c.start != [] && c.env.build == c.settings.build
    && SaneBuild(c.env.build) && NoStagingSources(Last(c.start))
    && (forall k | k in c.all :: CanonicalKernel(c.env.build, k) && SourcesThere(c.env.build, Last(c.start), k))
    && (forall j, k | j in c.all && k in c.all && j.id == k.id :: j == k)
    && (forall k | k in c.safe :: k in c.all && BlobsInstalled(c.env.build, Last(c.start), k))
  }

  ghost predicate Sound(c: Scene) {
    Orderly(c) && c.all == KernelsOn(c.settings, Last(c.start))
  }

  ghost function SceneOf(s: Settings, env: Env, start: seq<Files>): Scene
    requires start != []
  {
    Scene(s, env, start, KernelsOn(s, Last(start)),
          iset k | k in KernelsOn(s, Last(start)) && BlobsInstalled(env.build, Last(start), k))
  }

  /** Names are canonical, and no source is named like a staging file. */
  ghost predicate Tame(s: Settings, files: Files) {
    CanonicalTree(s, files) && NoStagingSources(files)
  }

  lemma FoundSources(s: Settings, files: Files, k: Kernel)
    requires k in KernelsOn(s, files)
    ensures SourcesThere(s.build, files, k)
  {
  }

  lemma SceneSound(s: Settings, env: Env, start: seq<Files>)
    requires start != [] && Tame(s, Last(start)) && env.build == s.build
    ensures Sound(SceneOf(s, env, start))
  {
    var all := KernelsOn(s, Last(start));
    forall k | k in all
      ensures CanonicalKernel(s.build, k) && SourcesThere(s.build, Last(start), k)
    {
      FoundSources(s, Last(start), k);
    }
    forall j, k | j in all && k in all && j.id == k.id
      ensures j == k
    {
      if j != k {
        DistinctIdents(s, Last(start), j, k);
      }
    }
  }

  /** The ESP and what removals delete, but for the copies of kernels that were in place and stay. */
  ghost predicate MayTouch(c: Scene, removals: iset<Kernel>, p: Path) {
    && (OnEsp(p) || exists k :: k in removals && Removable(c.env.build, k, p))
    && forall k | k in c.safe && k !in removals :: !IsBlob(c.env.build, k, p)
  }

  ghost function Touched(c: Scene, removals: iset<Kernel>): iset<Path> {
    iset p: Path | MayTouch(c, removals, p)
  }

  lemma InstallTouches(c: Scene, j: Kernel)
    requires Orderly(c) && j in c.all
    ensures ExtraPaths(c.env.build, j) <= Touched(c, iset{})
    ensures j !in c.safe ==> InstallPaths(c.env.build, j) <= Touched(c, iset{})
  {
    var b := c.env.build;
    forall p, k | p in InstallPaths(b, j) && j != k && k in c.safe
      ensures !IsBlob(b, k, p)
    {
      OthersSpare(b, j, k);
      CanonicalPaths(b, k);
      assert p in KernelPaths(b, j) && p !in Owned(b, k.id);
    }
  }

  lemma RemovalTouches(c: Scene, removals: iset<Kernel>, j: Kernel)
    requires Orderly(c) && removals <= c.all && j in removals
    ensures RemovablePaths(c.env.build, j) <= Touched(c, removals)
  {
    var b := c.env.build;
    RemovableOwned(b, j);
    CanonicalPaths(b, j);
    forall p, k | p in RemovablePaths(b, j) && k in c.safe && k !in removals
      ensures !IsBlob(b, k, p)
    {
      OthersSpare(b, j, k);
      CanonicalPaths(b, k);
      assert p in KernelPaths(b, j) && p !in Owned(b, k.id);
    }
  }

  lemma FreestandingTouches(c: Scene)
    requires Orderly(c)
    ensures Freestanding.EspPaths() <= Touched(c, iset{})
  {
    forall p, k | p in Freestanding.EspPaths() && k in c.safe
      ensures !IsBlob(c.env.build, k, p)
    {
      FreestandingSpares(c.env.build, k.id);
      CanonicalPaths(c.env.build, k);
      assert p !in Owned(c.env.build, k.id);
    }
  }

  lemma TouchedGrows(c: Scene, removals: iset<Kernel>)
    ensures Touched(c, iset{}) <= Touched(c, removals)
  {
  }

  // ----- before the first removal -----

  /** So far only the ESP was touched, copies in place were not, and these kernels are installed. */
  ghost predicate Preparing(c: Scene, h: seq<Files>, done: iset<Kernel>) {
    && Evolves(c.start, h, Touched(c, iset{}))
    && forall k | k in done :: k in c.all && Installed(c.env, Last(h), k)
  }

  lemma SourcesUntouched(c: Scene, h: seq<Files>)
    requires Orderly(c) && Evolves(c.start, h, Touched(c, iset{}))
    ensures SourcesKept(Last(c.start), Last(h)) && NoStagingSources(Last(h))
    ensures forall k | k in c.all :: SourcesThere(c.env.build, Last(h), k)
  {
    EvolvesLast(c.start, h, Touched(c, iset{}));
    EspOnlyKeepsSources(Last(c.start), Last(h), Touched(c, iset{}));
    SourcesStay(Last(c.start), Last(h), KernelDir, "");
    forall k | k in c.all
      ensures SourcesThere(c.env.build, Last(h), k)
    {
      assert SourcesThere(c.env.build, Last(c.start), k);
      assert Same(Last(c.start), Last(h), SourcePath(k));
      assert InitrdSource(c.env.build, k).Some? ==> Same(Last(c.start), Last(h), InitrdSource(c.env.build, k).value);
    }
  }

  /** Copies depend on the sources and on themselves. */
  lemma BlobsFrame(b: Build, k: Kernel, f: Files, g: Files)
    requires SourcesKept(f, g) && (forall p | IsBlob(b, k, p) :: Same(f, g, p)) && BlobsInstalled(b, f, k)
    ensures BlobsInstalled(b, g, k)
  {
    var src, base := InitrdSource(b, k), InitrdName(b, k.id);
    assert IsBlob(b, k, TargetPath(k)) && IsBlob(b, k, EspInitrd(b, k));
    assert Same(f, g, SourcePath(k));
    if src.Some? {
      SourcesStay(f, g, src.value.area, base);
      assert Same(f, g, src.value);
      forall n | n in GlobNames(g, src.value.area, base)
        ensures Match(g, Path(src.value.area, n), Path(EspKernels, n))
      {
        assert IsBlob(b, k, Path(EspKernels, n)) && Same(f, g, Path(src.value.area, n));
      }
    }
  }

  lemma SafeStays(c: Scene, h: seq<Files>, k: Kernel)
    requires Orderly(c) && Evolves(c.start, h, Touched(c, iset{})) && k in c.safe
    ensures BlobsInstalled(c.env.build, Last(h), k)
  {
    SourcesUntouched(c, h);
    EvolvesLast(c.start, h, Touched(c, iset{}));
    assert forall p | IsBlob(c.env.build, k, p) :: p !in Touched(c, iset{});
    BlobsFrame(c.env.build, k, Last(c.start), Last(h));
  }

  lemma StaysInstalled(e: Env, f: Files, g: Files, k: Kernel, fp: iset<Path>)
    requires CanonicalKernel(e.build, k) && Installed(e, f, k)
    requires Frame(f, g, fp) && fp !! Owned(e.build, k.id)
    ensures Installed(e, g, k)
  {
    assert forall p | Owns(e.build, k.id, p) :: p in Owned(e.build, k.id);
    InstalledFrame(e, f, g, k);
  }

  /** An installation, successful or not, as a step of the preparation. */
  lemma InstallPrepares(c: Scene, h: seq<Files>, h1: seq<Files>, done: iset<Kernel>, j: Kernel, ok: bool)
    requires Orderly(c) && Preparing(c, h, done) && j in c.all
    requires Evolves(h, h1, InstallPaths(c.env.build, j))
    requires BlobsInstalled(c.env.build, Last(h), j) ==> Evolves(h, h1, ExtraPaths(c.env.build, j))
    requires ok && NoStagingSources(Last(h)) ==> Installed(c.env, Last(h1), j)
    ensures Preparing(c, h1, if ok then done + iset{j} else done - iset{j})
  {
    var b, fp := c.env.build, Touched(c, iset{});
    SourcesUntouched(c, h);
    InstallTouches(c, j);
    if j in c.safe {
      SafeStays(c, h, j);
      EvolvesThen(c.start, h, h1, fp, ExtraPaths(b, j), fp);
    } else {
      EvolvesThen(c.start, h, h1, fp, InstallPaths(b, j), fp);
    }
    EvolvesLast(h, h1, InstallPaths(b, j));
    forall k | k in done && k != j
      ensures Installed(c.env, Last(h1), k)
    {
      OthersSpare(b, j, k);
      StaysInstalled(c.env, Last(h), Last(h1), k, InstallPaths(b, j));
    }
  }

  /** A step that touches no kernel's files. */
  lemma OtherPrepares(c: Scene, h: seq<Files>, h1: seq<Files>, done: iset<Kernel>, fp: iset<Path>)
    requires Orderly(c) && Preparing(c, h, done) && Evolves(h, h1, fp) && fp <= Touched(c, iset{})
    requires forall k | k in c.all :: fp !! Owned(c.env.build, k.id)
    ensures Preparing(c, h1, done)
  {
    EvolvesThen(c.start, h, h1, Touched(c, iset{}), fp, Touched(c, iset{}));
    EvolvesLast(h, h1, fp);
    forall k | k in done
      ensures Installed(c.env, Last(h1), k)
    {
      StaysInstalled(c.env, Last(h), Last(h1), k, fp);
    }
  }

  lemma FreestandingPrepares(c: Scene, h: seq<Files>, h1: seq<Files>, done: iset<Kernel>, fp: iset<Path>)
    requires Orderly(c) && Preparing(c, h, done) && Evolves(h, h1, fp) && fp <= Freestanding.EspPaths()
    ensures Preparing(c, h1, done)
  {
    FreestandingTouches(c);
    forall k | k in c.all
      ensures fp !! Owned(c.env.build, k.id)
    {
      FreestandingSpares(c.env.build, k.id);
    }
    OtherPrepares(c, h, h1, done, fp);
  }

  lemma DefaultPrepares(c: Scene, h: seq<Files>, h1: seq<Files>, done: iset<Kernel>)
    requires Orderly(c) && Preparing(c, h, done) && Evolves(h, h1, iset{LOADER_CONF})
    ensures Preparing(c, h1, done)
  {
    OtherPrepares(c, h, h1, done, iset{LOADER_CONF});
  }

  lemma OffEspInspected(s: Settings, f: Files, g: Files, name: string)
    requires Frame(f, g, EspArea())
    ensures Inspect(s, f, name) == Inspect(s, g, name)
  {
    var r := ParseKernelName(s.build, name);
    if r.Some? {
      forall p | Inspected(s.build, r.value, p)
        ensures Same(f, g, p)
      {
        assert p !in EspArea();
      }
    }
    InspectFrame(s, f, g, name);
  }

  /** Enumeration looks at nothing on the ESP. */
  lemma OffEspKernels(s: Settings, f: Files, g: Files)
    requires Frame(f, g, EspArea())
    ensures KernelsOn(s, f) == KernelsOn(s, g)
  {
    forall k
      ensures k in KernelsOn(s, f) <==> k in KernelsOn(s, g)
    {
      OffEspInspected(s, f, g, k.bpath);
      assert Same(f, g, SourcePath(k));
    }
  }

  lemma StillKernel(c: Scene, h: seq<Files>, k: Kernel)
    requires Sound(c) && Evolves(c.start, h, Touched(c, iset{})) && k in c.all
    ensures k in KernelsOn(c.settings, Last(h))
  {
    EvolvesLast(c.start, h, Touched(c, iset{}));
    assert Touched(c, iset{}) <= EspArea();
    OffEspKernels(c.settings, Last(c.start), Last(h));
  }

  // ----- from the first removal on -----

  /** The files off the ESP that are left are unchanged. */
  ghost predicate ShrunkOffEsp(f: Files, g: Files) {
    forall p | p in g && !OnEsp(p) :: p in f && f[p] == g[p]
  }

  /** What the preparation achieved is still there. */
  ghost predicate StillReady(c: Scene, done: iset<Kernel>, ready: Files, now: Files) {
    && (forall k | k in done :: Installed(c.env, now, k))
    && Same(ready, now, LOADER_CONF)
  }

  /** What removals delete, and the freestanding initrds that are cleaned up behind them. */
  ghost function Collectable(c: Scene, removals: iset<Kernel>): iset<Path> {
    iset p: Path | p in Freestanding.EspPaths() || exists k :: k in removals && Removable(c.env.build, k, p)
  }

  /** `ready` is the history up to the first removal. */
  ghost predicate Collecting(c: Scene, removals: iset<Kernel>, done: iset<Kernel>, ready: seq<Files>, h: seq<Files>) {
    && Preparing(c, ready, done) && Evolves(ready, h, Collectable(c, removals))
    && removals <= c.all && (forall k | k in done :: k !in removals)
    && Evolves(c.start, h, Touched(c, removals))
    && (forall i | |ready| - 1 <= i < |h| :: StillReady(c, done, Last(ready), h[i]))
    && (forall i | |ready| - 1 <= i < |h| :: ShrunkOffEsp(Last(c.start), h[i]))
  }

  lemma CollectingStarts(c: Scene, removals: iset<Kernel>, done: iset<Kernel>, h: seq<Files>)
    requires Orderly(c) && Preparing(c, h, done) && removals <= c.all && forall k | k in done :: k !in removals
    ensures Collecting(c, removals, done, h, h)
  {
    TouchedGrows(c, removals);
    EvolvesThen(c.start, h, h, Touched(c, iset{}), iset{}, Touched(c, removals));
    EvolvesLast(c.start, h, Touched(c, iset{}));
    forall p | p in Last(h) && !OnEsp(p)
      ensures p in Last(c.start) && Last(c.start)[p] == Last(h)[p]
    {
      assert p !in Touched(c, iset{});
      assert Same(Last(c.start), Last(h), p);
    }
  }

  lemma StaysReady(c: Scene, done: iset<Kernel>, ready: Files, f: Files, g: Files, fp: iset<Path>)
    requires StillReady(c, done, ready, f) && Frame(f, g, fp) && LOADER_CONF !in fp
    requires forall k | k in done :: CanonicalKernel(c.env.build, k) && fp !! Owned(c.env.build, k.id)
    ensures StillReady(c, done, ready, g)
  {
    forall k | k in done
      ensures Installed(c.env, g, k)
    {
      StaysInstalled(c.env, f, g, k, fp);
    }
    assert Same(f, g, LOADER_CONF);
  }

  lemma StepCollects(c: Scene, removals: iset<Kernel>, done: iset<Kernel>, ready: seq<Files>, h: seq<Files>,
                     h1: seq<Files>, fp: iset<Path>)
    requires Orderly(c) && Collecting(c, removals, done, ready, h)
    requires Removes(h, h1, fp) && LOADER_CONF !in fp
    requires fp <= Touched(c, removals) && fp <= Collectable(c, removals)
    requires forall k | k in done :: fp !! Owned(c.env.build, k.id)
    ensures Collecting(c, removals, done, ready, h1)
  {
    EvolvesThen(c.start, h, h1, Touched(c, removals), fp, Touched(c, removals));
    EvolvesThen(ready, h, h1, Collectable(c, removals), fp, Collectable(c, removals));
    forall i | |ready| - 1 <= i < |h1|
      ensures StillReady(c, done, Last(ready), h1[i]) && ShrunkOffEsp(Last(c.start), h1[i])
    {
      if i < |h| {
        assert h1[i] == h[i];
      } else {
        StaysReady(c, done, Last(ready), Last(h), h1[i], fp);
        assert Shrunk(Last(h), h1[i]) && ShrunkOffEsp(Last(c.start), Last(h));
      }
    }
  }

  lemma RemovalCollects(c: Scene, removals: iset<Kernel>, done: iset<Kernel>, ready: seq<Files>, h: seq<Files>,
                        h1: seq<Files>, j: Kernel)
    requires Orderly(c) && Collecting(c, removals, done, ready, h) && j in removals
    requires Removes(h, h1, RemovablePaths(c.env.build, j))
    ensures Collecting(c, removals, done, ready, h1)
  {
    var fp := RemovablePaths(c.env.build, j);
    RemovalTouches(c, removals, j);
    RemovableOwned(c.env.build, j);
    CanonicalPaths(c.env.build, j);
    forall k | k in done
      ensures fp !! Owned(c.env.build, k.id)
    {
      OthersSpare(c.env.build, j, k);
    }
    assert LOADER_CONF !in fp;
    StepCollects(c, removals, done, ready, h, h1, fp);
  }

  lemma CleanupCollects(c: Scene, removals: iset<Kernel>, done: iset<Kernel>, ready: seq<Files>, h: seq<Files>,
                        h1: seq<Files>, fp: iset<Path>)
    requires Orderly(c) && Collecting(c, removals, done, ready, h)
    requires Removes(h, h1, fp) && fp <= Freestanding.EspPaths()
    ensures Collecting(c, removals, done, ready, h1)
  {
    FreestandingTouches(c);
    TouchedGrows(c, removals);
    forall k | k in done
      ensures fp !! Owned(c.env.build, k.id)
    {
      FreestandingSpares(c.env.build, k.id);
    }
    StepCollects(c, removals, done, ready, h, h1, fp);
  }

  lemma PreparingLess(c: Scene, h: seq<Files>, done: iset<Kernel>, fewer: iset<Kernel>)
    requires Preparing(c, h, done) && fewer <= done
    ensures Preparing(c, h, fewer)
  {
  }

  /** From the first removal on, no file of a kernel that stays is touched, on the ESP or off it. */
  lemma CollectingSpares(c: Scene, removals: iset<Kernel>, k: Kernel, p: Path)
    requires Orderly(c) && removals <= c.all && k in c.all && k !in removals && Owns(c.env.build, k.id, p)
    ensures p !in Collectable(c, removals)
  {
    var b := c.env.build;
    assert p in Owned(b, k.id);
    FreestandingSpares(b, k.id);
    forall j | j in removals
      ensures !Removable(b, j, p)
    {
      RemovableOwned(b, j);
      OthersSpare(b, j, k);
      CanonicalPaths(b, j);
      assert Removable(b, j, p) ==> p in RemovablePaths(b, j);
    }
  }

  /** No removal touches a file, off the ESP, of a kernel that stays. */
  lemma SurvivorSpared(c: Scene, removals: iset<Kernel>, k: Kernel, p: Path)
    requires Orderly(c) && removals <= c.all && k in c.all && k !in removals
    requires Owns(c.env.build, k.id, p) && !OnEsp(p)
    ensures p !in Touched(c, removals)
  {
    var b := c.env.build;
    if p in Touched(c, removals) {
      var j :| j in removals && Removable(b, j, p);
      RemovableOwned(b, j);
      assert p in Owned(b, j.id);
      OwnershipDisjoint(b, j.id, k.id, p);
      assert false;
    }
  }

  /** Nor an untyped module directory: kernels with such are not canonical. */
  lemma UntypedSpared(c: Scene, removals: iset<Kernel>, id: Ident)
    requires Orderly(c) && removals <= c.all && Canonical(id)
    ensures Path(ModuleDir, UntypedName(id)) !in Touched(c, removals)
  {
    forall j | j in removals
      ensures !Removable(c.env.build, j, Path(ModuleDir, UntypedName(id)))
    {
      UntypedDetermines(id, j.id);
      RemovableOwned(c.env.build, j);
      assert Path(ModuleDir, UntypedName(id)) !in Owned(c.env.build, j.id);
    }
  }

  lemma SurvivorStays(c: Scene, removals: iset<Kernel>, k: Kernel, f: Files, g: Files)
    requires Orderly(c) && removals <= c.all && k in c.all && k !in removals
    requires Frame(f, g, Touched(c, removals))
    ensures Inspect(c.settings, f, k.bpath) == Inspect(c.settings, g, k.bpath) && Same(f, g, SourcePath(k))
  {
    var s := c.settings;
    forall p | Inspected(s.build, k.id, p)
      ensures Same(f, g, p)
    {
      InspectedOwned(s.build, k.id, p);
      if Owns(s.build, k.id, p) {
        SurvivorSpared(c, removals, k, p);
      } else {
        UntypedSpared(c, removals, k.id);
      }
    }
    KernelFrame(s, f, g, k);
    SurvivorSpared(c, removals, k, SourcePath(k));
  }

  /** A name that passes inspection after files went, passed it before. */
  lemma InspectedBefore(s: Settings, f: Files, g: Files, k: Kernel)
    requires ShrunkOffEsp(f, g) && k in KernelsOn(s, g)
    ensures SourcePath(k) in f && f[SourcePath(k)] != "" && Inspect(s, f, k.bpath).Some?
    ensures Inspect(s, f, k.bpath).value in KernelsOn(s, f) && Inspect(s, f, k.bpath).value.bpath == k.bpath
  {
    var id := ParseKernelName(s.build, k.bpath).value;
    assert Path(KernelDir, CmdlineName(id)) in g;
  }

  /** Once the sources of the removed kernels are gone, enumeration finds exactly the others. */
  lemma FinalKernels(c: Scene, removals: iset<Kernel>, done: iset<Kernel>, ready: seq<Files>, h: seq<Files>)
    requires Sound(c) && Collecting(c, removals, done, ready, h)
    requires forall k | k in removals :: SourcePath(k) !in Last(h)
    ensures KernelsOn(c.settings, Last(h)) == c.all - removals
  {
    var s := c.settings;
    var f, g := Last(c.start), Last(h);
    EvolvesLast(c.start, h, Touched(c, removals));
    forall k | k in c.all && k !in removals
      ensures k in KernelsOn(s, g)
    {
      SurvivorStays(c, removals, k, f, g);
    }
    forall k | k in KernelsOn(s, g)
      ensures k in c.all && k !in removals
    {
      InspectedBefore(s, f, g, k);
      var before := Inspect(s, f, k.bpath).value;
      assert SourcePath(before) == SourcePath(k) && SourcePath(k) in g;
      SurvivorStays(c, removals, before, f, g);
    }
  }
}
