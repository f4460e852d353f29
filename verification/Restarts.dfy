/** Updates that follow one another: any number of them, and one after a crash. */
module Restarts {
  import opened Text
  import opened Disks
  import opened Names
  import opened Kernels
  import opened Plans
  import opened Installs
  import opened Safety
  import opened Updates
  import opened BootManagers
  import opened NativeUpdate
  import opened Guarantees
  import opened Freestanding

  // ----- any number of updates -----

  /** From `h` on the copies of these kernels are what they were, at every moment. */
  ghost predicate CopiesSince(b: Build, ks: iset<Kernel>, h: seq<Files>, h2: seq<Files>) {
    && h != [] && h <= h2
    && forall i, k, p | |h| <= i < |h2| && k in ks && IsBlob(b, k, p) :: Same(Last(h), h2[i], p)
  }

  lemma CopiesSinceThen(b: Build, ks: iset<Kernel>, h: seq<Files>, h1: seq<Files>, h2: seq<Files>)
    requires CopiesSince(b, ks, h, h1) && CopiesSince(b, ks, h1, h2)
    ensures CopiesSince(b, ks, h, h2)
  {
    forall i, k, p | |h| <= i < |h2| && k in ks && IsBlob(b, k, p)
      ensures Same(Last(h), h2[i], p)
    {
      if i < |h1| {
        assert h2[i] == h1[i];
      } else {
        assert Same(Last(h1), h2[i], p);
        assert |h| < |h1| ==> Same(Last(h), h1[|h1| - 1], p);
      }
    }
  }

  /** The kernels, and from `h` on at every moment their copies, are what they were. */
  ghost predicate QuietSince(s: Settings, h: seq<Files>, h2: seq<Files>) {
    && h != [] && h2 != [] && KernelsOn(s, Last(h2)) == KernelsOn(s, Last(h))
    && CopiesSince(s.build, KernelsOn(s, Last(h)), h, h2)
  }

  lemma QuietSinceThen(s: Settings, h: seq<Files>, h1: seq<Files>, h2: seq<Files>)
    ensures QuietSince(s, h, h1) && QuietSince(s, h1, h2) ==> QuietSince(s, h, h2)
  {
    if QuietSince(s, h, h1) && QuietSince(s, h1, h2) {
      CopiesSinceThen(s.build, KernelsOn(s, Last(h)), h, h1, h2);
    }
  }

  lemma NothingRemoved(links: Links, sys: Option<Ident>, r: Report, h: seq<Files>)
    requires WentWell(links, sys, r, h) && Removals(r.sel) == []
    ensures KernelsOn(r.scene.settings, Last(h)) == r.scene.all
  {
    FinalKernels(r.scene, Members(Removals(r.sel)), Secured(r.sel, r.repaired), r.ready.value, h);
    WithoutNone(KernelsOn(r.scene.settings, Last(h)), r.scene.all, Removals(r.sel));
  }

  lemma WithoutNone(left: iset<Kernel>, all: iset<Kernel>, gone: seq<Kernel>)
    requires left == all - Members(gone) && gone == []
    ensures left == all
  {
  }

  lemma AllSince(b: Build, all: iset<Kernel>, ks: seq<Kernel>, h: seq<Files>, h2: seq<Files>)
    requires h != [] && h <= h2 && CopiesNothing(b, ks, h, h2) && IsComplete(all, ks)
    ensures CopiesSince(b, all, h, h2)
  {
  }

  lemma SafeGrows(links: Links, sys: Option<Ident>, r: Report, h: seq<Files>)
    requires IsSafe(links, sys, r, h)
    ensures r.scene.start <= h
  {
    RunTouches(links, sys, r, h);
  }

  /** A run on what a run that went well left finds the same kernels, leaves them, and copies nothing. */
  lemma NextIsQuiet(links: Links, sys: Option<Ident>, r: Report, h: seq<Files>, next: Report, h2: seq<Files>)
    requires WentWell(links, sys, r, h) && DistinctReleases(r.sel.kernels) && WentWell(links, sys, next, h2)
    requires next.scene == SceneOf(r.scene.settings, r.scene.env, h)
    ensures QuietSince(r.scene.settings, h, h2)
  {
    SecondRunIsQuiet(links, sys, r, h, next, h2);
    NothingRemoved(links, sys, next, h2);
    SafeGrows(links, sys, next, h2);
    AllSince(r.scene.env.build, next.scene.all, next.sel.kernels, h, h2);
  }

  /** The update before went well, and left a fit system. */
  ghost predicate Settled(self: BootManager, r: Option<Report>)
    reads self, self.disk, self.initrds, self.initrds.disk
  {
    && self.Valid() && IsFit(self) && r.Some?
    && WentWell(self.links, self.sysKernel, r.value, self.disk.history) && DistinctReleases(r.value.sel.kernels)
    && r.value.scene.settings == self.settings && r.value.scene.env == self.Environment()
  }

  method UpdateSettled(self: BootManager, ghost r: Option<Report>) returns (ok: bool, ghost next: Option<Report>)
    requires self.Valid()
    modifies self.disk
    ensures self.Valid() && self.disk.faults >= old(self.disk.faults)
    ensures old(Settled(self, r)) && self.disk.faults == old(self.disk.faults) ==>
              ok && Settled(self, next) && QuietSince(self.settings, old(self.disk.history), self.disk.history)
  {
    hide KernelsOn, RunningOf, Inspect;
    ghost var h := self.disk.history;
    ok, next := UpdateFit(self);
    if old(Settled(self, r)) && self.disk.faults == old(self.disk.faults) {
      NextIsQuiet(self.links, self.sysKernel, r.value, h, next.value, self.disk.history);
    }
  }

  /** One update and any number of others behind it: on a fit system without faults all succeed, and from the first
      one on the kernels and, at every moment, their copies are what they were. */
  method UpdateRepeatedly(self: BootManager, n: nat) returns (ok: bool, ghost between: seq<Files>)
    requires self.Valid()
    modifies self.disk
    ensures self.Valid() && between != []
    ensures old(IsFit(self)) && self.disk.faults == old(self.disk.faults) ==>
              ok && IsFit(self) && QuietSince(self.settings, between, self.disk.history)
  {
    hide KernelsOn, RunningOf, Selected, Inspect;
    ghost var calm := IsFit(self);
    ghost var r;
    ok, r := UpdateFit(self);
    between := self.disk.history;
    for i := 0 to n
      invariant self.Valid() && self.disk.faults >= old(self.disk.faults)
      invariant calm && self.disk.faults == old(self.disk.faults) ==>
          ok && Settled(self, r) && QuietSince(self.settings, between, self.disk.history)
    {
      ghost var h := self.disk.history;
      var again;
      again, r := UpdateSettled(self, r);
      ok := ok && again;
      QuietSinceThen(self.settings, between, h, self.disk.history);
    }
  }

  // ----- after a crash -----

  /** No kernel found has a module directory of the older naming beside it. */
  ghost predicate OwnModules(s: Settings, f: Files) {
    forall k | k in KernelsOn(s, f) :: Path(ModuleDir, UntypedName(k.id)) !in f
  }

  lemma EvolvesAt(h0: seq<Files>, h1: seq<Files>, fp: iset<Path>, i: nat)
    requires Evolves(h0, h1, fp) && |h0| - 1 <= i < |h1|
    ensures Frame(Last(h0), h1[i], fp)
  {
    assert i < |h0| ==> h1[i] == Last(h0);
  }

  lemma UntouchedOffEsp(c: Scene, f: Files, g: Files)
    requires Frame(f, g, Touched(c, iset{}))
    ensures ShrunkOffEsp(f, g)
  {
    forall p | p in g && !OnEsp(p)
      ensures p in f && f[p] == g[p]
    {
      assert p !in Touched(c, iset{});
      assert Same(f, g, p);
    }
  }

  lemma CollectingShrinks(c: Scene, removals: iset<Kernel>, done: iset<Kernel>, ready: seq<Files>, h: seq<Files>,
                          i: nat)
    requires Collecting(c, removals, done, ready, h) && c.start != [] && |c.start| - 1 <= i < |h|
    ensures ShrunkOffEsp(Last(c.start), h[i])
  {
    if i < |ready| {
      assert ready[i] == h[i];
      EvolvesAt(c.start, ready, Touched(c, iset{}), i);
      UntouchedOffEsp(c, Last(c.start), h[i]);
    }
  }

  /** Every state of a safe run: only what may be touched is, and off the ESP files only go. */
  lemma CrashState(links: Links, sys: Option<Ident>, r: Report, h: seq<Files>, i: nat)
    requires IsSafe(links, sys, r, h) && |r.scene.start| - 1 <= i < |h|
    ensures Frame(Last(r.scene.start), h[i], Touched(r.scene, Members(Removals(r.sel))))
    ensures ShrunkOffEsp(Last(r.scene.start), h[i])
    ensures Members(Removals(r.sel)) <= r.scene.all
  {
    var c, removals := r.scene, Members(Removals(r.sel));
    RunTouches(links, sys, r, h);
    EvolvesAt(c.start, h, Touched(c, removals), i);
    if r.ready.None? {
      EvolvesAt(c.start, h, Touched(c, iset{}), i);
      UntouchedOffEsp(c, Last(c.start), h[i]);
    } else {
      CollectingShrinks(c, removals, Secured(r.sel, r.repaired), r.ready.value, h, i);
    }
  }

  lemma FinalState(links: Links, sys: Option<Ident>, r: Report, h: seq<Files>)
    requires IsSafe(links, sys, r, h)
    ensures Frame(Last(r.scene.start), Last(h), Touched(r.scene, Members(Removals(r.sel))))
    ensures ShrunkOffEsp(Last(r.scene.start), Last(h))
    ensures Members(Removals(r.sel)) <= r.scene.all
  {
    SafeGrows(links, sys, r, h);
    CrashState(links, sys, r, h, |h| - 1);
  }

  /** A kernel found after files went is what is left of one that was found before. */
  lemma FoundRemnant(s: Settings, f: Files, g: Files, k: Kernel) returns (w: Kernel)
    requires ShrunkOffEsp(f, g) && k in KernelsOn(s, g)
    ensures w in KernelsOn(s, f) && IsRemnant(k, w)
  {
    InspectedBefore(s, f, g, k);
    w := Inspect(s, f, k.bpath).value;
    InspectedIs(s, f, k.bpath);
    InspectedIs(s, g, k.bpath);
    assert MarkerOf(k) == MarkerOf(w) && MarkerOf(k).area.MarkerDir?;
  }

  /** What is left of a canonical kernel is canonical. */
  lemma RemnantCanonical(s: Settings, f: Files, g: Files, k: Kernel, w: Kernel)
    requires ShrunkOffEsp(f, g) && k in KernelsOn(s, g) && w in KernelsOn(s, f) && IsRemnant(k, w)
    requires CanonicalKernel(s.build, w) && Path(ModuleDir, UntypedName(w.id)) !in f
    ensures CanonicalKernel(s.build, k) && Path(ModuleDir, UntypedName(k.id)) !in g
  {
    FoundIs(s, g, k);
    FoundModules(s, g, k);
  }

  lemma FoundModules(s: Settings, g: Files, k: Kernel)
    requires k in KernelsOn(s, g)
    ensures k.modules == ModulesOf(s.build, g, k.id)
  {
  }

  /** What enumeration finds after a crash: every kernel that is not removed, and what is left of others. */
  lemma CrashKernels(c: Scene, removals: iset<Kernel>, g: Files)
    requires Sound(c) && removals <= c.all && ShrunkOffEsp(Last(c.start), g)
    requires Frame(Last(c.start), g, Touched(c, removals))
    ensures forall k | k in KernelsOn(c.settings, g) :: exists w :: w in c.all && IsRemnant(k, w)
    ensures forall k | k in c.all && k !in removals :: k in KernelsOn(c.settings, g)
  {
    forall k | k in KernelsOn(c.settings, g)
      ensures exists w :: w in c.all && IsRemnant(k, w)
    {
      var w := FoundRemnant(c.settings, Last(c.start), g, k);
    }
    forall k | k in c.all && k !in removals
      ensures k in KernelsOn(c.settings, g)
    {
      SurvivorStays(c, removals, k, Last(c.start), g);
    }
  }

  lemma CrashTame(c: Scene, g: Files)
    requires Sound(c) && OwnModules(c.settings, Last(c.start)) && ShrunkOffEsp(Last(c.start), g)
    ensures Tame(c.settings, g) && OwnModules(c.settings, g)
  {
    var s, f := c.settings, Last(c.start);
    StillNoStaging(f, g);
    forall k | k in KernelsOn(s, g)
      ensures CanonicalKernel(s.build, k) && Path(ModuleDir, UntypedName(k.id)) !in g
    {
      var w := FoundRemnant(s, f, g, k);
      RemnantCanonical(s, f, g, k, w);
    }
  }

  // ----- an update after a crash -----

  lemma KeptIsSelected(links: Links, sys: Option<Ident>, sel: Selection, k: Kernel)
    requires Selected(links, sys, sel) && Kept(sel, k)
    ensures k in sel.kernels && k !in Removals(sel)
  {
    RemovalsExact(links, sys, sel);
    if sel.running != Some(k) {
      var i :| 0 <= i < |sel.types| && (sel.types[i].tip == k || sel.types[i].lastGood == Some(k));
      ChosenMembers(links, sys, sel, i);
    }
  }

  /** The run that was cut short: it had read all kernels, and knew the running one. */
  ghost predicate CutShort(links: Links, sys: Option<Ident>, r: Report, h: seq<Files>, i: nat) {
    && IsSafe(links, sys, r, h) && |r.scene.start| - 1 <= i < |h|
    && IsComplete(r.scene.all, r.sel.kernels) && r.sel.running.Some? && DistinctReleases(r.sel.kernels)
  }

  /** A run of the same system that begins with these files. */
  ghost predicate StartsOn(next: Scene, c: Scene, g: Files) {
    next.settings == c.settings && next.env == c.env && next.start != [] && Last(next.start) == g
  }

  lemma CrashLeftover(links: Links, sys: Option<Ident>, r: Report, h: seq<Files>, i: nat, ks: seq<Kernel>)
    requires CutShort(links, sys, r, h, i)
    requires AreKernels(KernelsOn(r.scene.settings, h[i]), ks) && IsComplete(KernelsOn(r.scene.settings, h[i]), ks)
    ensures Leftover(r.sel, ks)
  {
    CrashState(links, sys, r, h, i);
    CrashKernels(r.scene, Members(Removals(r.sel)), h[i]);
    forall k | k in ks
      ensures exists w :: w in r.sel.kernels && IsRemnant(k, w)
    {
      var w :| w in r.scene.all && IsRemnant(k, w);
    }
  }

  /** The state in which a crash leaves the system is one in which an update succeeds. */
  lemma CrashFit(links: Links, sys: Option<Ident>, r: Report, h: seq<Files>, i: nat)
    requires CutShort(links, sys, r, h, i) && OwnModules(r.scene.settings, Last(r.scene.start))
    ensures Tame(r.scene.settings, h[i])
    ensures var all := KernelsOn(r.scene.settings, h[i]);
            RunningKnown(all, sys) && ReleasesApart(all) && r.sel.running.value in all
  {
    var c, all := r.scene, KernelsOn(r.scene.settings, h[i]);
    CrashState(links, sys, r, h, i);
    CrashKernels(c, Members(Removals(r.sel)), h[i]);
    CrashTame(c, h[i]);
    var k := r.sel.running.value;
    assert Kept(r.sel, k);
    KeptIsSelected(links, sys, r.sel, k);
    assert k in all && HasTypeAndRelease(sys.value)(k);
    RemnantsApart(c.settings, h[i], all, c.all, r.sel.kernels);
  }

  lemma RemnantsApart(s: Settings, g: Files, all: iset<Kernel>, before: iset<Kernel>, ks: seq<Kernel>)
    requires all == KernelsOn(s, g) && IsComplete(before, ks) && DistinctReleases(ks)
    requires forall k | k in all :: exists w :: w in before && IsRemnant(k, w)
    ensures ReleasesApart(all)
  {
    forall j, k | j in all && k in all && j.id.ktype == k.id.ktype && j.release == k.release
      ensures j == k
    {
      var v :| v in before && IsRemnant(j, v);
      var w :| w in before && IsRemnant(k, w);
      assert v in ks && w in ks;
      OneKernelPerName(s, g, j, k);
    }
  }

  /** An update after a crash, at whatever moment, finds the same running kernel, tips and last booted kernels, and if
      it goes well it leaves exactly the kernels the first one would have left. */
  lemma CrashConverges(links: Links, sys: Option<Ident>, r: Report, h: seq<Files>, i: nat, next: Report, h2: seq<Files>)
    requires CutShort(links, sys, r, h, i) && WentWell(links, sys, next, h2)
    requires StartsOn(next.scene, r.scene, h[i])
    ensures next.sel.running == r.sel.running && forall k :: IsKeeper(next.sel, k) <==> IsKeeper(r.sel, k)
    ensures forall k :: k in KernelsOn(r.scene.settings, Last(h2)) <==> k in r.sel.kernels && Kept(r.sel, k)
  {
    CrashLeftover(links, sys, r, h, i, next.sel.kernels);
    SameKeepers(links, sys, r.sel, next.sel);
    ExactlyKeptSurvive(links, sys, next, h2);
    forall k | Kept(r.sel, k)
      ensures k in r.sel.kernels && k in next.sel.kernels && Kept(next.sel, k)
    {
      KeptIsSelected(links, sys, r.sel, k);
    }
  }

  // ----- what a crash leaves behind for good -----

  /** The command line of the kernel is gone, and its source still there. */
  ghost predicate IsCut(files: Files, k: Kernel) {
    SourcePath(k) in files && Path(KernelDir, CmdlineName(k.id)) !in files
  }

  /** Every removal passes through such a state: when all that goes before the source has gone. */
  method CutRemoval(self: BootManager, k: Kernel) returns (ok: bool)
    requires self.Valid() && SaneBuild(self.settings.build) && CanonicalKernel(self.settings.build, k)
    requires SourcePath(k) in self.disk.files
    modifies self.disk
    ensures self.Valid() && (self.disk.faults == old(self.disk.faults) ==> ok && IsCut(self.disk.files, k))
  {
    ghost var h0, b := self.disk.history, self.settings.build;
    ok := self.RemoveBeforeSource(k);
    EvolvesLast(h0, self.disk.history, EarlyPaths(b, k));
    SourceApart(b, k);
    assert SourcePath(k) !in EarlyPaths(b, k);
    assert Configuration(k, Path(KernelDir, CmdlineName(k.id)));
  }

  /** A kernel cut in two is not found any more. */
  lemma CutIsLost(s: Settings, g: Files, j: Kernel, k: Kernel)
    requires CanonicalKernel(s.build, j) && IsCut(g, j) && k in KernelsOn(s, g)
    ensures k.bpath != j.bpath
  {
    KernelNameReadsBack(s.build, j.id);
  }

  /** Of a kernel that is not found, no run touches the source. */
  lemma LostIsSpared(c: Scene, removals: iset<Kernel>, j: Kernel)
    requires Orderly(c) && removals <= c.all && CanonicalKernel(c.env.build, j)
    requires forall k | k in c.all :: k.bpath != j.bpath
    ensures SourcePath(j) !in Touched(c, removals)
  {
    var b, p := c.env.build, SourcePath(j);
    forall k | k in removals
      ensures !Removable(b, k, p)
    {
      RemovableOwned(b, k);
      if Removable(b, k, p) {
        assert p in Owned(b, k.id) && Owns(b, j.id, p);
        OwnershipDisjoint(b, k.id, j.id, p);
      }
    }
  }

  /** Whatever runs are made on it, it stays as it is. */
  lemma CutStays(links: Links, sys: Option<Ident>, next: Report, h2: seq<Files>, j: Kernel)
    requires IsSafe(links, sys, next, h2) && CanonicalKernel(next.scene.env.build, j)
    requires IsCut(Last(next.scene.start), j)
    ensures IsCut(Last(h2), j)
  {
    var c, removals := next.scene, Members(Removals(next.sel));
    FinalState(links, sys, next, h2);
    forall k | k in c.all
      ensures k.bpath != j.bpath
    {
      CutIsLost(c.settings, Last(c.start), j, k);
    }
    LostIsSpared(c, removals, j);
    CutRemains(Last(c.start), Last(h2), Touched(c, removals), j);
  }

  lemma CutRemains(f: Files, g: Files, fp: iset<Path>, j: Kernel)
    requires Frame(f, g, fp) && ShrunkOffEsp(f, g) && IsCut(f, j) && SourcePath(j) !in fp
    ensures IsCut(g, j)
  {
    assert Same(f, g, SourcePath(j)) && !OnEsp(Path(KernelDir, CmdlineName(j.id)));
  }

  lemma NotKept(links: Links, sys: Option<Ident>, sel: Selection, j: Kernel, k: Kernel)
    requires Selected(links, sys, sel) && j in Removals(sel) && k.bpath == j.bpath
    ensures !Kept(sel, k)
  {
    RemovalsExact(links, sys, sel);
    if Kept(sel, k) {
      KeptIsSelected(links, sys, sel, k);
    }
  }

  lemma RemnantFound(s: Settings, f: Files, g: Files, j: Kernel) returns (k: Kernel)
    requires ShrunkOffEsp(f, g) && j in KernelsOn(s, f)
    requires SourcePath(j) in g && Path(KernelDir, CmdlineName(j.id)) in g
    ensures k in KernelsOn(s, g) && k.bpath == j.bpath
  {
    FoundIs(s, f, j);
    k := Inspect(s, g, j.bpath).value;
    FoundAs(s, g, j.bpath);
    InspectedIs(s, g, j.bpath);
  }

  lemma RemovedIsFound(links: Links, sys: Option<Ident>, r: Report, h: seq<Files>, i: nat, j: Kernel)
    returns (k: Kernel)
    requires CutShort(links, sys, r, h, i) && j in Removals(r.sel) && SourcePath(j) in h[i] && !IsCut(h[i], j)
    ensures k in KernelsOn(r.scene.settings, h[i]) && k.bpath == j.bpath
  {
    CrashState(links, sys, r, h, i);
    assert j in Members(Removals(r.sel));
    k := RemnantFound(r.scene.settings, Last(r.scene.start), h[i], j);
  }

  /** What is left of a kernel that was to be removed, and is found, is removed by the next run. */
  lemma FoundIsCollected(links: Links, sys: Option<Ident>, r: Report, h: seq<Files>, i: nat, next: Report,
                         h2: seq<Files>, j: Kernel)
    requires CutShort(links, sys, r, h, i) && WentWell(links, sys, next, h2)
    requires StartsOn(next.scene, r.scene, h[i]) && j in Removals(r.sel)
    requires SourcePath(j) in h[i] && !IsCut(h[i], j)
    ensures SourcePath(j) !in Last(h2)
  {
    var k := RemovedIsFound(links, sys, r, h, i, j);
    CrashConverges(links, sys, r, h, i, next, h2);
    NotKept(links, sys, r.sel, j, k);
    RemovalsExact(links, sys, next.sel);
    assert k in next.sel.kernels && !Kept(next.sel, k);
    assert k in Removals(next.sel) && SourcePath(k) == SourcePath(j);
  }

  /** What is gone from the kernel directory stays gone. */
  lemma GoneStaysGone(links: Links, sys: Option<Ident>, next: Report, h2: seq<Files>, g: Files)
    requires WentWell(links, sys, next, h2) && next.scene.start != [] && Last(next.scene.start) == g
    ensures forall p: Path | p.area.KernelDir? && p in Last(h2) :: p in g
  {
    FinalState(links, sys, next, h2);
  }

  lemma RemovedIsCanonical(links: Links, sys: Option<Ident>, r: Report, h: seq<Files>, j: Kernel)
    requires IsSafe(links, sys, r, h) && j in Removals(r.sel)
    ensures CanonicalKernel(r.scene.env.build, j)
  {
    RunTouches(links, sys, r, h);
    assert j in Members(Removals(r.sel));
  }

  /** After a crash and a second run that goes well, the source of a kernel that was to be removed is still there
      exactly when the crash cut its removal in two; then it stays cut, whatever runs follow (`CutStays`). */
  lemma CutIsNeverCollected(links: Links, sys: Option<Ident>, r: Report, h: seq<Files>, i: nat, next: Report,
                            h2: seq<Files>, j: Kernel)
    requires CutShort(links, sys, r, h, i) && WentWell(links, sys, next, h2)
    requires StartsOn(next.scene, r.scene, h[i]) && j in Removals(r.sel)
    ensures SourcePath(j) in Last(h2) <==> IsCut(h[i], j)
    ensures IsCut(h[i], j) ==> IsCut(Last(h2), j)
  {
    CutIsLeft(links, sys, r, h, i, next, h2, j);
    OnlyCutIsLeft(links, sys, r, h, i, next, h2, j);
  }

  lemma CutIsLeft(links: Links, sys: Option<Ident>, r: Report, h: seq<Files>, i: nat, next: Report, h2: seq<Files>,
                  j: Kernel)
    requires CutShort(links, sys, r, h, i) && WentWell(links, sys, next, h2)
    requires StartsOn(next.scene, r.scene, h[i]) && j in Removals(r.sel)
    ensures IsCut(h[i], j) ==> IsCut(Last(h2), j)
  {
    RemovedIsCanonical(links, sys, r, h, j);
    if IsCut(h[i], j) {
      CutStays(links, sys, next, h2, j);
    }
  }

  lemma OnlyCutIsLeft(links: Links, sys: Option<Ident>, r: Report, h: seq<Files>, i: nat, next: Report,
                      h2: seq<Files>, j: Kernel)
    requires CutShort(links, sys, r, h, i) && WentWell(links, sys, next, h2)
    requires StartsOn(next.scene, r.scene, h[i]) && j in Removals(r.sel)
    ensures SourcePath(j) in Last(h2) ==> IsCut(h[i], j)
  {
    GoneStaysGone(links, sys, next, h2, h[i]);
    if SourcePath(j) in h[i] && !IsCut(h[i], j) {
      FoundIsCollected(links, sys, r, h, i, next, h2, j);
    }
  }

  /** What the second run makes of the first one's state. */
  ghost predicate Recovers(s: Settings, sel: Selection, crash: Files, next: Selection, files: Files) {
    && next.running == sel.running && (forall k :: IsKeeper(next, k) <==> IsKeeper(sel, k))
    && (forall k :: k in KernelsOn(s, files) <==> k in sel.kernels && Kept(sel, k))
    && (forall j | j in Removals(sel) :: SourcePath(j) in files <==> IsCut(crash, j))
  }

  lemma CrashRecovers(links: Links, sys: Option<Ident>, r: Report, h: seq<Files>, i: nat, next: Report, h2: seq<Files>)
    ensures CutShort(links, sys, r, h, i) && WentWell(links, sys, next, h2) && StartsOn(next.scene, r.scene, h[i]) ==>
              Recovers(r.scene.settings, r.sel, h[i], next.sel, Last(h2))
  {
    if CutShort(links, sys, r, h, i) && WentWell(links, sys, next, h2) && StartsOn(next.scene, r.scene, h[i]) {
      CrashConverges(links, sys, r, h, i, next, h2);
      forall j | j in Removals(r.sel)
        ensures SourcePath(j) in Last(h2) <==> IsCut(h[i], j)
      {
        CutIsNeverCollected(links, sys, r, h, i, next, h2, j);
      }
    }
  }

  lemma IsFitAfterCrash(self: BootManager, r: Report, h: seq<Files>, i: nat)
    requires self.Valid() && CutShort(self.links, self.sysKernel, r, h, i) && self.disk.files == h[i]
    requires r.scene.settings == self.settings && OwnModules(self.settings, Last(r.scene.start))
    requires self.sane && self.initrds.SourcesThere()
    ensures IsFit(self)
  {
    CrashFit(self.links, self.sysKernel, r, h, i);
  }

  /** An update on a fit system. */
  method UpdateOn(self: BootManager) returns (ok: bool, ghost next: Option<Report>)
    requires self.Valid()
    modifies self.disk
    ensures self.Valid()
    ensures old(IsFit(self)) && self.disk.faults == old(self.disk.faults) ==>
              && ok && next.Some? && WentWell(self.links, self.sysKernel, next.value, self.disk.history)
              && next.value.scene.settings == self.settings && next.value.scene.env == old(self.Environment())
              && next.value.scene.start != [] && Last(next.value.scene.start) == old(self.disk.files)
  {
    ok, next := UpdateFit(self);
  }

  /** An update on what a crash left, at whatever moment: without faults it succeeds, keeps what the first one would
      have kept, and removes the rest, but for the source of a kernel whose removal was cut in two. */
  method UpdateAfterCrash(self: BootManager, ghost r: Report, ghost h: seq<Files>, ghost i: nat)
    returns (ok: bool, ghost next: Option<Report>)
    requires self.Valid() && CutShort(self.links, self.sysKernel, r, h, i) && self.disk.files == h[i]
    requires r.scene.settings == self.settings && r.scene.env == self.Environment()
    requires OwnModules(self.settings, Last(r.scene.start)) && self.sane && self.initrds.SourcesThere()
    modifies self.disk
    ensures self.Valid()
    ensures self.disk.faults == old(self.disk.faults) ==>
              ok && next.Some? && Recovers(self.settings, r.sel, h[i], next.value.sel, self.disk.files)
  {
    IsFitAfterCrash(self, r, h, i);
    ok, next := UpdateOn(self);
    if self.disk.faults == old(self.disk.faults) {
      CrashRecovers(self.links, self.sysKernel, r, h, i, next.value, self.disk.history);
    }
  }
}
