/** What the safety of a run means for its kernels, and what a second run does. */
module Guarantees {
  import opened Text
  import opened Disks
  import opened Names
  import opened Kernels
  import opened Plans
  import opened Installs
  import opened Safety
  import opened Updates
  import opened BootManagers
  import opened NativeUpdate
  import opened Traces
  import opened Freestanding
  import opened Systemd
  import opened Entries
  import opened EntryLaws
  import opened SelectionLaws
  import KernelLaws
  import opened TextLines

  /** A safe run with a known beginning, and the history it left. */
  ghost predicate IsSafe(links: Links, sys: Option<Ident>, r: Report, h: seq<Files>) {
    && h != [] && Sound(r.scene) && SafeRun(r, h)
    && AreKernels(r.scene.all, r.sel.kernels) && IsRun(links, sys, r.sel.kernels, r)
  }

  lemma RunTouches(links: Links, sys: Option<Ident>, r: Report, h: seq<Files>)
    requires IsSafe(links, sys, r, h)
    ensures Evolves(r.scene.start, h, Touched(r.scene, Members(Removals(r.sel))))
    ensures Members(Removals(r.sel)) <= r.scene.all
  {
    var c, removals := r.scene, Members(Removals(r.sel));
    KeptNotRemoved(links, sys, r.sel, false);
    if r.ready.None? {
      TouchedGrows(c, removals);
      EvolvesThen(c.start, h, h, Touched(c, iset{}), iset{}, Touched(c, removals));
    }
  }

  /** Whatever fails and whenever the machine goes down: of a kernel that is not removed, no file off the
      ESP is touched. */
  lemma KeptKernelsUntouched(links: Links, sys: Option<Ident>, r: Report, h: seq<Files>, i: nat, k: Kernel, p: Path)
    requires IsSafe(links, sys, r, h) && |r.scene.start| <= i < |h|
    requires k in r.scene.all && k !in Removals(r.sel) && Owns(r.scene.env.build, k.id, p) && !OnEsp(p)
    ensures Same(Last(r.scene.start), h[i], p)
  {
    var removals := Members(Removals(r.sel));
    RunTouches(links, sys, r, h);
    SurvivorSpared(r.scene, removals, k, p);
    assert Frame(Last(r.scene.start), h[i], Touched(r.scene, removals));
  }

  /** A kernel that is not removed, and whose copies on the ESP were in place when the run began, has them
      in place at every moment of the run. */
  lemma CopiesInPlaceStay(links: Links, sys: Option<Ident>, r: Report, h: seq<Files>, i: nat, k: Kernel)
    requires IsSafe(links, sys, r, h) && |r.scene.start| <= i < |h|
    requires k in r.scene.safe && k !in Removals(r.sel)
    ensures BlobsInstalled(r.scene.env.build, h[i], k)
  {
    var c, f, g := r.scene, Last(r.scene.start), h[i];
    RunTouches(links, sys, r, h);
    assert Frame(f, g, Touched(c, Members(Removals(r.sel))));
    forall p | Owns(c.env.build, k.id, p) && !OnEsp(p)
      ensures Same(f, g, p)
    {
      KeptKernelsUntouched(links, sys, r, h, i, k, p);
    }
    forall p | IsBlob(c.env.build, k, p)
      ensures Same(f, g, p)
    {
      assert p !in Touched(c, Members(Removals(r.sel)));
    }
    OwnBlobs(c.env.build, k, f, g);
  }

  /** Whether copies are in place is a matter of the kernel's own sources and of the copies. */
  lemma OwnBlobs(b: Build, k: Kernel, f: Files, g: Files)
    requires CanonicalKernel(b, k) && BlobsInstalled(b, f, k)
    requires forall p | Owns(b, k.id, p) && !OnEsp(p) :: Same(f, g, p)
    requires forall p | IsBlob(b, k, p) :: Same(f, g, p)
    ensures BlobsInstalled(b, g, k)
  {
    var src, base := InitrdSource(b, k), InitrdName(b, k.id);
    assert IsBlob(b, k, TargetPath(k)) && IsBlob(b, k, EspInitrd(b, k));
    assert Owns(b, k.id, SourcePath(k));
    if src.Some? {
      assert Owns(b, k.id, src.value);
      forall n | n in GlobNames(g, src.value.area, base)
        ensures Match(g, Path(src.value.area, n), Path(EspKernels, n))
      {
        assert Owns(b, k.id, Path(src.value.area, n)) && IsBlob(b, k, Path(EspKernels, n));
        assert Path(src.value.area, n) in f && n in GlobNames(f, src.value.area, base);
      }
    }
  }

  /** From the first removal on, at every moment: every tip and every last booted kernel is completely
      installed, and so is the running kernel if it could be repaired; and the new default is written. */
  lemma RemovalsComeLast(links: Links, sys: Option<Ident>, r: Report, h: seq<Files>, i: nat, k: Kernel)
    requires IsSafe(links, sys, r, h) && r.ready.Some? && |r.ready.value| - 1 <= i < |h|
    requires IsKeeper(r.sel, k) || (r.repaired && r.sel.running == Some(k))
    ensures Installed(r.scene.env, h[i], k)
    ensures r.sel.newDefault.Some? ==>
              DefaultWritten(r.scene.env.build, r.scene.env.config, h[i], r.sel.newDefault.value)
  {
    assert k in Secured(r.sel, r.repaired);
    assert StillReady(r.scene, Secured(r.sel, r.repaired), Last(r.ready.value), h[i]);
  }

  /** From there on no file of a kernel that is not removed changes any more, neither off the ESP nor its
      copies or its entry: not even those of a running kernel that could not be repaired. */
  lemma NothingKeptChanges(links: Links, sys: Option<Ident>, r: Report, h: seq<Files>, i: nat, k: Kernel, p: Path)
    requires IsSafe(links, sys, r, h) && r.ready.Some? && |r.ready.value| <= i < |h|
    requires k in r.scene.all && k !in Removals(r.sel) && Owns(r.scene.env.build, k.id, p)
    ensures Same(Last(r.ready.value), h[i], p)
  {
    var removals := Members(Removals(r.sel));
    KeptNotRemoved(links, sys, r.sel, false);
    CollectingSpares(r.scene, removals, k, p);
    assert Frame(Last(r.ready.value), h[i], Collectable(r.scene, removals));
  }

  /** From the first removal on, at every moment, each type has a completely installed kernel: the one its default link
      names, or, if it names none of the type, one of the highest release of all kernels of the type, booted or not. */
  lemma HighestIsInstalled(links: Links, sys: Option<Ident>, r: Report, h: seq<Files>, i: nat, t: string)
    returns (k: Kernel)
    requires IsSafe(links, sys, r, h) && r.ready.Some? && |r.ready.value| - 1 <= i < |h|
    requires t in TypesOf(r.sel.kernels)
    ensures k in r.sel.kernels && k.id.ktype == t && k !in Removals(r.sel)
    ensures Installed(r.scene.env, h[i], k) && IsBootable(r.scene.env, h[i], k)
    ensures if IsLinked(links, r.sel.kernels, t) then k.bpath == links[t]
            else forall j | j in r.sel.kernels && j.id.ktype == t :: j.release <= k.release
  {
    k := TipOfType(links, sys, r.sel, t);
    RemovalsComeLast(links, sys, r, h, i, k);
    KeptKernelsBoot(links, sys, r, h, i, k);
  }

  /** With distinct releases inside each type, these are installed from the first removal on: of every type the linked
      or else the highest kernel, and the highest booted one. */
  lemma FrontIsInstalled(links: Links, sys: Option<Ident>, r: Report, h: seq<Files>, i: nat, k: Kernel)
    requires IsSafe(links, sys, r, h) && r.ready.Some? && |r.ready.value| - 1 <= i < |h|
    requires DistinctReleases(r.sel.kernels) && k in r.sel.kernels
    requires IsFront(links, r.sel.kernels, k) || IsHighestBooted(r.sel.kernels, k)
    ensures Installed(r.scene.env, h[i], k)
  {
    var n :| 0 <= n < |r.sel.types| && r.sel.types[n].ktype == k.id.ktype;
    FrontIsTip(links, sys, r.sel, n, k);
    HighestBootedIsLast(links, sys, r.sel, n, k);
    assert IsKeeper(r.sel, k);
    RemovalsComeLast(links, sys, r, h, i, k);
  }

  /** Names a line can hold. */
  predicate OnOneLine(b: Build, id: Ident) {
    '\n' !in b.vendor && '\n' !in id.ktype && '\n' !in id.version
  }

  /** A loader reads in the entry the kernel's copy, its command line behind the root arguments, and among the initrds
      the kernel's own if it has one. */
  ghost predicate EntryNames(e: Env, text: string, k: Kernel) {
    && Read(text, "linux") == [e.config.kernelDir + "/" + ("kernel-" + k.bpath)]
    && Read(text, "options") == [RootArgs(e.config) + k.cmdline]
    && (k.hasInitrd || k.hasUserInitrd ==>
          e.config.kernelDir + "/" + InitrdName(e.build, k.id) in Read(text, "initrd"))
  }

  /** The file of this name in `area`, and every one that extends it behind a dot, equals its copy. */
  ghost predicate CopyStands(files: Files, area: Area, name: string) {
    && Match(files, Path(area, name), Path(EspKernels, name))
    && forall p | p in files && p.area == area && HasPrefix(p.name, name + ".") ::
         Match(files, p, Path(EspKernels, p.name))
  }

  /** The entry of a kernel bears its type, its version and the release as it is stored. */
  function OwnEntry(b: Build, k: Kernel): Path {
    Path(LoaderEntries, EntryName(b, Ident(k.id.ktype, k.id.version, k.release)))
  }

  /** What a machine needs to boot a kernel: its entry, which names its copy and its initrd if its fields are on one
      line each; its own image; and its initrd, the user's before the system's, with every extra one beside the one
      chosen. */
  ghost predicate IsBootable(e: Env, files: Files, k: Kernel) {
    && OwnEntry(e.build, k) in files
    && (IsOneLined(e, files, k) ==> EntryNames(e, files[OwnEntry(e.build, k)], k))
    && Match(files, Path(KernelDir, k.bpath), Path(EspKernels, "kernel-" + k.bpath))
    && (k.hasUserInitrd ==> CopyStands(files, UserInitrdDir, InitrdName(e.build, k.id)))
    && (k.hasInitrd && !k.hasUserInitrd ==> CopyStands(files, KernelDir, InitrdName(e.build, k.id)))
  }

  /** An installed kernel can be booted. */
  lemma InstalledBoots(e: Env, files: Files, k: Kernel)
    requires Installed(e, files, k)
    ensures IsBootable(e, files, k)
  {
    hide Read, EntryName, InitrdName, EntryOf, RootArgs;
    assert MetaIdent(k) == Ident(k.id.ktype, k.id.version, k.release);
    if IsOneLined(e, files, k) {
      OwnInitrdIsRead(e, files, k);
    }
  }

  /** Whatever its name: the first line of loader.conf names the entry that an installation writes. */
  lemma DefaultNamesEntry(b: Build, c: Config, files: Files, k: Kernel)
    requires DefaultWritten(b, c, files, k) && (c.consoleMode.Some? ==> '\n' !in c.consoleMode.value)
    requires '\n' !in OwnEntry(b, k).name
    ensures var lines := LinesFrom(files[Path(LoaderDir, "loader.conf")], 0);
            lines != [] && lines[0] == "default " + OwnEntry(b, k).name
    ensures EntryPath(b, k) == OwnEntry(b, k)
  {
    hide LinesFrom, EntryName;
    assert MetaIdent(k) == Ident(k.id.ktype, k.id.version, k.release);
    LoaderLines(b, c, MetaIdent(k));
  }

  /** From the first removal on, at every moment, every tip, every last booted kernel and the repaired running one can
      be booted. */
  lemma KeptKernelsBoot(links: Links, sys: Option<Ident>, r: Report, h: seq<Files>, i: nat, k: Kernel)
    requires IsSafe(links, sys, r, h) && r.ready.Some? && |r.ready.value| - 1 <= i < |h|
    requires k in r.sel.kernels && (IsKeeper(r.sel, k) || (r.repaired && r.sel.running == Some(k)))
    ensures IsBootable(r.scene.env, h[i], k)
  {
    RemovalsComeLast(links, sys, r, h, i, k);
    InstalledBoots(r.scene.env, h[i], k);
  }

  /** From the first removal on, at every moment, the machine boots the kernel that was made the default, if
      the default link stays within its type: loader.conf parses back to that kernel's file name, and it can be
      booted. */
  lemma DefaultBoots(links: Links, sys: Option<Ident>, r: Report, h: seq<Files>, i: nat, d: Kernel)
    requires IsSafe(links, sys, r, h) && r.ready.Some? && |r.ready.value| - 1 <= i < |h|
    requires r.sel.newDefault == Some(d) && d.id.ktype == DefaultType(sys, r.sel.running)
    requires OnOneLine(r.scene.env.build, d.id)
    ensures && Path(LoaderDir, "loader.conf") in h[i]
            && ParseLoader(r.scene.env.build, h[i][Path(LoaderDir, "loader.conf")]) == Some(d.bpath)
    ensures IsBootable(r.scene.env, h[i], d)
  {
    var b := r.scene.env.build;
    DefaultKept(links, sys, r.sel, d);
    RemovalsComeLast(links, sys, r, h, i, d);
    assert CanonicalKernel(b, d) && MetaIdent(d) == d.id;
    LoaderReadsBack(b, r.scene.env.config, d.id);
    InstalledBoots(r.scene.env, h[i], d);
  }

  lemma DefaultKept(links: Links, sys: Option<Ident>, sel: Selection, d: Kernel)
    requires Selected(links, sys, sel) && sel.newDefault == Some(d) && d.id.ktype == DefaultType(sys, sel.running)
    ensures d in sel.kernels && IsKeeper(sel, d)
  {
    assert d in sel.kernels;
    var t :| 0 <= t < |sel.types| && sel.types[t].ktype == d.id.ktype;
    DefaultIsTip(links, sys, sel, t);
  }

  /** At the end of a run whose removals all succeeded, loader.conf still names the default, and its source is there
      exactly when the kernel was kept. */
  lemma DefaultIsLeft(links: Links, sys: Option<Ident>, r: Report, h: seq<Files>, d: Kernel)
    requires IsSafe(links, sys, r, h) && r.ready.Some? && r.sel.running.Some? && r.sel.newDefault == Some(d)
    requires GoneUpto(Last(h), Removals(r.sel), |Removals(r.sel)|)
    ensures DefaultWritten(r.scene.env.build, r.scene.env.config, Last(h), d)
    ensures SourcePath(d) in Last(h) <==> Kept(r.sel, d)
  {
    var c := r.scene;
    assert StillReady(c, Secured(r.sel, r.repaired), Last(r.ready.value), Last(h));
    DefaultSurvives(links, sys, r.sel);
    if Kept(r.sel, d) {
      KeptSourceStays(links, sys, r, h, d);
    }
  }

  lemma KeptSourceStays(links: Links, sys: Option<Ident>, r: Report, h: seq<Files>, k: Kernel)
    requires IsSafe(links, sys, r, h) && k in r.scene.all && k !in Removals(r.sel)
    ensures SourcePath(k) in Last(h)
  {
    var c := r.scene;
    var removals := Members(Removals(r.sel));
    RunTouches(links, sys, r, h);
    SurvivorStays(c, removals, k, Last(c.start), Last(h)) by {
      EvolvesLast(c.start, h, Touched(c, removals));
    }
    assert SourcesThere(c.env.build, Last(c.start), k);
  }

  /** Up to then nothing off the ESP is touched. */
  lemma OnlyEspBefore(links: Links, sys: Option<Ident>, r: Report, h: seq<Files>, i: nat, p: Path)
    requires IsSafe(links, sys, r, h) && |r.scene.start| <= i < |h|
    requires (r.ready.Some? ==> i < |r.ready.value|) && !OnEsp(p)
    ensures Same(Last(r.scene.start), h[i], p)
  {
    var c := r.scene;
    var until := if r.ready.Some? then r.ready.value else h;
    assert Evolves(c.start, until, Touched(c, iset{}));
    assert until[i] == h[i] && p !in Touched(c, iset{});
  }

  /** When the running kernel is unknown, nothing off the ESP is touched at all. */
  lemma OnlyEspWhenUnknown(links: Links, sys: Option<Ident>, r: Report, h: seq<Files>, i: nat, p: Path)
    requires IsSafe(links, sys, r, h) && r.sel.running.None? && |r.scene.start| <= i < |h| && !OnEsp(p)
    ensures Same(Last(r.scene.start), h[i], p)
  {
    RunTouches(links, sys, r, h);
    RemovalsExact(links, sys, r.sel);
    assert p !in Touched(r.scene, Members(Removals(r.sel)));
  }

  /** After a successful run exactly the kernels that were kept are found. */
  lemma ExactlyKeptSurvive(links: Links, sys: Option<Ident>, r: Report, h: seq<Files>)
    requires IsSafe(links, sys, r, h) && r.ready.Some? && IsComplete(r.scene.all, r.sel.kernels)
    requires GoneUpto(Last(h), Removals(r.sel), |Removals(r.sel)|)
    ensures forall k :: k in KernelsOn(r.scene.settings, Last(h)) <==>
              k in r.sel.kernels && (r.sel.running.None? || Kept(r.sel, k))
  {
    FinalKernels(r.scene, Members(Removals(r.sel)), Secured(r.sel, r.repaired), r.ready.value, h);
    RemovalsExact(links, sys, r.sel);
  }

  // ----- events and states -----

  /** Every state of a run belongs to one of its events, and differs from where that event began only in paths
      of the event's step; or it belongs to the cleanup behind the last event. */
  lemma EveryStateIsTold(r: Report, h: seq<Files>, i: nat) returns (n: nat)
    requires IsTold(r, h) && r.scene.start != [] && |r.scene.start| <= i < |h|
    ensures r.stop != [] && r.stop <= h
    ensures i < |r.stop| ==>
              && n < |r.trace| && Tells(r.scene.env, r.trace[n]) && |r.trace[n].before| <= i < |r.trace[n].after|
              && Frame(Last(r.trace[n].before), h[i], StepPaths(r.scene.env.build, r.trace[n].step))
    ensures i >= |r.stop| ==> Frame(Last(r.stop), h[i], StalePaths(r.scene.env.overlay))
  {
    n := 0;
    if i < |r.stop| {
      n := StateHasEvent(r.scene.env, r.scene.start, r.trace, r.stop, i);
      assert h[i] == r.stop[i];
    }
  }

  /** All that comes behind the preparation are removals. */
  lemma OnlyRemovalsBehind(sel: Selection, trace: seq<Event>, j: nat)
    requires IsRunOf(Plan(sel), trace) && j < |trace|
    ensures j >= |Preparation(sel)| ==> trace[j].step.Remove?
  {
    var n := |Preparation(sel)|;
    assert j >= n ==> Plan(sel)[j] == RemovalPlan(Removals(sel))[j - n];
  }

  lemma EventBegins(r: Report, h: seq<Files>, j: nat)
    requires IsTold(r, h) && r.scene.start != [] && j < |r.trace|
    ensures r.scene.start <= r.trace[j].before <= h
    ensures r.ready.Some? && j < |Preparation(r.sel)| ==> r.trace[j].before <= r.ready.value
  {
    var e, n := r.scene.env, |Preparation(r.sel)|;
    var h1 := LeadsSplit(e, r.scene.start, r.trace, r.stop, j);
    LeadsGrows(e, r.scene.start, r.trace[..j], h1);
    LeadsGrows(e, h1, r.trace[j..], r.stop);
    if r.ready.Some? && j < n {
      var h2 := LeadsSplit(e, r.scene.start, r.trace, r.stop, n);
      var h3 := LeadsSplit(e, r.scene.start, r.trace[..n], h2, j);
      LeadsGrows(e, h3, r.trace[..n][j..], h2);
    }
  }

  /** A kernel whose installation succeeds is completely installed when it ends. */
  lemma InstallsDeliver(links: Links, sys: Option<Ident>, r: Report, h: seq<Files>, j: nat)
    requires IsSafe(links, sys, r, h) && IsTold(r, h)
    requires j < |r.trace| && r.trace[j].step.Install? && r.trace[j].ok
    ensures Installed(r.scene.env, Last(r.trace[j].after), r.trace[j].step.kernel)
  {
    var c, before := r.scene, r.trace[j].before;
    OnlyRemovalsBehind(r.sel, r.trace, j);
    EventBegins(r, h, j);
    var until := if r.ready.Some? then r.ready.value else h;
    assert Evolves(c.start, until, Touched(c, iset{}));
    assert Evolves(c.start, before, Touched(c, iset{}));
    SourcesUntouched(c, before);
    assert Tells(c.env, r.trace[j]);
  }

  // ----- the second run -----

  /** The first run went well: it read all kernels, knew the running one, repaired it, and finished. */
  ghost predicate WentWell(links: Links, sys: Option<Ident>, r: Report, h: seq<Files>) {
    && IsSafe(links, sys, r, h) && r.ready.Some?
    && r.sel.running.Some? && r.repaired
    && IsComplete(r.scene.all, r.sel.kernels)
    && GoneUpto(Last(h), Removals(r.sel), |Removals(r.sel)|)
  }

  lemma StillNoStaging(f: Files, g: Files)
    requires NoStagingSources(f) && ShrunkOffEsp(f, g)
    ensures NoStagingSources(g)
  {
  }

  lemma StillCanonical(s: Settings, all: iset<Kernel>, g: Files)
    requires SaneBuild(s.build) && (forall k | k in all :: CanonicalKernel(s.build, k)) && KernelsOn(s, g) <= all
    ensures CanonicalTree(s, g)
  {
  }

  /** What is left is again a tree of canonical names. */
  lemma StillTame(links: Links, sys: Option<Ident>, r: Report, h: seq<Files>)
    requires WentWell(links, sys, r, h)
    ensures Tame(r.scene.settings, Last(h))
  {
    FinalKernels(r.scene, Members(Removals(r.sel)), Secured(r.sel, r.repaired), r.ready.value, h);
    StillNoStaging(Last(r.scene.start), Last(h));
    StillCanonical(r.scene.settings, r.scene.all, Last(h));
  }

  /** Every survivor has its copies in place. */
  lemma SurvivorsInPlace(links: Links, sys: Option<Ident>, r: Report, h: seq<Files>, k: Kernel)
    requires WentWell(links, sys, r, h) && k in KernelsOn(r.scene.settings, Last(h))
    ensures BlobsInstalled(r.scene.env.build, Last(h), k)
  {
    ExactlyKeptSurvive(links, sys, r, h);
    RemovalsComeLast(links, sys, r, h, |h| - 1, k);
  }

  lemma SurvivorsSelected(links: Links, sys: Option<Ident>, r: Report, h: seq<Files>, all: iset<Kernel>,
                          next: Selection)
    requires WentWell(links, sys, r, h) && all == KernelsOn(r.scene.settings, Last(h))
    requires AreKernels(all, next.kernels) && IsComplete(all, next.kernels)
    ensures Survivors(r.sel, next.kernels)
  {
    ExactlyKeptSurvive(links, sys, r, h);
    RemovalsExact(links, sys, r.sel);
  }

  /** At every moment after `h` the copies of these kernels are what they were. */
  ghost predicate CopiesNothing(b: Build, ks: seq<Kernel>, h: seq<Files>, h2: seq<Files>)
    requires h != []
  {
    forall i, k, p | |h| <= i < |h2| && k in ks && IsBlob(b, k, p) :: Same(Last(h), h2[i], p)
  }

  /** Collection is a fixed point on the disk. With distinct releases inside each type, a second run after
      one that went well selects the same running kernel, tips and last booted kernels, removes nothing,
      and copies no kernel and no initrd: at every moment of it all the copies are what they were. */
  lemma SecondRunIsQuiet(links: Links, sys: Option<Ident>, r: Report, h: seq<Files>, next: Report, h2: seq<Files>)
    requires WentWell(links, sys, r, h) && DistinctReleases(r.sel.kernels)
    requires next.scene == SceneOf(r.scene.settings, r.scene.env, h)
    requires AreKernels(next.scene.all, next.sel.kernels) && IsComplete(next.scene.all, next.sel.kernels)
    requires IsRun(links, sys, next.sel.kernels, next) && (Sound(next.scene) ==> SafeRun(next, h2))
    ensures Sound(next.scene) && Removals(next.sel) == []
    ensures next.sel.running == r.sel.running && forall k :: IsKeeper(next.sel, k) <==> IsKeeper(r.sel, k)
    ensures CopiesNothing(r.scene.env.build, next.sel.kernels, h, h2)
  {
    hide RunningOf, FullCmdline, Removals, IsRunOf, Installed;
    StillTame(links, sys, r, h);
    SceneSound(r.scene.settings, r.scene.env, h);
    SurvivorsSelected(links, sys, r, h, next.scene.all, next.sel);
    FixedPoint(links, sys, r.sel, next.sel);
    RunTouches(links, sys, next, h2);
    forall i, k, p | |h| <= i < |h2| && k in next.sel.kernels && IsBlob(r.scene.env.build, k, p)
      ensures Same(Last(h), h2[i], p)
    {
      SurvivorsInPlace(links, sys, r, h, k);
      assert k in next.scene.safe && k !in Members(Removals(next.sel));
      assert p !in Touched(next.scene, Members(Removals(next.sel)));
      assert Frame(Last(h), h2[i], Touched(next.scene, Members(Removals(next.sel))));
    }
  }

  /** The first run went well, and the second one can read all kernels. */
  ghost predicate IsQuietPair(links: Links, sys: Option<Ident>, first: Report, between: seq<Files>, second: Report) {
    && WentWell(links, sys, first, between) && DistinctReleases(first.sel.kernels)
    && IsComplete(second.scene.all, second.sel.kernels)
  }

  /** The uname names a kernel of the tree. */
  ghost predicate RunningKnown(all: iset<Kernel>, sys: Option<Ident>) {
    sys.Some? && exists k :: k in all && HasTypeAndRelease(sys.value)(k)
  }

  ghost predicate ReleasesApart(all: iset<Kernel>) {
    forall j, k | j in all && k in all && j.id.ktype == k.id.ktype && j.release == k.release :: j == k
  }

  /** What an update wants in order to succeed: canonical names, a sane system, freestanding initrds that are
      there, and some kernel. */
  ghost predicate IsReady(self: BootManager)
    reads self, self.disk, self.initrds, self.initrds.disk
  {
    && Tame(self.settings, self.disk.files) && self.sane && self.initrds.SourcesThere()
    && exists k :: k in KernelsOn(self.settings, self.disk.files)
  }

  /** A ready system whose kernels the uname and their releases tell apart. */
  ghost predicate IsFit(self: BootManager)
    reads self, self.disk, self.initrds, self.initrds.disk
  {
    && IsReady(self)
    && RunningKnown(KernelsOn(self.settings, self.disk.files), self.sysKernel)
    && ReleasesApart(KernelsOn(self.settings, self.disk.files))
  }

  lemma RunningFound(all: iset<Kernel>, ks: seq<Kernel>, sys: Option<Ident>)
    requires RunningKnown(all, sys) && IsComplete(all, ks)
    ensures RunningOf(ks, sys).Some?
  {
    var k :| k in all && HasTypeAndRelease(sys.value)(k);
    assert k in ks;
  }

  /** On a fit system a run without faults goes well, and leaves the running kernel to be found. */
  lemma FitRunWentWell(links: Links, sys: Option<Ident>, r: Report, h: seq<Files>)
    requires IsSafe(links, sys, r, h) && r.ready.Some? && r.repaired && IsComplete(r.scene.all, r.sel.kernels)
    requires GoneUpto(Last(h), Removals(r.sel), |Removals(r.sel)|)
    requires RunningKnown(r.scene.all, sys) && ReleasesApart(r.scene.all)
    ensures WentWell(links, sys, r, h) && DistinctReleases(r.sel.kernels)
    ensures var left := KernelsOn(r.scene.settings, Last(h));
            RunningKnown(left, sys) && ReleasesApart(left) && exists k :: k in left
  {
    RunningFound(r.scene.all, r.sel.kernels, sys);
    ExactlyKeptSurvive(links, sys, r, h);
    assert Kept(r.sel, r.sel.running.value);
  }

  lemma SourceNotTouched(c: Scene, removals: iset<Kernel>, p: Path)
    requires !OnEsp(p) && p !in Apart()
    ensures p !in Touched(c, removals)
  {
    forall k | k in removals
      ensures !Removable(c.env.build, k, p)
    {
      KernelsApart(c.env.build, k);
      assert Removable(c.env.build, k, p) ==> p in RemovablePaths(c.env.build, k);
    }
  }

  /** No run touches the sources of the freestanding initrds. */
  lemma OverlaySourcesStay(links: Links, sys: Option<Ident>, r: Report, h: seq<Files>, m: Overlay)
    requires IsSafe(links, sys, r, h) && OffEspOverlay(m)
    ensures forall key | IsUnmasked(m, key) :: Same(Last(r.scene.start), Last(h), SourceOf(m, key))
  {
    var removals := Members(Removals(r.sel));
    RunTouches(links, sys, r, h);
    EvolvesLast(r.scene.start, h, Touched(r.scene, removals));
    forall key | IsUnmasked(m, key)
      ensures Same(Last(r.scene.start), Last(h), SourceOf(m, key))
    {
      SourceNotTouched(r.scene, removals, SourceOf(m, key));
    }
  }

  /** On a fit system a run without faults goes well, and leaves the system fit. */
  method UpdateFit(self: BootManager) returns (ok: bool, ghost r: Option<Report>)
    requires self.Valid()
    modifies self.disk
    ensures self.Valid() && self.disk.faults >= old(self.disk.faults)
    ensures r.Some? ==> r.value.scene == SceneOf(self.settings, self.Environment(), old(self.disk.history))
    ensures old(IsFit(self)) && self.disk.faults == old(self.disk.faults) ==>
              && ok && r.Some? && WentWell(self.links, self.sysKernel, r.value, self.disk.history)
              && DistinctReleases(r.value.sel.kernels) && IsFit(self)
  {
    ok, r := UpdateNative(self);
    if old(IsFit(self)) && self.disk.faults == old(self.disk.faults) {
      FitRunWentWell(self.links, self.sysKernel, r.value, self.disk.history);
      StillTame(self.links, self.sysKernel, r.value, self.disk.history);
      OverlaySourcesStay(self.links, self.sysKernel, r.value, self.disk.history, self.initrds.initrds);
    }
  }

  /** An update that follows another one. */
  method UpdateAgain(self: BootManager, ghost first: Option<Report>) returns (ok: bool, ghost second: Option<Report>)
    requires self.Valid()
    requires first.Some? ==> first.value.scene.settings == self.settings && first.value.scene.env == self.Environment()
    modifies self.disk
    ensures self.Valid() && self.disk.faults >= old(self.disk.faults)
    ensures first.Some? && second.Some? &&
            IsQuietPair(self.links, self.sysKernel, first.value, old(self.disk.history), second.value) ==>
              && Removals(second.value.sel) == [] && second.value.sel.running == first.value.sel.running
              && CopiesNothing(first.value.scene.env.build, second.value.sel.kernels,
                              old(self.disk.history), self.disk.history)
    ensures old(IsReady(self)) && self.disk.faults == old(self.disk.faults) ==>
              ok && second.Some? && IsComplete(second.value.scene.all, second.value.sel.kernels)
  {
    ghost var h := self.disk.history;
    ok, second := UpdateNative(self);
    if first.Some? && second.Some? && IsQuietPair(self.links, self.sysKernel, first.value, h, second.value) {
      SecondRunIsQuiet(self.links, self.sysKernel, first.value, h, second.value, self.disk.history);
    }
  }

  /** Two updates in a row: the second has nothing to do if the first went well; and on a fit system without
      faults both succeed, and the first did go well. */
  method UpdateTwice(self: BootManager)
    returns (one: bool, two: bool, ghost first: Option<Report>, ghost second: Option<Report>, ghost between: seq<Files>)
    requires self.Valid()
    modifies self.disk
    ensures self.Valid() && between != []
    ensures first.Some? && second.Some? &&
            IsQuietPair(self.links, self.sysKernel, first.value, between, second.value) ==>
              && Removals(second.value.sel) == [] && second.value.sel.running == first.value.sel.running
              && CopiesNothing(first.value.scene.env.build, second.value.sel.kernels, between, self.disk.history)
    ensures old(IsFit(self)) && self.disk.faults == old(self.disk.faults) ==>
              && one && two && first.Some? && second.Some?
              && IsQuietPair(self.links, self.sysKernel, first.value, between, second.value)
  {
    hide RunningOf, Inspect, Kept;
    one, first := UpdateFit(self);
    between := self.disk.history;
    two, second := UpdateAgain(self, first);
  }

  // ----- what removal leaves -----

  /** User initrds; initrds of a kernel without a system initrd; on the ESP anything beside the kernel that extends
      its name, such as an interrupted copy; and modules outside /usr, on a build that keeps none below it. */
  predicate LeftBehind(b: Build, k: Kernel, p: Path) {
    match p.area
    case UserInitrdDir => true
    case KernelDir => !k.hasInitrd && IsOrExtends(p.name, InitrdName(b, k.id))
    case EspKernels => p != TargetPath(k) && (k.hasInitrd ==> !IsOrExtends(p.name, InitrdName(b, k.id)))
    case EspRoot => p.name != k.bpath && TargetInitrd(b, k).None?
    case OldModuleDir => !b.usrModules
    case _ => false
  }

  /** The flags of a kernel tell which of its files are there. */
  ghost predicate FlagsAreTrue(b: Build, f: Files, k: Kernel) {
    && k.modules == ModulesOf(b, f, k.id)
    && (k.hasHeaders <==> Path(HeaderDir, HeadersName(k.id)) in f)
    && (k.hasConfig <==> Path(KernelDir, ConfigName(k.id)) in f)
    && (k.hasSystemMap <==> Path(KernelDir, SystemMapName(k.id)) in f)
    && (k.hasVmlinux <==> Path(KernelDir, VmlinuxName(k.id)) in f)
  }

  lemma FoundFlags(s: Settings, f: Files, k: Kernel)
    requires CanonicalKernel(s.build, k) && k in KernelsOn(s, f)
    ensures FlagsAreTrue(s.build, f, k)
  {
    KernelNameReadsBack(s.build, k.id);
  }

  /** An initrd is not one of a kernel's other files. */
  lemma InitrdApart(b: Build, id: Ident, kind: nat, name: string)
    requires SaneBuild(b) && kind < 5 && OfKind(b, id, kind, name)
    ensures !IsOrExtends(name, InitrdName(b, id))
  {
    if IsOrExtends(name, InitrdName(b, id)) {
      var x := KindHasStem(b, id, kind, name);
      var y := KindHasStem(b, id, 5, name);
      StemsDiverge(b, kind, 5);
      DivergeExtends(Stem(b, kind), x, Stem(b, 5), y);
      assert false;
    }
  }

  lemma InitrdOnly(b: Build, k: Kernel, name: string)
    requires SaneBuild(b) && CanonicalKernel(b, k) && IsOrExtends(name, InitrdName(b, k.id))
    ensures name != k.bpath && !Configuration(k, Path(KernelDir, name))
  {
    forall kind: nat | kind < 5
      ensures !OfKind(b, k.id, kind, name)
    {
      if OfKind(b, k.id, kind, name) {
        InitrdApart(b, k.id, kind, name);
      }
    }
    assert !OfKind(b, k.id, 0, name) && !OfKind(b, k.id, 1, name) && !OfKind(b, k.id, 2, name);
    assert !OfKind(b, k.id, 3, name) && !OfKind(b, k.id, 4, name);
  }

  lemma KernelDirThorough(b: Build, f: Files, k: Kernel, p: Path)
    requires SaneBuild(b) && CanonicalKernel(b, k) && FlagsAreTrue(b, f, k)
    requires p in f && p.area.KernelDir? && Owns(b, k.id, p)
    ensures Removable(b, k, p) <==> !LeftBehind(b, k, p)
  {
    var kind := KernelDirKind(b, k.id, p.name);
    if kind < 5 {
      InitrdApart(b, k.id, kind, p.name);
    } else {
      InitrdOnly(b, k, p.name);
    }
  }

  lemma OtherDirsThorough(b: Build, f: Files, k: Kernel, p: Path)
    requires CanonicalKernel(b, k) && FlagsAreTrue(b, f, k)
    requires p in f && !p.area.KernelDir? && Owns(b, k.id, p)
    ensures Removable(b, k, p) <==> !LeftBehind(b, k, p)
  {
    assert MetaIdent(k) == k.id;
  }

  /** Of the files that bear the identity of a kernel of the tree, a removal deletes exactly the others. */
  lemma RemovalIsThorough(s: Settings, f: Files, k: Kernel, p: Path)
    requires SaneBuild(s.build) && CanonicalKernel(s.build, k) && k in KernelsOn(s, f)
    requires p in f && Owns(s.build, k.id, p)
    ensures Removable(s.build, k, p) <==> !LeftBehind(s.build, k, p)
  {
    FoundFlags(s, f, k);
    if p.area.KernelDir? {
      KernelDirThorough(s.build, f, k, p);
    } else {
      OtherDirsThorough(s.build, f, k, p);
    }
  }

  /** Without its initrds these are the files of a kernel that a removal deletes. */
  lemma RemovesAll(s: Settings, f: Files, k: Kernel, p: Path)
    requires CanonicalKernel(s.build, k) && k in KernelsOn(s, f) && p in f
    requires p in [Path(KernelDir, KernelName(s.build, k.id)), Path(KernelDir, CmdlineName(k.id)),
                   Path(KernelDir, ConfigName(k.id)), Path(KernelDir, SystemMapName(k.id)),
                   Path(KernelDir, VmlinuxName(k.id)), Path(ModuleDir, Uname(k.id)), Path(HeaderDir, HeadersName(k.id)),
                   Path(MarkerDir, MarkerName(k.id)), Path(EspKernels, TargetName(s.build, k.id)),
                   Path(EspRoot, KernelName(s.build, k.id)), Path(LoaderEntries, EntryName(s.build, k.id))]
    ensures Removable(s.build, k, p)
  {
    hide Inspect, KernelsOn, FullCmdline, PrintInt, Uname, EntryName;
    hide CmdlineName, ConfigName, SystemMapName, VmlinuxName, HeadersName, MarkerName;
    FoundFlags(s, f, k);
    assert MetaIdent(k) == k.id;
  }

  /** Of a kernel with a system initrd, its initrds go from the kernel directory and from the ESP, with all that extend
      their name. */
  lemma RemovesInitrds(s: Settings, f: Files, k: Kernel, name: string)
    requires CanonicalKernel(s.build, k) && k in KernelsOn(s, f) && Path(KernelDir, InitrdName(s.build, k.id)) in f
    requires name == InitrdName(s.build, k.id) || HasPrefix(name, InitrdName(s.build, k.id) + ".")
    ensures Removable(s.build, k, Path(KernelDir, name)) && Removable(s.build, k, Path(EspKernels, name))
  {
    hide Inspect, KernelsOn, PrintInt, KernelName, FullCmdline, ParseKernelName;
    KernelLaws.FoundWith(s, f, k);
  }

  // ----- modules that kernels share -----

  /** Kernels whose names are canonical; their modules need not be their own. */
  ghost predicate NamedApart(b: Build, j: Kernel, k: Kernel) {
    Canonical(j.id) && Canonical(k.id) && j.id != k.id && k.bpath == KernelName(b, k.id)
  }

  /** Removing one kernel deletes the modules of another exactly when both were found with a directory of the older
      naming, and have version and release in common. */
  lemma SharedModules(b: Build, j: Kernel, k: Kernel)
    requires NamedApart(b, j, k) && ModulePath(k).Some?
    ensures Removable(b, j, ModulePath(k).value) <==>
            && j.modules.Untyped? && k.modules.Untyped?
            && j.id.version == k.id.version && j.id.release == k.id.release
  {
    UntypedDetermines(j.id, k.id);
    UntypedDetermines(k.id, j.id);
    if Uname(j.id) == Uname(k.id) {
      UnameDetermines(j.id, k.id);
    }
  }

  /** Such a removal leaves the other kernel without its modules, whether or not that one is kept. */
  method RemoveTakesModules(self: BootManager, j: Kernel, ghost k: Kernel) returns (ok: bool)
    requires self.Valid() && NamedApart(self.settings.build, j, k)
    requires j.modules.Untyped? && k.modules.Untyped? && j.id.version == k.id.version && j.id.release == k.id.release
    modifies self.disk
    ensures self.Valid()
    ensures ok && self.disk.faults == old(self.disk.faults) ==> ModulePath(k).value !in self.disk.files
  {
    SharedModules(self.settings.build, j, k);
    ok := self.RemoveKernel(j);
  }

  // ----- what a boot entry names -----

  ghost predicate OnBootPartition(files: Files, name: string) {
    Path(EspKernels, name) in files
  }

  ghost predicate OverlayCopied(e: Env, files: Files) {
    forall key | IsUnmasked(e.overlay, key) :: OnBootPartition(files, key)
  }

  /** Every initrd the entry of an installed kernel names is on the ESP, but for one case: an extra initrd of
      the system when the kernel has a user initrd too and the user has no extra of that name. */
  lemma EntryIsBacked(e: Env, files: Files, k: Kernel, name: string)
    requires Installed(e, files, k) && OverlayCopied(e, files) && forall q :: Lists(e.order(q), q)
    requires e.ucode.Some? ==> IsUnmasked(e.overlay, e.ucode.value)
    requires name in EntryInitrds(e.overlay, e.keys, e.ucode, TargetInitrd(e.build, k), ExtraInitrds(e, files, k))
    ensures || OnBootPartition(files, name)
            || (k.hasUserInitrd && name in ExtraInitrds(e, files, k) && Path(UserInitrdDir, name) !in files)
  {
    if name in Unmasked(e.overlay, e.keys, e.ucode) {
      UnmaskedIsUnmasked(e.overlay, e.keys, e.ucode, name);
    } else if name in ExtraInitrds(e, files, k) && (k.hasUserInitrd ==> Path(UserInitrdDir, name) in files) {
      ExtraIsBacked(e, files, k, name);
    }
  }

  lemma OnlyOneCopy(sel: Selection, trace: seq<Event>)
    requires IsRunOf(Plan(sel), trace) && trace != []
    ensures IsApart(trace[1..])
  {
    InstallsCover(sel.types, |sel.types|);
    forall j | 1 <= j < |trace|
      ensures !trace[j].step.CopyFreestanding?
    {
      OnlyRemovalsBehind(sel, trace, j);
      if j < |Preparation(sel)| {
        assert Plan(sel)[j] == Preparation(sel)[j] == Installation(sel)[j - 1];
        assert Installation(sel)[j - 1] in Installation(sel);
      }
    }
  }

  /** From a successful first step on, at every moment, the freestanding initrds are on the ESP, if none that had
      to be copied was staged under the name of another. */
  lemma OverlayStaysCopied(r: Report, h: seq<Files>, i: nat)
    requires IsTold(r, h) && IsRunOf(Plan(r.sel), r.trace) && r.scene.start != [] && r.trace != [] && r.trace[0].ok
    requires ValidOverlay(r.scene.env.overlay) && StagesApart(Last(r.scene.start), r.scene.env.overlay)
    requires |r.trace[0].after| - 1 <= i < |h|
    ensures AreCopied(h[i], r.scene.env.overlay)
  {
    var e := r.scene.env;
    var h1 := LeadsSplit(e, r.scene.start, r.trace, r.stop, 1);
    OnlyOneCopy(r.sel, r.trace);
    assert Plan(r.sel)[0].step.CopyFreestanding? && Tells(e, r.trace[0]);
    LeadsApart(e, h1, r.trace[1..], r.stop);
    CopiedWithin(e.overlay, h1, r.stop, h, i);
  }

  lemma CopiedWithin(m: Overlay, h1: seq<Files>, stop: seq<Files>, h: seq<Files>, i: nat)
    requires ValidOverlay(m) && h1 != [] && AreCopied(Last(h1), m)
    requires Evolves(h1, stop, Apart()) && Evolves(stop, h, StalePaths(m)) && |h1| - 1 <= i < |h|
    ensures AreCopied(h[i], m)
  {
    forall key | IsUnmasked(m, key)
      ensures Path(EspKernels, key) !in Apart() && SourceOf(m, key) !in Apart()
      ensures Path(EspKernels, key) !in StalePaths(m) && SourceOf(m, key) !in StalePaths(m)
    {
    }
    var g := if i < |stop| then h[i] else Last(stop);
    assert i < |stop| ==> h[i] == stop[i];
    if g != Last(h1) {
      assert Frame(Last(h1), g, Apart());
      CopiesFrame(m, Last(h1), g, Apart());
    }
    if i >= |stop| {
      CopiesFrame(m, Last(stop), h[i], StalePaths(m));
    }
  }

  /** What the environment of a boot manager is like. */
  ghost predicate ValidEnv(e: Env) {
    && ValidOverlay(e.overlay) && (e.ucode.Some? ==> IsUnmasked(e.overlay, e.ucode.value))
    && Lists(e.keys, e.overlay.Keys) && forall q :: Lists(e.order(q), q)
  }

  lemma EnvironmentIsValid(self: BootManager)
    requires self.Valid()
    ensures ValidEnv(self.Environment())
  {
  }

  /** From the first removal on, at every moment of a run: every initrd that the entry of a tip, a last booted or a
      repaired running kernel names is on the ESP, freestanding ones included, with that one exception. */
  lemma EntriesAreBacked(links: Links, sys: Option<Ident>, r: Report, h: seq<Files>, i: nat, k: Kernel, name: string)
    requires IsSafe(links, sys, r, h) && IsTold(r, h) && r.ready.Some? && |r.ready.value| - 1 <= i < |h|
    requires IsKeeper(r.sel, k) || (r.repaired && r.sel.running == Some(k))
    requires ValidEnv(r.scene.env) && StagesApart(Last(r.scene.start), r.scene.env.overlay)
    requires var e := r.scene.env;
             name in EntryInitrds(e.overlay, e.keys, e.ucode, TargetInitrd(e.build, k), ExtraInitrds(e, h[i], k))
    ensures || OnBootPartition(h[i], name)
            || (k.hasUserInitrd && name in ExtraInitrds(r.scene.env, h[i], k) && Path(UserInitrdDir, name) !in h[i])
  {
    var e, n := r.scene.env, |Preparation(r.sel)|;
    RemovalsComeLast(links, sys, r, h, i, k);
    CopyComesFirst(r, h);
    OverlayStaysCopied(r, h, i);
    forall key | IsUnmasked(e.overlay, key)
      ensures OnBootPartition(h[i], key)
    {
      assert IsCopied(h[i], e.overlay, key);
    }
    EntryIsBacked(e, h[i], k, name);
  }

  lemma CopyComesFirst(r: Report, h: seq<Files>)
    requires IsTold(r, h) && r.scene.start != [] && r.ready.Some?
    ensures r.trace != [] && r.trace[0].ok && |r.trace[0].after| <= |r.ready.value|
  {
    var e, n := r.scene.env, |Preparation(r.sel)|;
    var h2 := LeadsSplit(e, r.scene.start, r.trace, r.stop, n);
    var h1 := LeadsSplit(e, r.scene.start, r.trace[..n], h2, 1);
    assert Tells(e, r.trace[0]) && r.trace[..n][0] == r.trace[0];
    LeadsGrows(e, h1, r.trace[..n][1..], h2);
  }

  lemma ExtraIsBacked(e: Env, files: Files, k: Kernel, name: string)
    requires Installed(e, files, k) && name in ExtraInitrds(e, files, k) && forall q :: Lists(e.order(q), q)
    requires k.hasUserInitrd ==> Path(UserInitrdDir, name) in files
    ensures OnBootPartition(files, name)
  {
    var base := InitrdName(e.build, k.id);
    assert name in GlobNames(files, KernelDir, base);
    assert k.hasUserInitrd ==> name in GlobNames(files, UserInitrdDir, base);
  }

  /** The exception is real: such an extra initrd is named by the entry, and can be missing from the ESP while
      everything counts as installed. */
  lemma SystemExtrasUnbacked(e: Env, files: Files, k: Kernel, name: string) returns (g: Files)
    requires CanonicalKernel(e.build, k) && Installed(e, files, k) && forall q :: Lists(e.order(q), q)
    requires k.hasInitrd && k.hasUserInitrd && name in GlobNames(files, KernelDir, InitrdName(e.build, k.id))
    requires Path(UserInitrdDir, name) !in files
    ensures Frame(files, g, EspArea()) && Installed(e, g, k) && !OnBootPartition(g, name)
    ensures name in EntryInitrds(e.overlay, e.keys, e.ucode, TargetInitrd(e.build, k), ExtraInitrds(e, g, k))
  {
    var b, base, gone := e.build, InitrdName(e.build, k.id), Path(EspKernels, name);
    g := files - {gone};
    assert Frame(files, g, iset{gone});
    EspOnlyKeepsSources(files, g, iset{gone});
    SourcesStay(files, g, KernelDir, base);
    SourcesStay(files, g, UserInitrdDir, base);
    assert |name| > |base| && name != TargetPath(k).name by {
      assert name[0] == base[0] == 'i' && TargetPath(k).name[0] == 'k' by {
        FirstChar(name, base);
      }
    }
    assert forall n | n in GlobNames(g, UserInitrdDir, base) :: n != name;
  }

  /** Being installed puts an extra initrd of the system on the ESP, whatever else the ESP holds, exactly when
      the kernel has no user initrd or the user has an extra of that name too. */
  lemma ExtraBackedExactly(e: Env, files: Files, k: Kernel, name: string)
    requires CanonicalKernel(e.build, k) && Installed(e, files, k) && forall q :: Lists(e.order(q), q)
    requires k.hasInitrd && name in GlobNames(files, KernelDir, InitrdName(e.build, k.id))
    ensures (forall g | Frame(files, g, EspArea()) && Installed(e, g, k) :: OnBootPartition(g, name)) <==>
            !k.hasUserInitrd || Path(UserInitrdDir, name) in files
  {
    if !k.hasUserInitrd || Path(UserInitrdDir, name) in files {
      forall g | Frame(files, g, EspArea()) && Installed(e, g, k)
        ensures OnBootPartition(g, name)
      {
        assert Same(files, g, Path(KernelDir, name)) && Same(files, g, Path(UserInitrdDir, name));
        assert name in GlobNames(g, KernelDir, InitrdName(e.build, k.id));
        ExtraIsBacked(e, g, k, name);
      }
    } else {
      var g := SystemExtrasUnbacked(e, files, k, name);
    }
  }

  /** No installation mends it: run on such a disk it succeeds, and the file its entry names is still not
      there. */
  method InstallLeavesUnbacked(self: BootManager, k: Kernel, ghost name: string) returns (ok: bool)
    requires self.Valid() && CanonicalKernel(self.settings.build, k) && NoStagingSources(self.disk.files)
    requires BlobsInstalled(self.settings.build, self.disk.files, k) && !OnBootPartition(self.disk.files, name)
    requires k.hasInitrd && name in GlobNames(self.disk.files, KernelDir, InitrdName(self.settings.build, k.id))
    modifies self.disk
    ensures self.sane && self.disk.faults == old(self.disk.faults) ==> ok
    ensures ok ==> Installed(self.Environment(), self.disk.files, k) && !OnBootPartition(self.disk.files, name)
    ensures ok ==> name in ExtraInitrds(self.Environment(), self.disk.files, k)
  {
    ghost var h0, f0, b := self.disk.history, self.disk.files, self.settings.build;
    ok := self.InstallKernel(k);
    EvolvesLast(h0, self.disk.history, ExtraPaths(b, k));
    assert Same(f0, self.disk.files, Path(EspKernels, name));
    EspOnlyKeepsSources(f0, self.disk.files, ExtraPaths(b, k));
    SourcesStay(f0, self.disk.files, KernelDir, InitrdName(b, k.id));
  }
}
