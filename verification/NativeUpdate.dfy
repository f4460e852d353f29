/** boot_manager_update_native as a whole. */
module NativeUpdate {
  import opened Text
  import opened Disks
  import opened Names
  import opened Kernels
  import opened Plans
  import opened Installs
  import opened Safety
  import opened BootManagers
  import opened Updates
  import opened Traces
  import Freestanding

  /** What a run did. `ready` is the history at the moment removals could start, if it came to that, and
      `stop` the one after the last event, where the cleanup of the freestanding initrds begins. */
  datatype Report = Report(scene: Scene, sel: Selection, trace: seq<Event>, repaired: bool, ready: Option<seq<Files>>,
                           stop: seq<Files>)

  /** Every tip and last booted kernel, and the running one if its repair succeeded. */
  ghost function Secured(sel: Selection, repaired: bool): iset<Kernel> {
    iset k | IsKeeper(sel, k) || (repaired && sel.running == Some(k))
  }

  /** At every state the disk went through: before removals could start, only the ESP was touched, and no
      copy that was in place; from then on every tip and last booted kernel is installed, the default is
      written, and nothing but removed kernels and stale initrds goes. */
  ghost predicate SafeRun(r: Report, h: seq<Files>) {
    SafeFrom(r.scene, r.sel, r.repaired, r.ready, h)
  }

  ghost predicate SafeFrom(c: Scene, sel: Selection, repaired: bool, ready: Option<seq<Files>>, h: seq<Files>) {
    match ready
    case None => Evolves(c.start, h, Touched(c, iset{}))
    case Some(from) =>
      && Collecting(c, Members(Removals(sel)), Secured(sel, repaired), from, h)
      && (sel.newDefault.Some? ==> DefaultWritten(c.env.build, c.env.config, Last(from), sel.newDefault.value))
  }

  /** Each unmasked freestanding initrd is on the ESP, and there is none that is not listed. */
  ghost predicate FreestandingInPlace(i: Freestanding.Initrds)
    reads i, i.disk
  {
    AllCopied(i) && NothingStale(i)
  }

  ghost predicate NothingStale(i: Freestanding.Initrds)
    reads i, i.disk
  {
    forall p | p in i.disk.files && p in Freestanding.EspPaths() :: p.name in i.initrds
  }

  /** A run that could not copy the freestanding initrds has a selection nonetheless. */
  lemma SelectionExists(links: Links, sys: Option<Ident>, ks: seq<Kernel>, names: seq<string>) returns (sel: Selection)
    requires ks != [] && Distinct(ks) && UniqueNames(ks) && Descending(ks) && Lists(names, TypesOf(ks))
    ensures Selected(links, sys, sel) && sel.kernels == ks
  {
    TypesPartition(ks);
    var types := CompleteTypes(links, ks, names, []);
    sel := WalkSelects(links, sys, ks, names, types);
  }

  lemma KeptNotRemoved(links: Links, sys: Option<Ident>, sel: Selection, repaired: bool)
    requires Selected(links, sys, sel)
    ensures Distinct(Removals(sel)) && forall k | k in Secured(sel, repaired) :: k !in Members(Removals(sel))
    ensures forall k | k in Members(Removals(sel)) :: k in sel.kernels
  {
    RemovalsExact(links, sys, sel);
    forall k | k in Secured(sel, repaired)
      ensures k !in Removals(sel)
    {
      assert Kept(sel, k);
    }
  }

  lemma SourcesReady(c: Scene, ks: seq<Kernel>, done: iset<Kernel>, h: seq<Files>)
    requires Orderly(c) && Preparing(c, h, done) && Members(ks) <= c.all
    ensures SourcesFrom(Last(h), ks, 0)
  {
    SourcesUntouched(c, h);
    forall j | 0 <= j < |ks|
      ensures SourcePath(ks[j]) in Last(h)
    {
      assert ks[j] in Members(ks);
      assert SourcesThere(c.env.build, Last(h), ks[j]);
    }
  }

  lemma RemovalsMayStart(c: Scene, removals: seq<Kernel>, kept: iset<Kernel>, done: iset<Kernel>, h: seq<Files>)
    requires Orderly(c) && Preparing(c, h, done) && kept <= done
    requires Members(removals) <= c.all && forall k | k in kept :: k !in Members(removals)
    ensures Collecting(c, Members(removals), kept, h, h)
    ensures SourcesFrom(Last(h), removals, 0)
  {
    PreparingLess(c, h, done, kept);
    CollectingStarts(c, Members(removals), kept, h);
    SourcesReady(c, removals, done, h);
  }

  ghost predicate AllCopied(i: Freestanding.Initrds)
    reads i, i.disk
  {
    Freestanding.AreCopied(i.disk.files, i.initrds)
  }

  ghost predicate CanStage(i: Freestanding.Initrds)
    reads i, i.disk
  {
    Freestanding.StagesApart(i.disk.files, i.initrds)
  }

  lemma CopiesStayApart(i: Freestanding.Initrds, e: Env, h: seq<Files>, trace: seq<Event>)
    requires i.Valid() && h != [] && Leads(e, h, trace, i.disk.history) && IsApart(trace)
    ensures Freestanding.AreCopied(Last(h), i.initrds) ==> AllCopied(i)
  {
    LeadsApart(e, h, trace, i.disk.history);
    EvolvesLast(h, i.disk.history, Apart());
    if Freestanding.AreCopied(Last(h), i.initrds) {
      forall key | Freestanding.IsUnmasked(i.initrds, key)
        ensures Path(EspKernels, key) !in Apart() && Freestanding.SourceOf(i.initrds, key) !in Apart()
      {
      }
      Freestanding.CopiesFrame(i.initrds, Last(h), i.disk.files, Apart());
    }
  }

  lemma InstallsKeepCopies(i: Freestanding.Initrds, e: Env, sel: Selection, h: seq<Files>, trace: seq<Event>)
    requires i.Valid() && h != [] && Leads(e, h, trace, i.disk.history) && IsRunOf(Installation(sel), trace)
    ensures Freestanding.AreCopied(Last(h), i.initrds) ==> AllCopied(i)
  {
    PreparationApart(sel, trace);
    CopiesStayApart(i, e, h, trace);
  }

  lemma RemovalsApart(removals: seq<Kernel>, trace: seq<Event>)
    requires IsRunOf(RemovalPlan(removals), trace)
    ensures IsApart(trace)
  {
  }

  /** Nothing is removed while kernels are installed. */
  lemma PreparationApart(sel: Selection, trace: seq<Event>)
    requires IsRunOf(Installation(sel), trace)
    ensures forall v | v in trace :: !v.step.Remove? && !v.step.CopyFreestanding?
  {
    InstallsCover(sel.types, |sel.types|);
    forall i | 0 <= i < |trace|
      ensures !trace[i].step.Remove? && !trace[i].step.CopyFreestanding?
    {
      assert Installation(sel)[i] in Installation(sel);
    }
  }

  /** The part that may remove: from the end of the installation to the end of the removals. */
  method RemoveOldKernels(self: BootManager, removals: seq<Kernel>, ghost sel: Selection, ghost repaired: bool,
                          ghost c: Scene, ghost done: iset<Kernel>)
    returns (ok: bool, ghost trace: seq<Event>)
    requires self.Valid() && c.env == self.Environment() && removals == Removals(sel)
    requires Selected(self.links, self.sysKernel, sel) && forall k | k in sel.kernels :: k in c.all
    requires Secured(sel, repaired) <= done
    requires Sound(c) ==> Preparing(c, self.disk.history, done)
    modifies self.disk
    ensures self.Valid() && self.disk.faults >= old(self.disk.faults)
    ensures IsRunOf(RemovalPlan(removals), trace) && (ok <==> Completes(RemovalPlan(removals), trace))
    ensures Leads(c.env, old(self.disk.history), trace, self.disk.history)
    ensures Sound(c) ==>
              Collecting(c, Members(removals), Secured(sel, repaired), old(self.disk.history), self.disk.history)
    ensures ok ==> GoneUpto(self.disk.files, removals, |removals|)
    ensures old(AllCopied(self.initrds)) ==> AllCopied(self.initrds)
    ensures Sound(c) && self.sane && self.disk.faults == old(self.disk.faults) ==>
              ok && ClearedUpto(self.settings.build, self.disk.files, removals, |removals|)
  {
    ghost var h0, kept := self.disk.history, Secured(sel, repaired);
    KeptNotRemoved(self.links, self.sysKernel, sel, repaired);
    if Sound(c) {
      RemovalsMayStart(c, removals, kept, done, h0);
    }
    ok, trace := CollectKernels(self, removals, c, kept, h0);
    RemovalsApart(removals, trace);
    CopiesStayApart(self.initrds, c.env, h0, trace);
  }

  method CleanUp(self: BootManager) returns (ok: bool)
    requires self.Valid()
    modifies self.disk
    ensures self.Valid() && Removes(old(self.disk.history), self.disk.history, self.initrds.Stale())
    ensures Shrunk(old(self.disk.files), self.disk.files)
    ensures self.disk.faults >= old(self.disk.faults) && (self.disk.faults == old(self.disk.faults) ==> ok)
    ensures ok ==> NothingStale(self.initrds)
    ensures ok && old(AllCopied(self.initrds)) ==> FreestandingInPlace(self.initrds)
  {
    ghost var h0 := self.disk.history;
    ok := self.initrds.RemoveOld();
    EvolvesLast(h0, self.disk.history, self.initrds.Stale());
    if ok && old(AllCopied(self.initrds)) {
      Freestanding.CopiesFrame(self.initrds.initrds, Last(h0), self.disk.files, self.initrds.Stale());
    }
  }

  ghost predicate Sorted(ks: seq<Kernel>) {
    ks != [] && Distinct(ks) && UniqueNames(ks) && Descending(ks)
  }

  /** The scene is the beginning of this run. */
  ghost predicate Begins(self: BootManager, c: Scene)
    reads self, self.initrds
  {
    c.settings == self.settings && c.env == self.Environment() && c.start != []
  }

  /** boot_manager_copy_initrd_freestanding, as the first step. */
  method CopyFreestandingStep(self: BootManager, ghost c: Scene) returns (ok: bool, ghost v: Event)
    requires self.Valid() && c.env == self.Environment() && c.start == self.disk.history
    modifies self.disk
    ensures self.Valid() && c.env == self.Environment() && self.disk.faults >= old(self.disk.faults)
    ensures v == Event(CopyFreestanding, ok, old(self.disk.history), self.disk.history) && Tells(c.env, v)
    ensures Sound(c) ==> Preparing(c, self.disk.history, iset{})
    ensures ok && old(CanStage(self.initrds)) ==> AllCopied(self.initrds)
    ensures old(self.initrds.SourcesThere()) && self.disk.faults == old(self.disk.faults) ==> ok
  {
    ok := self.initrds.Copy();
    v := Event(CopyFreestanding, ok, c.start, self.disk.history);
    if Sound(c) {
      EvolvesThen(c.start, c.start, c.start, iset{}, iset{}, Touched(c, iset{}));
      FreestandingPrepares(c, c.start, self.disk.history, iset{}, Freestanding.EspPaths());
    }
  }

  /** Nothing a removal deletes is left of the removed kernels. */
  ghost predicate Cleared(self: BootManager, sel: Selection)
    reads self, self.disk
  {
    ClearedUpto(self.settings.build, self.disk.files, Removals(sel), |Removals(sel)|)
  }

  lemma KeepersSecured(sel: Selection, repaired: bool, done: iset<Kernel>)
    ensures KeepersIn(sel.types, done) && (repaired && sel.running.Some? ==> sel.running.value in done) ==>
              Secured(sel, repaired) <= done
  {
    forall k | KeepersIn(sel.types, done) && k in Secured(sel, repaired) && sel.running != Some(k)
      ensures k in done
    {
      if IsKeeper(sel, k) {
        var i :| 0 <= i < |sel.types| && (sel.types[i].tip == k || sel.types[i].lastGood == Some(k));
      }
    }
  }

  /** The installations, and the selection they belong to. */
  method InstallSelected(self: BootManager, ks: seq<Kernel>, running: Option<Kernel>, ghost c: Scene)
    returns (ok: bool, removals: seq<Kernel>, ghost sel: Selection, ghost trace: seq<Event>, ghost repaired: bool,
             ghost done: iset<Kernel>)
    requires self.Valid() && Begins(self, c)
    requires Sorted(ks) && running == RunningOf(ks, self.sysKernel) && forall k | k in ks :: k in c.all
    requires Sound(c) ==> Preparing(c, self.disk.history, iset{})
    modifies self.disk
    ensures self.Valid() && self.disk.faults >= old(self.disk.faults)
    ensures Selected(self.links, self.sysKernel, sel) && sel.kernels == ks
    ensures IsRunOf(Installation(sel), trace) && (ok <==> Completes(Installation(sel), trace))
    ensures Leads(c.env, old(self.disk.history), trace, self.disk.history)
    ensures sel.running.Some? ==> trace != [] && trace[0].ok == repaired
    ensures old(AllCopied(self.initrds)) ==> AllCopied(self.initrds)
    ensures ok ==> removals == Removals(sel) && Secured(sel, repaired) <= done
    ensures ok && sel.newDefault.Some? ==>
              DefaultWritten(self.settings.build, self.config, self.disk.files, sel.newDefault.value)
    ensures Sound(c) ==> Preparing(c, self.disk.history, done)
    ensures Sound(c) && self.sane && self.disk.faults == old(self.disk.faults) ==> ok && repaired
  {
    ghost var h0 := self.disk.history;
    ghost var names, types, repair, installs, write;
    var newDefault;
    ok, removals, newDefault, names, types, repaired, repair, installs, write, done := InstallAll(self, ks, running, c);
    sel, trace := RanSelected(self.links, self.sysKernel, ks, names, types, repair, repaired, installs, write, ok);
    KeepersSecured(sel, repaired, done);
    InstallsKeepCopies(self.initrds, c.env, sel, h0, trace);
  }

  /** The end of a run that got as far as its removals. */
  method CollectAndClean(self: BootManager, removals: seq<Kernel>, updated: bool, ghost sel: Selection,
                         ghost repaired: bool, ghost c: Scene, ghost done: iset<Kernel>)
    returns (ret: bool, ghost trace: seq<Event>, ghost stop: seq<Files>)
    requires self.Valid() && c.env == self.Environment() && removals == Removals(sel)
    requires Selected(self.links, self.sysKernel, sel) && forall k | k in sel.kernels :: k in c.all
    requires Secured(sel, repaired) <= done
    requires Sound(c) ==> Preparing(c, self.disk.history, done)
    modifies self.disk
    ensures self.Valid() && self.disk.faults >= old(self.disk.faults)
    ensures IsRunOf(RemovalPlan(removals), trace) && (ret ==> Completes(RemovalPlan(removals), trace))
    ensures Leads(c.env, old(self.disk.history), trace, stop)
    ensures Evolves(stop, self.disk.history, Freestanding.StalePaths(c.env.overlay))
    ensures Sound(c) ==>
              Collecting(c, Members(removals), Secured(sel, repaired), old(self.disk.history), self.disk.history)
    ensures ret ==> GoneUpto(self.disk.files, removals, |removals|)
    ensures ret && old(AllCopied(self.initrds)) ==> FreestandingInPlace(self.initrds)
    ensures Sound(c) && self.sane && updated && self.disk.faults == old(self.disk.faults) ==>
              ret && ClearedUpto(self.settings.build, self.disk.files, removals, |removals|)
  {
    hide Selected, Removals, IsRunOf, Completes, RemovalPlan, Secured, Preparing, Collecting, Leads;
    ghost var h0 := self.disk.history;
    ret, trace := RemoveOldKernels(self, removals, sel, repaired, c, done);
    ret := ret && updated;
    stop := self.disk.history;
    var cleaned := CleanUp(self);
    ret := ret && cleaned;
    if Sound(c) {
      CleanupCollects(c, Members(removals), Secured(sel, repaired), h0, stop, self.disk.history,
                      self.initrds.Stale());
    }
  }

  /** A run whose installations failed: only the cleanup is left. */
  method CleanAfterFailure(self: BootManager, ghost c: Scene, ghost done: iset<Kernel>)
    requires self.Valid() && c.env == self.Environment()
    requires Sound(c) ==> Preparing(c, self.disk.history, done)
    modifies self.disk
    ensures self.Valid() && self.disk.faults >= old(self.disk.faults)
    ensures Evolves(old(self.disk.history), self.disk.history, Freestanding.StalePaths(c.env.overlay))
    ensures self.disk.faults == old(self.disk.faults) ==> NothingStale(self.initrds)
    ensures Sound(c) ==> Evolves(c.start, self.disk.history, Touched(c, iset{}))
  {
    ghost var h0 := self.disk.history;
    var _ := CleanUp(self);
    if Sound(c) {
      FreestandingPrepares(c, h0, self.disk.history, done, self.initrds.Stale());
    }
  }

  ghost predicate IsRun(links: Links, sys: Option<Ident>, ks: seq<Kernel>, r: Report) {
    Selected(links, sys, r.sel) && r.sel.kernels == ks && IsRunOf(Plan(r.sel), r.trace)
  }

  /** The history is that of the report's events, and of the cleanup of stale initrds behind them. Removals
      could start when the preparation was over, and not before. */
  ghost predicate IsTold(r: Report, h: seq<Files>) {
    && Leads(r.scene.env, r.scene.start, r.trace, r.stop)
    && Evolves(r.stop, h, Freestanding.StalePaths(r.scene.env.overlay))
    && IsSplit(|Preparation(r.sel)|, r.sel.running, r.repaired, r.trace, r.ready)
  }

  /** The second event is the repair; `n` events come before the removals. */
  ghost predicate IsSplit(n: nat, running: Option<Kernel>, repaired: bool, trace: seq<Event>,
                          ready: Option<seq<Files>>) {
    && (running.Some? && |trace| > 1 ==> trace[1].ok == repaired)
    && (ready.Some? ==> 0 < n <= |trace| && trace[n - 1].after == ready.value && trace[0].ok)
    && (ready.None? ==> forall v | v in trace :: !v.step.Remove?)
  }

  /** Sorting what was found loses nothing. */
  lemma SortedKernels(all: iset<Kernel>, found: seq<Kernel>, ks: seq<Kernel>)
    requires AreKernels(all, found) && found != [] && Permutation(ks, found) && Descending(ks)
    ensures Sorted(ks) && AreKernels(all, ks)
    ensures IsComplete(all, found) ==> IsComplete(all, ks)
  {
    PermutationMembers(ks, found);
    PermutationDistinct(ks, found);
    forall i, j | 0 <= i < j < |ks|
      ensures ks[i].bpath != ks[j].bpath
    {
      assert ks[i] in found && ks[j] in found && ks[i] != ks[j];
    }
  }

  lemma LeadsParts(e: Env, v: Event, t: seq<Event>, h1: seq<Files>, u: seq<Event>, h2: seq<Files>)
    requires Tells(e, v) && Leads(e, v.after, t, h1) && Leads(e, h1, u, h2)
    ensures Leads(e, v.before, [v] + (t + u), h2)
  {
    LeadsOne(e, v);
    LeadsThen(e, v.after, t, h1, u, h2);
    LeadsThen(e, v.before, [v], v.after, t + u, h2);
  }

  lemma PartsSplit(running: Option<Kernel>, repaired: bool, copy: Event, part: seq<Event>, h1: seq<Files>,
                   removes: seq<Event>, ready: Option<seq<Files>>)
    requires !copy.step.Remove? && copy.ok && forall v | v in part :: !v.step.Remove?
    requires if part == [] then copy.after == h1 else part[|part| - 1].after == h1
    requires running.Some? ==> part != [] && part[0].ok == repaired
    requires ready == None || ready == Some(h1)
    requires ready == None ==> removes == []
    ensures IsSplit(|part| + 1, running, repaired, [copy] + (part + removes), ready)
  {
    var trace := [copy] + (part + removes);
    assert forall i | 0 <= i < |part| :: trace[i + 1] == part[i];
    assert trace[0] == copy;
  }

  /** The parts of a run that went on after the first step, put together. */
  lemma Reported(c: Scene, sel: Selection, repaired: bool, copy: Event, part: seq<Event>, h1: seq<Files>, ok: bool,
                 removes: seq<Event>, stop: seq<Files>, h: seq<Files>)
    returns (r: Report)
    requires copy.step == CopyFreestanding && copy.ok && copy.before == c.start && Tells(c.env, copy)
    requires IsRunOf(Installation(sel), part) && Leads(c.env, copy.after, part, h1)
    requires sel.running.Some? ==> part != [] && part[0].ok == repaired
    requires ok <==> Completes(Installation(sel), part)
    requires if ok then IsRunOf(RemovalPlan(Removals(sel)), removes) else removes == []
    requires Leads(c.env, h1, removes, stop) && Evolves(stop, h, Freestanding.StalePaths(c.env.overlay))
    requires Sound(c) ==> SafeFrom(c, sel, repaired, if ok then Some(h1) else None, h)
    ensures r.scene == c && r.sel == sel && r.repaired == repaired && (r.ready.Some? <==> ok)
    ensures IsRunOf(Plan(sel), r.trace) && IsTold(r, h) && (Sound(c) ==> SafeRun(r, h))
    ensures ok && Completes(RemovalPlan(Removals(sel)), removes) ==> Completes(Plan(sel), r.trace)
  {
    hide Evolves, SafeFrom, Sound, Removals, Tells, RemovalPlan, Secured, InstallsUpto, WriteDefault, OptInstall;
    var trace := PartsRun(sel, copy, part, removes);
    LeadsParts(c.env, copy, part, h1, removes, stop);
    PreparationApart(sel, part);
    var ready := if ok then Some(h1) else None;
    PartsSplit(sel.running, repaired, copy, part, h1, removes, ready);
    r := Report(c, sel, trace, repaired, ready, stop);
  }

  /** The end of a run whose first steps are told: removals, unless an installation failed, and the cleanup. */
  method Finish(self: BootManager, ok: bool, removals: seq<Kernel>, updated: bool, ghost sel: Selection,
                ghost repaired: bool,
                ghost c: Scene, ghost done: iset<Kernel>, ghost copy: Event, ghost part: seq<Event>)
    returns (ret: bool, ghost r: Report)
    requires self.Valid() && Begins(self, c)
    requires Selected(self.links, self.sysKernel, sel) && forall k | k in sel.kernels :: k in c.all
    requires copy.step == CopyFreestanding && copy.ok && copy.before == c.start && Tells(c.env, copy)
    requires IsRunOf(Installation(sel), part) && Leads(c.env, copy.after, part, self.disk.history)
    requires sel.running.Some? ==> part != [] && part[0].ok == repaired
    requires ok <==> Completes(Installation(sel), part)
    requires ok ==> removals == Removals(sel) && Secured(sel, repaired) <= done
    requires ok && sel.newDefault.Some? ==>
               DefaultWritten(self.settings.build, self.config, self.disk.files, sel.newDefault.value)
    requires Sound(c) ==> Preparing(c, self.disk.history, done)
    modifies self.disk
    ensures self.Valid() && self.disk.faults >= old(self.disk.faults)
    ensures r.scene == c && r.sel == sel && r.repaired == repaired && (r.ready.Some? <==> ok)
    ensures IsRun(self.links, self.sysKernel, sel.kernels, r) && IsTold(r, self.disk.history)
    ensures ret ==> ok && Completes(Plan(sel), r.trace)
    ensures ret ==> GoneUpto(self.disk.files, Removals(sel), |Removals(sel)|)
    ensures ret && old(AllCopied(self.initrds)) ==> FreestandingInPlace(self.initrds)
    ensures Sound(c) ==> SafeRun(r, self.disk.history)
    ensures Sound(c) && self.sane && ok && updated && self.disk.faults == old(self.disk.faults) ==>
              ret && Cleared(self, sel)
  {
    ghost var h1 := self.disk.history;
    ghost var removes, stop := [], h1;
    ret := false;
    if ok {
      ret, removes, stop := CollectAndClean(self, removals, updated, sel, repaired, c, done);
    } else {
      CleanAfterFailure(self, c, done);
    }
    r := Reported(c, sel, repaired, copy, part, h1, ok, removes, stop, self.disk.history);
  }

  /** What follows the copy of the freestanding initrds. */
  method InstallAndCollect(self: BootManager, ks: seq<Kernel>, running: Option<Kernel>, updated: bool, ghost c: Scene,
                           ghost copy: Event)
    returns (ret: bool, ghost r: Report)
    requires self.Valid() && Begins(self, c)
    requires Sorted(ks) && running == RunningOf(ks, self.sysKernel) && forall k | k in ks :: k in c.all
    requires copy == Event(CopyFreestanding, true, c.start, self.disk.history) && Tells(c.env, copy)
    requires Sound(c) ==> Preparing(c, self.disk.history, iset{})
    modifies self.disk
    ensures self.Valid() && self.disk.faults >= old(self.disk.faults)
    ensures r.scene == c && IsRun(self.links, self.sysKernel, ks, r) && IsTold(r, self.disk.history)
    ensures ret ==> r.ready.Some? && Completes(Plan(r.sel), r.trace)
    ensures ret ==> GoneUpto(self.disk.files, Removals(r.sel), |Removals(r.sel)|)
    ensures ret && old(AllCopied(self.initrds)) ==> FreestandingInPlace(self.initrds)
    ensures Sound(c) ==> SafeRun(r, self.disk.history)
    ensures Sound(c) && self.sane && updated && self.disk.faults == old(self.disk.faults) ==>
              ret && r.repaired && Cleared(self, r.sel)
  {
    hide Selected, Removals, IsRunOf, Leads, Secured, Preparation, RemovalPlan;
    ghost var repaired, done, sel, part;
    var ok, removals;
    ok, removals, sel, part, repaired, done := InstallSelected(self, ks, running, c);
    ret, r := Finish(self, ok, removals, updated, sel, repaired, c, done, copy, part);
  }

  /** The report of a run that could not copy the freestanding initrds. */
  lemma StoppedEarly(links: Links, sys: Option<Ident>, ks: seq<Kernel>, names: seq<string>, c: Scene, copy: Event)
    returns (r: Report)
    requires Sorted(ks) && Lists(names, TypesOf(ks)) && (Sound(c) ==> Preparing(c, copy.after, iset{}))
    requires copy.step == CopyFreestanding && !copy.ok && copy.before == c.start && Tells(c.env, copy)
    ensures r.scene == c && r.ready.None? && IsRun(links, sys, ks, r) && IsTold(r, copy.after)
    ensures Sound(c) ==> SafeRun(r, copy.after)
  {
    var sel := SelectionExists(links, sys, ks, names);
    CopyStops(sel, copy);
    LeadsOne(c.env, copy);
    r := Report(c, sel, [copy], false, None, copy.after);
  }

  method RunNative(self: BootManager, ks: seq<Kernel>, ghost c: Scene) returns (ret: bool, ghost r: Report)
    requires self.Valid() && Begins(self, c) && c.start == self.disk.history
    requires Sorted(ks) && forall k | k in ks :: k in c.all
    modifies self.disk
    ensures self.Valid() && self.disk.faults >= old(self.disk.faults)
    ensures r.scene == c && IsRun(self.links, self.sysKernel, ks, r) && IsTold(r, self.disk.history)
    ensures ret ==> r.ready.Some? && Completes(Plan(r.sel), r.trace)
    ensures ret ==> GoneUpto(self.disk.files, Removals(r.sel), |Removals(r.sel)|)
    ensures ret && old(CanStage(self.initrds)) ==> FreestandingInPlace(self.initrds)
    ensures Sound(c) ==> SafeRun(r, self.disk.history)
    ensures Sound(c) && self.sane && old(self.initrds.SourcesThere()) && self.disk.faults == old(self.disk.faults) ==>
              ret && r.repaired && Cleared(self, r.sel)
  {
    hide Preparing, RunningOf, Removals, Secured, NewDefault;
    var running := GetRunningKernel(ks, self.sysKernel);
    var updated := self.disk.Try();
    ghost var copy;
    var copied;
    copied, copy := CopyFreestandingStep(self, c);
    if !copied {
      r := StoppedEarly(self.links, self.sysKernel, ks, self.disk.order(TypesOf(ks)), c, copy);
      return false, r;
    }
    ret, r := InstallAndCollect(self, ks, running, updated, c, copy);
  }

  /** What follows when kernels were found. */
  method UpdateFound(self: BootManager, found: seq<Kernel>) returns (ret: bool, ghost r: Report)
    requires self.Valid() && found != [] && AreKernels(KernelsOn(self.settings, self.disk.files), found)
    modifies self.disk
    ensures self.Valid() && self.disk.faults >= old(self.disk.faults)
    ensures r.scene == SceneOf(self.settings, self.Environment(), old(self.disk.history))
    ensures old(Tame(self.settings, self.disk.files)) ==> Sound(r.scene)
    ensures AreKernels(r.scene.all, r.sel.kernels)
    ensures IsComplete(r.scene.all, found) ==> IsComplete(r.scene.all, r.sel.kernels)
    ensures IsRun(self.links, self.sysKernel, r.sel.kernels, r) && IsTold(r, self.disk.history)
    ensures ret ==> r.ready.Some? && Completes(Plan(r.sel), r.trace)
    ensures ret ==> GoneUpto(self.disk.files, Removals(r.sel), |Removals(r.sel)|)
    ensures ret && old(CanStage(self.initrds)) ==> FreestandingInPlace(self.initrds)
    ensures Sound(r.scene) ==> SafeRun(r, self.disk.history)
    ensures Sound(r.scene) && self.sane && old(self.initrds.SourcesThere()) &&
            self.disk.faults == old(self.disk.faults) ==>
              ret && r.repaired && Cleared(self, r.sel)
  {
    ghost var c := SceneOf(self.settings, self.Environment(), self.disk.history);
    var ks := SortDescending(found);
    SortedKernels(c.all, found, ks);
    if Tame(self.settings, self.disk.files) {
      SceneSound(self.settings, self.Environment(), self.disk.history);
    }
    ret, r := RunNative(self, ks, c);
  }

  /** boot_manager_update_native. Without kernels nothing happens. Whatever fails, the steps taken are a
      run of the plan of a selection among the kernels found; with canonical names, every state of the
      disk on the way is safe; success removes what was to be removed and brings the freestanding initrds
      up to date; and only failing system calls and missing sources stand in the way of success. */
  method UpdateNative(self: BootManager) returns (ret: bool, ghost r: Option<Report>)
    requires self.Valid()
    modifies self.disk
    ensures self.Valid() && self.disk.faults >= old(self.disk.faults)
    ensures r.None? ==> !ret && self.disk.history == old(self.disk.history)
    ensures r.None? && self.disk.faults == old(self.disk.faults) ==>
              forall k :: k !in KernelsOn(self.settings, old(self.disk.files))
    ensures r.Some? ==> r.value.scene == SceneOf(self.settings, self.Environment(), old(self.disk.history))
    ensures r.Some? && old(Tame(self.settings, self.disk.files)) ==> Sound(r.value.scene)
    ensures r.Some? ==> AreKernels(r.value.scene.all, r.value.sel.kernels)
    ensures r.Some? ==>
              IsRun(self.links, self.sysKernel, r.value.sel.kernels, r.value) && IsTold(r.value, self.disk.history)
    ensures ret ==> r.Some? && r.value.ready.Some? && Completes(Plan(r.value.sel), r.value.trace)
    ensures ret ==> GoneUpto(self.disk.files, Removals(r.value.sel), |Removals(r.value.sel)|)
    ensures ret && old(CanStage(self.initrds)) ==> FreestandingInPlace(self.initrds)
    ensures r.Some? && Sound(r.value.scene) ==> SafeRun(r.value, self.disk.history)
    ensures r.Some? && self.disk.faults == old(self.disk.faults) ==> IsComplete(r.value.scene.all, r.value.sel.kernels)
    ensures r.Some? && Sound(r.value.scene) && self.sane && old(self.initrds.SourcesThere()) &&
            self.disk.faults == old(self.disk.faults) ==>
              ret && r.value.repaired && Cleared(self, r.value.sel)
  {
    var ks := self.GetKernels();
    if ks == [] {
      return false, None;
    }
    ghost var report;
    ret, report := UpdateFound(self, ks);
    r := Some(report);
  }
}
