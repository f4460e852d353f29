/** boot_manager_update_image: every kernel is installed, and the one of the highest release is the default. */
module ImageUpdate {
  import opened Text
  import opened Disks
  import opened Kernels
  import opened Installs
  import opened Safety
  import opened BootManagers
  import opened Plans
  import opened Traces
  import opened Updates
  import opened NativeUpdate

  ghost function FirstOf(ks: seq<Kernel>, n: nat): iset<Kernel>
    requires n <= |ks|
  {
    iset k | k in ks[..n]
  }

  lemma OneMore(ks: seq<Kernel>, n: nat, done: iset<Kernel>)
    requires n < |ks| && FirstOf(ks, n) <= done
    ensures FirstOf(ks, n + 1) <= done + iset{ks[n]}
  {
    assert ks[..n + 1] == ks[..n] + [ks[n]];
  }

  // ----- the plan -----

  function InstallPlan(ks: seq<Kernel>): seq<Planned> {
    seq(|ks|, i requires 0 <= i < |ks| => Planned(Install(ks[i]), true))
  }

  /** Every kernel, then the first one as the default. */
  function InstallsAndDefault(ks: seq<Kernel>): seq<Planned>
    requires ks != []
  {
    InstallPlan(ks) + WriteDefault(Some(ks[0]))
  }

  function ImagePlan(ks: seq<Kernel>): seq<Planned>
    requires ks != []
  {
    [Planned(CopyFreestanding, true)] + InstallsAndDefault(ks)
  }

  lemma NoCopies(ks: seq<Kernel>, trace: seq<Event>)
    requires ks != [] && IsRunOf(InstallsAndDefault(ks), trace)
    ensures IsApart(trace)
  {
  }

  /** A run of the image update starts with the copy and ends with the first event that fails; and the default, which is
      the first kernel, is written when all have been installed. */
  lemma ImageSteps(ks: seq<Kernel>, trace: seq<Event>, i: nat)
    requires ks != [] && IsRunOf(ImagePlan(ks), trace) && i < |trace|
    ensures trace[0].step == CopyFreestanding && (!trace[i].ok ==> i == |trace| - 1)
    ensures trace[i].step.SetDefault? ==>
              trace[i].step.kernel == ks[0] && forall k | k in ks :: Did(trace, i, Install(k))
  {
    var plan, n := ImagePlan(ks), |ks|;
    assert |plan| == n + 2 && plan[0] == Planned(CopyFreestanding, true) && plan[n + 1].fatal;
    assert forall j | 0 <= j < n :: plan[j + 1] == Planned(Install(ks[j]), true);
    assert forall j | 0 < j <= n :: plan[j] == Planned(Install(ks[j - 1]), true);
    if trace[i].step.SetDefault? {
      forall k | k in ks
        ensures Did(trace, i, Install(k))
      {
        var j :| 0 <= j < n && ks[j] == k;
        FatalStepsDone(plan, trace, i, Planned(Install(k), true), j + 1);
      }
    }
  }

  // ----- the update -----

  method InstallEach(self: BootManager, ks: seq<Kernel>, ghost c: Scene)
    returns (ok: bool, ghost trace: seq<Event>, ghost done: iset<Kernel>)
    requires self.Valid() && c.env == self.Environment() && forall k | k in ks :: k in c.all
    requires Sound(c) ==> Preparing(c, self.disk.history, iset{})
    modifies self.disk
    ensures self.Valid() && self.disk.faults >= old(self.disk.faults)
    ensures IsRunOf(InstallPlan(ks), trace) && (ok <==> Completes(InstallPlan(ks), trace))
    ensures Leads(c.env, old(self.disk.history), trace, self.disk.history)
    ensures Sound(c) ==> Preparing(c, self.disk.history, done)
    ensures ok ==> FirstOf(ks, |ks|) <= done
    ensures Sound(c) && self.sane && self.disk.faults == old(self.disk.faults) ==> ok
  {
    trace, done := [], iset{};
    ghost var h0 := self.disk.history;
    for i := 0 to |ks|
      invariant self.Valid() && self.disk.faults >= old(self.disk.faults)
      invariant |trace| == i && Succeeds(InstallPlan(ks), trace) && Leads(c.env, h0, trace, self.disk.history)
      invariant Sound(c) ==> Preparing(c, self.disk.history, done)
      invariant FirstOf(ks, i) <= done
    {
      ghost var h1 := self.disk.history;
      ghost var v;
      OneMore(ks, i, done);
      ok, v, done := InstallStep(self, ks[i], c, done);
      LeadsOne(c.env, v);
      LeadsThen(c.env, h0, trace, h1, [v], self.disk.history);
      SucceedsOne(InstallPlan(ks), trace, v);
      trace := trace + [v];
      if !ok {
        return;
      }
    }
    return true, trace, done;
  }

  method InstallAndSet(self: BootManager, ks: seq<Kernel>, ghost c: Scene) returns (ok: bool, ghost trace: seq<Event>)
    requires self.Valid() && Begins(self, c) && ks != [] && forall k | k in ks :: k in c.all
    requires Sound(c) ==> Preparing(c, self.disk.history, iset{})
    modifies self.disk
    ensures self.Valid() && self.disk.faults >= old(self.disk.faults)
    ensures IsRunOf(InstallsAndDefault(ks), trace) && (ok <==> Completes(InstallsAndDefault(ks), trace))
    ensures Leads(c.env, old(self.disk.history), trace, self.disk.history)
    ensures Sound(c) ==> Evolves(c.start, self.disk.history, Touched(c, iset{}))
    ensures Sound(c) && ok ==> forall k | k in ks :: Installed(c.env, self.disk.files, k)
    ensures ok ==> DefaultWritten(self.settings.build, self.config, self.disk.files, ks[0])
    ensures Sound(c) && self.sane && self.disk.faults == old(self.disk.faults) ==> ok
  {
    ghost var h0 := self.disk.history;
    ghost var done, write := iset{}, [];
    ok, trace, done := InstallEach(self, ks, c);
    assert ks[..|ks|] == ks;
    ghost var h1 := self.disk.history;
    ghost var installs := trace;
    if ok {
      ok, write := SetNewDefault(self, Some(ks[0]), c, done);
    }
    LeadsThen(c.env, h0, installs, h1, write, self.disk.history);
    PartThen(InstallPlan(ks), installs, WriteDefault(Some(ks[0])), write);
    trace := installs + write;
  }

  /** Installation of what was found. The outcome of the bootloader's update does not count. */
  method InstallImage(self: BootManager, ks: seq<Kernel>, ghost c: Scene)
    returns (ret: bool, ghost updated: bool, ghost trace: seq<Event>)
    requires self.Valid() && Begins(self, c) && c.start == self.disk.history
    requires Sorted(ks) && forall k | k in ks :: k in c.all
    modifies self.disk
    ensures self.Valid() && self.disk.faults >= old(self.disk.faults) + if updated then 0 else 1
    ensures trace == [] || IsRunOf(ImagePlan(ks), trace)
    ensures ret <==> Completes(ImagePlan(ks), trace)
    ensures Leads(c.env, c.start, trace, self.disk.history)
    ensures Sound(c) ==> Evolves(c.start, self.disk.history, Touched(c, iset{}))
    ensures Sound(c) && ret ==> forall k | k in ks :: Installed(c.env, self.disk.files, k)
    ensures ret ==> DefaultWritten(self.settings.build, self.config, self.disk.files, ks[0])
    ensures ret && old(CanStage(self.initrds)) ==> AllCopied(self.initrds)
    ensures (&& Sound(c) && self.sane && old(self.initrds.SourcesThere())
             && self.disk.faults == old(self.disk.faults) + (if updated then 0 else 1)) ==> ret
  {
    if Sound(c) {
      EvolvesThen(c.start, c.start, c.start, iset{}, iset{}, Touched(c, iset{}));
    }
    updated, trace := true, [];
    ret := self.disk.Try();      // the boot directory exists, and the boot loader can be initialised for it
    if !ret {
      return;
    }
    ghost var copy;
    ghost var rest := [];
    updated := self.disk.Try();
    ret, copy := CopyFreestandingStep(self, c);
    ghost var h0 := self.disk.history;
    if ret {
      ret, rest := InstallAndSet(self, ks, c);
      NoCopies(ks, rest);
      CopiesStayApart(self.initrds, c.env, h0, rest);
    }
    trace := ImageTrace(ks, c, copy, rest, self.disk.history);
  }

  lemma ImageTrace(ks: seq<Kernel>, c: Scene, copy: Event, rest: seq<Event>, h: seq<Files>) returns (trace: seq<Event>)
    requires ks != [] && copy.step == CopyFreestanding && copy.before == c.start && Tells(c.env, copy)
    requires if copy.ok then IsRunOf(InstallsAndDefault(ks), rest) else rest == []
    requires Leads(c.env, copy.after, rest, h)
    ensures trace == [copy] + rest && Leads(c.env, c.start, trace, h)
    ensures IsRunOf(ImagePlan(ks), trace)
    ensures Completes(ImagePlan(ks), trace) <==> copy.ok && Completes(InstallsAndDefault(ks), rest)
  {
    var first := [Planned(CopyFreestanding, true)];
    trace := [copy] + rest;
    LeadsOne(c.env, copy);
    LeadsThen(c.env, c.start, [copy], copy.after, rest, h);
    assert IsRunOf(first, [copy]) && (Completes(first, [copy]) <==> copy.ok);
    PartThen(first, [copy], InstallsAndDefault(ks), rest);
  }

  /** boot_manager_update_image. Only the ESP is touched, and no copy that was in place; on success every
      kernel found is installed and one of the highest release is the default, whether or not the
      bootloader could be updated. */
  method UpdateImage(self: BootManager)
    returns (ret: bool, ghost ks: seq<Kernel>, ghost c: Scene, ghost updated: bool, ghost trace: seq<Event>)
    requires self.Valid()
    modifies self.disk
    ensures self.Valid() && c == SceneOf(self.settings, self.Environment(), old(self.disk.history))
    ensures old(Tame(self.settings, self.disk.files)) ==> Sound(c)
    ensures AreKernels(c.all, ks) && Descending(ks)
    ensures trace == [] || (ks != [] && IsRunOf(ImagePlan(ks), trace))
    ensures ret <==> ks != [] && Completes(ImagePlan(ks), trace)
    ensures Leads(c.env, c.start, trace, self.disk.history)
    ensures Sound(c) ==> Evolves(c.start, self.disk.history, Touched(c, iset{}))
    ensures ks == [] ==> !ret && self.disk.history == old(self.disk.history)
    ensures ks == [] && self.disk.faults == old(self.disk.faults) ==> forall k :: k !in c.all
    ensures ret ==> ks != [] && DefaultWritten(self.settings.build, self.config, self.disk.files, ks[0])
    ensures Sound(c) && ret ==> forall k | k in ks :: Installed(c.env, self.disk.files, k)
    ensures ret && old(CanStage(self.initrds)) ==> AllCopied(self.initrds)
    ensures (&& Sound(c) && self.sane && old(self.initrds.SourcesThere()) && ks != []
             && self.disk.faults == old(self.disk.faults) + (if updated then 0 else 1)) ==> ret && IsComplete(c.all, ks)
  {
    c := SceneOf(self.settings, self.Environment(), self.disk.history);
    updated, trace := true, [];
    if Tame(self.settings, self.disk.files) {
      SceneSound(self.settings, self.Environment(), self.disk.history);
    }
    var found := self.GetKernels();
    ks := [];
    if found == [] {
      EvolvesThen(c.start, c.start, c.start, iset{}, iset{}, Touched(c, iset{}));
      return false, ks, c, updated, trace;
    }
    var sorted := SortDescending(found);
    SortedKernels(c.all, found, sorted);
    ks := sorted;
    ret, updated, trace := InstallImage(self, sorted, c);
  }
}
