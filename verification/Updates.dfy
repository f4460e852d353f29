/** boot_manager_update: installing, selecting the default and collecting old kernels, on the disk. */
module Updates {
  import opened Text
  import opened Disks
  import opened Names
  import opened Kernels
  import opened Plans
  import opened Installs
  import opened Safety
  import opened BootManagers
  import opened Traces
  import Freestanding

  /** Everything but the freestanding initrds, their sources and their copies. */
  ghost function Apart(): iset<Path> {
    iset p: Path | p !in Freestanding.EspPaths() && !p.area.FreestandingDir? && !p.area.UserFreestandingDir?
  }

  lemma KernelsApart(b: Build, k: Kernel)
    ensures InstallPaths(b, k) <= Apart() && RemovablePaths(b, k) <= Apart()
  {
    forall p | p in Freestanding.EspPaths()
      ensures !IsBlob(b, k, p)
    {
      assert p.name[..|Freestanding.Key("")|][0] == 'f';
      assert ("kernel-" + k.bpath)[0] == 'k' && InitrdName(b, k.id)[0] == 'i';
      if IsOrExtends(p.name, "kernel-" + k.bpath) {
        FirstChar(p.name, "kernel-" + k.bpath);
      }
      if IsOrExtends(p.name, InitrdName(b, k.id)) {
        FirstChar(p.name, InitrdName(b, k.id));
      }
    }
    assert forall p: Path | p.area.EspKernels? && Removable(b, k, p) :: IsBlob(b, k, p);
  }

  /** None of the steps copies freestanding initrds. */
  ghost predicate IsApart(trace: seq<Event>) {
    forall v | v in trace :: !v.step.CopyFreestanding?
  }

  lemma LeadsApart(e: Env, h0: seq<Files>, trace: seq<Event>, h1: seq<Files>)
    requires Leads(e, h0, trace, h1) && h0 != [] && IsApart(trace)
    ensures Evolves(h0, h1, Apart())
  {
    forall v | v in trace
      ensures StepPaths(e.build, v.step) <= Apart()
    {
      if v.step.Install? || v.step.Remove? {
        KernelsApart(e.build, v.step.kernel);
      }
    }
    LeadsWithin(e, h0, trace, h1, Apart());
  }

  // ----- one step -----

  method InstallStep(self: BootManager, k: Kernel, ghost c: Scene, ghost done: iset<Kernel>)
    returns (ok: bool, ghost v: Event, ghost now: iset<Kernel>)
    requires self.Valid() && c.env == self.Environment() && k in c.all
    requires Sound(c) ==> Preparing(c, self.disk.history, done)
    modifies self.disk
    ensures self.Valid() && self.disk.faults >= old(self.disk.faults)
    ensures v == Event(Install(k), ok, old(self.disk.history), self.disk.history) && Tells(c.env, v)
    ensures now == if ok then done + iset{k} else done - iset{k}
    ensures Sound(c) ==> Preparing(c, self.disk.history, now)
    ensures Sound(c) && self.sane && self.disk.faults == old(self.disk.faults) ==> ok
  {
    ghost var h0 := self.disk.history;
    ok := self.InstallKernel(k);
    v := Event(Install(k), ok, h0, self.disk.history);
    now := if ok then done + iset{k} else done - iset{k};
    if Sound(c) {
      SourcesUntouched(c, h0);
      InstallPrepares(c, h0, self.disk.history, done, k, ok);
    }
  }

  // ----- one type -----

  /** The inner loop over the kernels of a type. */
  method ScheduleDrops(running: Option<Kernel>, typed: seq<Kernel>, tip: Kernel, lastGood: Option<Kernel>,
                       ghost t: string)
    returns (drops: seq<Kernel>)
    ensures drops == Drops(running, Choice(t, typed, tip, lastGood))
  {
    drops := [];
    if running.None? {
      return;
    }
    ghost var c := Choice(t, typed, tip, lastGood);
    for i := 0 to |typed|
      invariant drops == DropsUpto(running, c, i)
    {
      var k := typed[i];
      if k == running.value || k == tip {
        continue;
      }
      if lastGood.Some? && k == lastGood.value {
        continue;
      }
      drops := drops + [k];
    }
  }

  /** The tip and the last booted kernel of a type are among `now`. */
  ghost predicate HoldsKeepers(choice: Choice, now: iset<Kernel>) {
    choice.tip in now && (choice.lastGood.Some? ==> choice.lastGood.value in now)
  }

  /** The events of one type: the installation of its tip, and if that succeeds of its last booted kernel. */
  lemma TypeRun(c: Choice, v: Event, more: seq<Event>)
    requires v.step == Install(c.tip)
    requires |more| == if v.ok && c.lastGood.Some? then 1 else 0
    requires more != [] ==> more[0].step == Install(c.lastGood.value)
    ensures IsRunOf(TypeInstalls(c), [v] + more)
    ensures Completes(TypeInstalls(c), [v] + more) <==> v.ok && (more != [] ==> more[0].ok)
  {
    var plan, trace := TypeInstalls(c), [v] + more;
    assert plan[0].fatal && trace[0] == v;
    if more != [] {
      assert plan[1].fatal && trace[1] == more[0];
    }
  }

  /** Sorts a type's kernels and finds its tip: the default link's kernel, else the highest release. */
  method FindTip(links: Links, t: string, unsorted: seq<Kernel>, ghost ks: seq<Kernel>)
    returns (typed: seq<Kernel>, tip: Kernel)
    requires unsorted == OfType(ks, t) && unsorted != [] && Distinct(ks)
    ensures Chosen(links, ks, Choice(t, typed, tip, LastBooted(typed)))
    ensures forall k | k in typed :: k in ks
  {
    typed := SortDescending(unsorted);
    PermutationMembers(typed, unsorted);
    TypesPartition(ks);
    var link := GetDefaultForType(links, typed, t);
    tip := if link.Some? then link.value else typed[0];
  }

  /** The installations of one type: its tip and, if that succeeds, its last booted kernel. */
  method InstallKeepers(self: BootManager, ghost choice: Choice, tip: Kernel, typed: seq<Kernel>, ghost c: Scene,
                        ghost done: iset<Kernel>)
    returns (ok: bool, lastGood: Option<Kernel>, ghost trace: seq<Event>, ghost now: iset<Kernel>)
    requires self.Valid() && c.env == self.Environment()
    requires choice.tip == tip && choice.kernels == typed && choice.lastGood == LastBooted(typed)
    requires tip in c.all && forall k | k in typed :: k in c.all
    requires Sound(c) ==> Preparing(c, self.disk.history, done)
    modifies self.disk
    ensures self.Valid() && self.disk.faults >= old(self.disk.faults)
    ensures IsRunOf(TypeInstalls(choice), trace) && (ok <==> Completes(TypeInstalls(choice), trace))
    ensures Leads(c.env, old(self.disk.history), trace, self.disk.history)
    ensures ok ==> done <= now && HoldsKeepers(choice, now) && lastGood == choice.lastGood
    ensures Sound(c) ==> Preparing(c, self.disk.history, now)
    ensures Sound(c) && self.sane && self.disk.faults == old(self.disk.faults) ==> ok
  {
    ghost var h0 := self.disk.history;
    ghost var v, w;
    ok, v, now := InstallStep(self, tip, c, done);
    LeadsOne(c.env, v);
    ghost var more := [];
    lastGood := None;
    if ok {
      lastGood := GetLastBooted(typed);
      if lastGood.Some? {
        ghost var h1 := self.disk.history;
        ok, w, now := InstallStep(self, lastGood.value, c, now);
        more := [w];
        LeadsOne(c.env, w);
        LeadsThen(c.env, h0, [v], h1, more, self.disk.history);
      }
    }
    trace := [v] + more;
    TypeRun(choice, v, more);
  }

  method UpdateType(self: BootManager, t: string, unsorted: seq<Kernel>, running: Option<Kernel>,
                    ghost ks: seq<Kernel>, ghost c: Scene, ghost done: iset<Kernel>)
    returns (ok: bool, drops: seq<Kernel>, ghost choice: Choice, ghost trace: seq<Event>, ghost now: iset<Kernel>)
    requires self.Valid() && c.env == self.Environment()
    requires unsorted == OfType(ks, t) && unsorted != [] && Distinct(ks) && forall k | k in ks :: k in c.all
    requires Sound(c) ==> Preparing(c, self.disk.history, done)
    modifies self.disk
    ensures self.Valid() && self.disk.faults >= old(self.disk.faults)
    ensures choice.ktype == t && Chosen(self.links, ks, choice)
    ensures IsRunOf(TypeInstalls(choice), trace) && (ok <==> Completes(TypeInstalls(choice), trace))
    ensures Leads(c.env, old(self.disk.history), trace, self.disk.history)
    ensures ok ==> drops == Drops(running, choice) && done <= now && HoldsKeepers(choice, now)
    ensures Sound(c) ==> Preparing(c, self.disk.history, now)
    ensures Sound(c) && self.sane && self.disk.faults == old(self.disk.faults) ==> ok
  {
    var lastGood;
    var typed, tip := FindTip(self.links, t, unsorted, ks);
    choice := Choice(t, typed, tip, LastBooted(typed));
    ok, lastGood, trace, now := InstallKeepers(self, choice, tip, typed, c, done);
    drops := [];
    if ok {
      drops := ScheduleDrops(running, typed, tip, lastGood, t);
    }
  }

  // ----- all types -----

  /** Where the walk over the types stands after `types`. */
  ghost predicate TypesWalked(links: Links, ks: seq<Kernel>, names: seq<string>, running: Option<Kernel>,
                              types: seq<Choice>, trace: seq<Event>, removals: seq<Kernel>, now: iset<Kernel>) {
    && ChosenFor(links, ks, names, types)
    && IsRunOf(InstallsUpto(types, |types|), trace) && Completes(InstallsUpto(types, |types|), trace)
    && removals == RemovalsUpto(running, types, |types|)
    && KeepersIn(types, now)
  }

  lemma KeepersMore(types: seq<Choice>, now: iset<Kernel>, choice: Choice, next: iset<Kernel>)
    requires KeepersIn(types, now) && now <= next
    requires HoldsKeepers(choice, next)
    ensures KeepersIn(types + [choice], next)
  {
  }

  lemma ChosenMore(links: Links, ks: seq<Kernel>, names: seq<string>, types: seq<Choice>, choice: Choice)
    requires ChosenFor(links, ks, names, types) && |types| < |names|
    requires choice.ktype == names[|types|] && Chosen(links, ks, choice)
    ensures ChosenFor(links, ks, names, types + [choice])
  {
  }

  lemma WalkedOne(links: Links, ks: seq<Kernel>, names: seq<string>, running: Option<Kernel>,
                  types: seq<Choice>, trace: seq<Event>, removals: seq<Kernel>, now: iset<Kernel>,
                  choice: Choice, more: seq<Event>, drops: seq<Kernel>, next: iset<Kernel>)
    requires TypesWalked(links, ks, names, running, types, trace, removals, now)
    requires |types| < |names| && choice.ktype == names[|types|] && Chosen(links, ks, choice)
    requires IsRunOf(TypeInstalls(choice), more) && Completes(TypeInstalls(choice), more)
    requires drops == Drops(running, choice)
    requires now <= next && HoldsKeepers(choice, next)
    ensures TypesWalked(links, ks, names, running, types + [choice], trace + more, removals + drops, next)
  {
    ChosenMore(links, ks, names, types, choice);
    OneMoreType(running, types, choice);
    RunThen(InstallsUpto(types, |types|), trace, TypeInstalls(choice), more);
    KeepersMore(types, now, choice, next);
  }

  /** A walk that ended, early unless `ok`: the events are a run of what would have been installed. */
  ghost predicate WalkDone(links: Links, ks: seq<Kernel>, names: seq<string>, types: seq<Choice>, trace: seq<Event>,
                           ok: bool) {
    && |types| == |names| && ChosenFor(links, ks, names, types)
    && IsRunOf(InstallsUpto(types, |types|), trace) && (ok <==> Completes(InstallsUpto(types, |types|), trace))
  }

  /** A run that failed is a run of any longer plan. */
  lemma {:induction false} StopsLonger(types: seq<Choice>, all: seq<Choice>, trace: seq<Event>)
    requires |types| <= |all| && forall i | 0 <= i < |types| :: types[i] == all[i]
    requires IsRunOf(InstallsUpto(types, |types|), trace) && !Completes(InstallsUpto(types, |types|), trace)
    ensures IsRunOf(InstallsUpto(all, |all|), trace) && !Completes(InstallsUpto(all, |all|), trace)
  {
    PrefixSame(None, types, all, |types|);
    var rest := InstallsSplit(all, |types|, |all|);
    RunStops(InstallsUpto(types, |types|), trace, rest);
  }

  /** A walk that stops inside a type. */
  lemma {:induction false} WalkStops(links: Links, ks: seq<Kernel>, names: seq<string>, types: seq<Choice>,
                                     trace: seq<Event>, choice: Choice, more: seq<Event>)
    returns (all: seq<Choice>)
    requires ChosenFor(links, ks, names, types) && forall t | t in names :: OfType(ks, t) != []
    requires IsRunOf(InstallsUpto(types, |types|), trace) && Completes(InstallsUpto(types, |types|), trace)
    requires |types| < |names| && choice.ktype == names[|types|] && Chosen(links, ks, choice)
    requires IsRunOf(TypeInstalls(choice), more) && !Completes(TypeInstalls(choice), more)
    ensures WalkDone(links, ks, names, all, trace + more, false)
  {
    ChosenMore(links, ks, names, types, choice);
    OneMoreType(None, types, choice);
    RunThen(InstallsUpto(types, |types|), trace, TypeInstalls(choice), more);
    all := CompleteTypes(links, ks, names, types + [choice]);
    StopsLonger(types + [choice], all, trace + more);
  }

  /** The map of types, and the order in which it will be walked. */
  method MapTypes(disk: Disk, ks: seq<Kernel>) returns (typed: map<string, seq<Kernel>>, order: seq<string>)
    requires disk.Valid() && Distinct(ks)
    ensures Lists(order, TypesOf(ks))
    ensures forall t | t in order :: t in typed && typed[t] == OfType(ks, t) && typed[t] != []
  {
    typed := MapKernels(ks);
    TypesPartition(ks);
    order := disk.order(typed.Keys);
  }

  /** One turn of the loop over the types. */
  method UpdateNext(self: BootManager, t: string, unsorted: seq<Kernel>, running: Option<Kernel>,
                    scheduled: seq<Kernel>,
                    ghost ks: seq<Kernel>, ghost names: seq<string>, ghost chosen: seq<Choice>,
                    ghost before: seq<Event>,
                    ghost c: Scene, ghost done: iset<Kernel>, ghost h0: seq<Files>)
    returns (ok: bool, removals: seq<Kernel>, ghost types: seq<Choice>, ghost trace: seq<Event>,
             ghost now: iset<Kernel>)
    requires self.Valid() && c.env == self.Environment()
    requires Distinct(ks) && (forall k | k in ks :: k in c.all) && forall n | n in names :: OfType(ks, n) != []
    requires |chosen| < |names| && names[|chosen|] == t && unsorted == OfType(ks, t)
    requires TypesWalked(self.links, ks, names, running, chosen, before, scheduled, done)
    requires Leads(c.env, h0, before, self.disk.history)
    requires Sound(c) ==> Preparing(c, self.disk.history, done)
    modifies self.disk
    ensures self.Valid() && self.disk.faults >= old(self.disk.faults)
    ensures ok ==>
              && |types| == |chosen| + 1 && done <= now
              && TypesWalked(self.links, ks, names, running, types, trace, removals, now)
    ensures !ok ==> WalkDone(self.links, ks, names, types, trace, false)
    ensures Leads(c.env, h0, trace, self.disk.history)
    ensures Sound(c) ==> Preparing(c, self.disk.history, now)
    ensures Sound(c) && self.sane && self.disk.faults == old(self.disk.faults) ==> ok
  {
    ghost var h1 := self.disk.history;
    var drops;
    ghost var choice, more;
    ok, drops, choice, more, now := UpdateType(self, t, unsorted, running, ks, c, done);
    LeadsThen(c.env, h0, before, h1, more, self.disk.history);
    trace, removals := before + more, scheduled + drops;
    if ok {
      WalkedOne(self.links, ks, names, running, chosen, before, scheduled, done, choice, more, drops, now);
      types := chosen + [choice];
    } else {
      types := WalkStops(self.links, ks, names, chosen, before, choice, more);
    }
  }

  /** The loop over the map of types, in the order of the hash map. */
  method UpdateTypes(self: BootManager, ks: seq<Kernel>, running: Option<Kernel>, ghost c: Scene,
                     ghost done: iset<Kernel>)
    returns (ok: bool, removals: seq<Kernel>, ghost names: seq<string>, ghost types: seq<Choice>,
             ghost trace: seq<Event>, ghost now: iset<Kernel>)
    requires self.Valid() && c.env == self.Environment() && Distinct(ks) && forall k | k in ks :: k in c.all
    requires Sound(c) ==> Preparing(c, self.disk.history, done)
    modifies self.disk
    ensures self.Valid() && self.disk.faults >= old(self.disk.faults)
    ensures Lists(names, TypesOf(ks)) && WalkDone(self.links, ks, names, types, trace, ok)
    ensures Leads(c.env, old(self.disk.history), trace, self.disk.history)
    ensures ok ==> TypesWalked(self.links, ks, names, running, types, trace, removals, now) && done <= now
    ensures Sound(c) ==> Preparing(c, self.disk.history, now)
    ensures Sound(c) && self.sane && self.disk.faults == old(self.disk.faults) ==> ok
  {
    hide Preparing, Sound, OfType, TypesOf, Chosen, Lists, TipOf;
    var typed, order := MapTypes(self.disk, ks);
    names := order;
    types, trace, now := [], [], done;
    removals := [];
    ghost var h0 := self.disk.history;
    for i := 0 to |order|
      invariant self.Valid() && self.disk.faults >= old(self.disk.faults)
      invariant |types| == i && TypesWalked(self.links, ks, names, running, types, trace, removals, now) && done <= now
      invariant Leads(c.env, h0, trace, self.disk.history)
      invariant Sound(c) ==> Preparing(c, self.disk.history, now)
    {
      ok, removals, types, trace, now := UpdateNext(self, order[i], typed[order[i]], running, removals,
                                                      ks, names, types, trace, c, now, h0);
      if !ok {
        return;
      }
    }
    ok := true;
  }

  // ----- up to the first removal -----

  /** The repair as an event of its own plan. */
  ghost predicate RanRepair(running: Option<Kernel>, repair: seq<Event>, repaired: bool) {
    && IsRunOf(OptInstall(running, false), repair) && Completes(OptInstall(running, false), repair)
    && (repair != [] ==> repair[0].ok == repaired)
  }

  /** The repair of the running kernel, whose failure is only reported. */
  method RepairRunning(self: BootManager, running: Option<Kernel>, ghost c: Scene, ghost done: iset<Kernel>)
    returns (ghost repaired: bool, ghost trace: seq<Event>, ghost now: iset<Kernel>)
    requires self.Valid() && c.env == self.Environment() && (running.Some? ==> running.value in c.all)
    requires Sound(c) ==> Preparing(c, self.disk.history, done)
    modifies self.disk
    ensures self.Valid() && self.disk.faults >= old(self.disk.faults)
    ensures RanRepair(running, trace, repaired)
    ensures Leads(c.env, old(self.disk.history), trace, self.disk.history)
    ensures repaired && running.Some? ==> running.value in now
    ensures Sound(c) ==> Preparing(c, self.disk.history, now)
    ensures Sound(c) && self.sane && self.disk.faults == old(self.disk.faults) ==> repaired
  {
    repaired, trace, now := true, [], done;
    if running.Some? {
      var ok;
      ghost var v;
      ok, v, now := InstallStep(self, running.value, c, done);
      repaired, trace := ok, [v];
      LeadsOne(c.env, v);
    }
  }

  /** The default that will be written; without a running kernel the uname's type decides. */
  method FindDefault(links: Links, sys: Option<Ident>, ks: seq<Kernel>, running: Option<Kernel>)
    returns (d: Option<Kernel>)
    ensures d == NewDefault(links, sys, ks, running)
  {
    d := None;
    if running.None? {
      if sys.Some? && sys.value.ktype != "" {
        d := GetDefaultForType(links, ks, sys.value.ktype);
      }
    } else {
      d := GetDefaultForType(links, ks, running.value.id.ktype);
    }
  }

  method SetNewDefault(self: BootManager, d: Option<Kernel>, ghost c: Scene, ghost done: iset<Kernel>)
    returns (ok: bool, ghost trace: seq<Event>)
    requires self.Valid() && c.env == self.Environment() && c.settings == self.settings
    requires d.Some? ==> d.value in c.all
    requires Sound(c) ==> Preparing(c, self.disk.history, done)
    modifies self.disk
    ensures self.Valid() && self.disk.faults >= old(self.disk.faults)
    ensures IsRunOf(WriteDefault(d), trace) && (ok <==> Completes(WriteDefault(d), trace))
    ensures Leads(c.env, old(self.disk.history), trace, self.disk.history)
    ensures ok && d.Some? ==> DefaultWritten(self.settings.build, self.config, self.disk.files, d.value)
    ensures Sound(c) ==> Preparing(c, self.disk.history, done)
    ensures Sound(c) && self.sane && self.disk.faults == old(self.disk.faults) ==> ok
  {
    ok, trace := true, [];
    if d.Some? {
      ghost var h0 := self.disk.history;
      if Sound(c) {
        StillKernel(c, h0, d.value);
      }
      ok := self.SetDefaultKernel(d.value);
      ghost var v := Event(SetDefault(d.value), ok, h0, self.disk.history);
      trace := [v];
      LeadsOne(c.env, v);
      assert trace[0] == v && WriteDefault(d)[0].fatal;
      if Sound(c) {
        DefaultPrepares(c, h0, self.disk.history, done);
      }
    }
  }

  lemma InstallationRuns(sel: Selection, repair: seq<Event>, installs: seq<Event>, write: seq<Event>)
    requires IsRunOf(OptInstall(sel.running, false), repair) && Completes(OptInstall(sel.running, false), repair)
    requires IsRunOf(InstallsUpto(sel.types, |sel.types|), installs)
    requires if Completes(InstallsUpto(sel.types, |sel.types|), installs) then
               IsRunOf(WriteDefault(sel.newDefault), write)
             else
               write == []
    ensures IsRunOf(Installation(sel), repair + (installs + write))
    ensures Completes(Installation(sel), repair + (installs + write)) <==>
            Completes(InstallsUpto(sel.types, |sel.types|), installs) && Completes(WriteDefault(sel.newDefault), write)
  {
    var p, q := InstallsUpto(sel.types, |sel.types|), WriteDefault(sel.newDefault);
    PartThen(p, installs, q, write);
    RunThen(OptInstall(sel.running, false), repair, p + q, installs + write);
  }

  /** The installations and the default, as events of their own plans. */
  ghost predicate RanTypes(links: Links, ks: seq<Kernel>, names: seq<string>, types: seq<Choice>,
                           newDefault: Option<Kernel>, installs: seq<Event>, write: seq<Event>, ok: bool) {
    && Lists(names, TypesOf(ks)) && |types| == |names| && ChosenFor(links, ks, names, types)
    && IsRunOf(InstallsUpto(types, |types|), installs)
    && (if Completes(InstallsUpto(types, |types|), installs) then
          IsRunOf(WriteDefault(newDefault), write) && (ok <==> Completes(WriteDefault(newDefault), write))
        else
          write == [] && !ok)
  }

  ghost predicate KeepersIn(types: seq<Choice>, done: iset<Kernel>) {
    forall i | 0 <= i < |types| :: HoldsKeepers(types[i], done)
  }

  /** What the events so far amount to: a run of the installation part of a selection's plan. */
  lemma RanSelected(links: Links, sys: Option<Ident>, ks: seq<Kernel>, names: seq<string>, types: seq<Choice>,
                    repair: seq<Event>, repaired: bool, installs: seq<Event>, write: seq<Event>, ok: bool)
    returns (sel: Selection, trace: seq<Event>)
    requires ks != [] && Distinct(ks) && UniqueNames(ks) && Descending(ks)
    requires RanRepair(RunningOf(ks, sys), repair, repaired)
    requires RanTypes(links, ks, names, types, NewDefault(links, sys, ks, RunningOf(ks, sys)), installs, write, ok)
    ensures Selected(links, sys, sel) && sel.kernels == ks && sel.types == types
    ensures trace == repair + (installs + write)
    ensures sel.running.Some? ==> trace != [] && trace[0].ok == repaired
    ensures IsRunOf(Installation(sel), trace) && (ok <==> Completes(Installation(sel), trace))
  {
    sel := WalkSelects(links, sys, ks, names, types);
    trace := repair + (installs + write);
    InstallationRuns(sel, repair, installs, write);
  }

  /** The types, then the default. */
  method InstallTypes(self: BootManager, ks: seq<Kernel>, running: Option<Kernel>, ghost c: Scene,
                      ghost done: iset<Kernel>)
    returns (ok: bool, removals: seq<Kernel>, newDefault: Option<Kernel>, ghost names: seq<string>,
             ghost types: seq<Choice>,
             ghost installs: seq<Event>, ghost write: seq<Event>, ghost now: iset<Kernel>)
    requires self.Valid() && c.env == self.Environment() && c.settings == self.settings
    requires Distinct(ks) && forall k | k in ks :: k in c.all
    requires Sound(c) ==> Preparing(c, self.disk.history, done)
    modifies self.disk
    ensures self.Valid() && self.disk.faults >= old(self.disk.faults)
    ensures newDefault == NewDefault(self.links, self.sysKernel, ks, running)
    ensures RanTypes(self.links, ks, names, types, newDefault, installs, write, ok)
    ensures Leads(c.env, old(self.disk.history), installs + write, self.disk.history)
    ensures ok ==> removals == RemovalsUpto(running, types, |types|) && KeepersIn(types, now) && done <= now
    ensures ok && newDefault.Some? ==>
              DefaultWritten(self.settings.build, self.config, self.disk.files, newDefault.value)
    ensures Sound(c) ==> Preparing(c, self.disk.history, now)
    ensures Sound(c) && self.sane && self.disk.faults == old(self.disk.faults) ==> ok
  {
    ghost var h0 := self.disk.history;
    ok, removals, names, types, installs, now := UpdateTypes(self, ks, running, c, done);
    ghost var h1 := self.disk.history;
    write := [];
    newDefault := FindDefault(self.links, self.sysKernel, ks, running);
    if ok {
      ok, write := SetNewDefault(self, newDefault, c, now);
    }
    LeadsThen(c.env, h0, installs, h1, write, self.disk.history);
  }

  /** Everything between the copy of the freestanding initrds and the first removal. */
  method InstallAll(self: BootManager, ks: seq<Kernel>, running: Option<Kernel>, ghost c: Scene)
    returns (ok: bool, removals: seq<Kernel>, newDefault: Option<Kernel>, ghost names: seq<string>,
             ghost types: seq<Choice>,
             ghost repaired: bool, ghost repair: seq<Event>, ghost installs: seq<Event>, ghost write: seq<Event>,
             ghost done: iset<Kernel>)
    requires self.Valid() && c.env == self.Environment() && c.settings == self.settings
    requires Distinct(ks) && forall k | k in ks :: k in c.all
    requires running.Some? ==> running.value in c.all
    requires Sound(c) ==> Preparing(c, self.disk.history, iset{})
    modifies self.disk
    ensures self.Valid() && self.disk.faults >= old(self.disk.faults)
    ensures newDefault == NewDefault(self.links, self.sysKernel, ks, running)
    ensures RanRepair(running, repair, repaired)
    ensures RanTypes(self.links, ks, names, types, newDefault, installs, write, ok)
    ensures Leads(c.env, old(self.disk.history), repair + (installs + write), self.disk.history)
    ensures ok ==> removals == RemovalsUpto(running, types, |types|) && KeepersIn(types, done)
    ensures ok && repaired && running.Some? ==> running.value in done
    ensures ok && newDefault.Some? ==>
              DefaultWritten(self.settings.build, self.config, self.disk.files, newDefault.value)
    ensures Sound(c) ==> Preparing(c, self.disk.history, done)
    ensures Sound(c) && self.sane && self.disk.faults == old(self.disk.faults) ==> ok && repaired
  {
    ghost var h0 := self.disk.history;
    repaired, repair, done := RepairRunning(self, running, c, iset{});
    ghost var h1 := self.disk.history;
    ok, removals, newDefault, names, types, installs, write, done := InstallTypes(self, ks, running, c, done);
    LeadsThen(c.env, h0, repair, h1, installs + write, self.disk.history);
  }

  // ----- removals -----

  ghost function Members(ks: seq<Kernel>): iset<Kernel> {
    iset k | k in ks
  }

  ghost predicate SourcesFrom(files: Files, ks: seq<Kernel>, i: nat) {
    forall j | i <= j < |ks| :: SourcePath(ks[j]) in files
  }

  ghost predicate GoneUpto(files: Files, ks: seq<Kernel>, i: nat)
    requires i <= |ks|
  {
    forall j | 0 <= j < i :: SourcePath(ks[j]) !in files
  }

  ghost predicate ClearedUpto(b: Build, files: Files, ks: seq<Kernel>, i: nat)
    requires i <= |ks|
  {
    forall j, p | 0 <= j < i && Removable(b, ks[j], p) :: p !in files
  }

  lemma SourcesSpared(c: Scene, ks: seq<Kernel>, i: nat, f: Files, g: Files)
    requires Orderly(c) && Members(ks) <= c.all && Distinct(ks) && i < |ks| && SourcesFrom(f, ks, i)
    requires Frame(f, g, RemovablePaths(c.env.build, ks[i]))
    ensures SourcesFrom(g, ks, i + 1)
  {
    var b := c.env.build;
    forall j | i < j < |ks|
      ensures SourcePath(ks[j]) in g
    {
      assert ks[i] in Members(ks) && ks[j] in Members(ks);
      OthersSpare(b, ks[i], ks[j]);
      CanonicalPaths(b, ks[i]);
      RemovableOwned(b, ks[i]);
      assert SourcePath(ks[j]) in Owned(b, ks[j].id);
      assert Same(f, g, SourcePath(ks[j]));
    }
  }

  /** Nothing a removal deletes is left of this kernel. */
  ghost predicate Gone(b: Build, files: Files, k: Kernel) {
    forall p | Removable(b, k, p) :: p !in files
  }

  /** One removal as a step of the collection. */
  method CollectOne(self: BootManager, removals: seq<Kernel>, i: nat, ghost c: Scene, ghost done: iset<Kernel>,
                    ghost ready: seq<Files>)
    returns (ok: bool, ghost v: Event)
    requires self.Valid() && c.env == self.Environment() && Distinct(removals) && i < |removals|
    requires Sound(c) ==> Collecting(c, Members(removals), done, ready, self.disk.history)
    modifies self.disk
    ensures self.Valid() && self.disk.faults >= old(self.disk.faults)
    ensures v == Event(Remove(removals[i]), ok, old(self.disk.history), self.disk.history) && Tells(c.env, v)
    ensures Sound(c) ==> Collecting(c, Members(removals), done, ready, self.disk.history)
    ensures Shrunk(old(self.disk.files), self.disk.files)
    ensures ok ==> SourcePath(removals[i]) !in self.disk.files
    ensures Sound(c) && self.sane && old(SourcesFrom(self.disk.files, removals, i)) &&
            self.disk.faults == old(self.disk.faults) ==>
              && ok && SourcesFrom(self.disk.files, removals, i + 1)
              && Gone(self.settings.build, self.disk.files, removals[i])
  {
    var k := removals[i];
    ghost var h0, f0, b := self.disk.history, self.disk.files, self.settings.build;
    ok := self.RemoveKernel(k);
    v := Event(Remove(k), ok, h0, self.disk.history);
    EvolvesLast(h0, self.disk.history, RemovablePaths(b, k));
    if Sound(c) {
      assert k in Members(removals);
      RemovalCollects(c, Members(removals), done, ready, h0, self.disk.history, k);
      SourceApart(b, k);
      if SourcesFrom(f0, removals, i) {
        SourcesSpared(c, removals, i, f0, self.disk.files);
      }
    }
  }

  lemma ClearedOne(b: Build, f: Files, g: Files, ks: seq<Kernel>, i: nat)
    requires i < |ks| && Shrunk(f, g)
    ensures ClearedUpto(b, f, ks, i) && Gone(b, g, ks[i]) ==> ClearedUpto(b, g, ks, i + 1)
    ensures GoneUpto(f, ks, i) && SourcePath(ks[i]) !in g ==> GoneUpto(g, ks, i + 1)
  {
  }

  /** One turn of the loop over the scheduled removals. */
  method CollectNext(self: BootManager, removals: seq<Kernel>, i: nat, ghost before: seq<Event>, ghost h0: seq<Files>,
                     ghost c: Scene, ghost done: iset<Kernel>, ghost ready: seq<Files>)
    returns (ok: bool, ghost trace: seq<Event>)
    requires self.Valid() && c.env == self.Environment() && Distinct(removals) && i < |removals|
    requires |before| == i && Succeeds(RemovalPlan(removals), before) && Leads(c.env, h0, before, self.disk.history)
    requires Sound(c) ==> Collecting(c, Members(removals), done, ready, self.disk.history)
    modifies self.disk
    ensures self.Valid() && self.disk.faults >= old(self.disk.faults)
    ensures |trace| == i + 1 && Leads(c.env, h0, trace, self.disk.history)
    ensures if ok then Succeeds(RemovalPlan(removals), trace)
            else IsRunOf(RemovalPlan(removals), trace) && !Completes(RemovalPlan(removals), trace)
    ensures Sound(c) ==> Collecting(c, Members(removals), done, ready, self.disk.history)
    ensures Shrunk(old(self.disk.files), self.disk.files)
    ensures ok && old(GoneUpto(self.disk.files, removals, i)) ==> GoneUpto(self.disk.files, removals, i + 1)
    ensures Sound(c) && self.sane && self.disk.faults == old(self.disk.faults) && old(StillCalm(self, removals, i)) ==>
              ok && StillCalm(self, removals, i + 1)
  {
    ghost var h1, f1 := self.disk.history, self.disk.files;
    ghost var v;
    ok, v := CollectOne(self, removals, i, c, done, ready);
    LeadsOne(c.env, v);
    LeadsThen(c.env, h0, before, h1, [v], self.disk.history);
    SucceedsOne(RemovalPlan(removals), before, v);
    ClearedOne(self.settings.build, f1, self.disk.files, removals, i);
    trace := before + [v];
  }

  /** What `i` removals without faults leave: the sources of the others, and no file of those removed. */
  ghost predicate StillCalm(self: BootManager, removals: seq<Kernel>, i: nat)
    requires i <= |removals|
    reads self, self.disk
  {
    SourcesFrom(self.disk.files, removals, i) && ClearedUpto(self.settings.build, self.disk.files, removals, i)
  }

  /** The loop over the scheduled removals. */
  method CollectKernels(self: BootManager, removals: seq<Kernel>, ghost c: Scene, ghost done: iset<Kernel>,
                        ghost ready: seq<Files>)
    returns (ok: bool, ghost trace: seq<Event>)
    requires self.Valid() && c.env == self.Environment() && Distinct(removals)
    requires Sound(c) ==> Collecting(c, Members(removals), done, ready, self.disk.history)
    modifies self.disk
    ensures self.Valid() && self.disk.faults >= old(self.disk.faults)
    ensures IsRunOf(RemovalPlan(removals), trace) && (ok <==> Completes(RemovalPlan(removals), trace))
    ensures Leads(c.env, old(self.disk.history), trace, self.disk.history)
    ensures Sound(c) ==> Collecting(c, Members(removals), done, ready, self.disk.history)
    ensures Shrunk(old(self.disk.files), self.disk.files)
    ensures ok ==> GoneUpto(self.disk.files, removals, |removals|)
    ensures Sound(c) && self.sane && old(SourcesFrom(self.disk.files, removals, 0)) &&
            self.disk.faults == old(self.disk.faults) ==>
              ok && ClearedUpto(self.settings.build, self.disk.files, removals, |removals|)
  {
    ghost var h0, f0 := self.disk.history, self.disk.files;
    ghost var calm := Sound(c) && self.sane && SourcesFrom(f0, removals, 0);
    trace := [];
    for i := 0 to |removals|
      invariant self.Valid() && self.disk.faults >= old(self.disk.faults)
      invariant |trace| == i && Succeeds(RemovalPlan(removals), trace) && Leads(c.env, h0, trace, self.disk.history)
      invariant Sound(c) ==> Collecting(c, Members(removals), done, ready, self.disk.history)
      invariant Shrunk(f0, self.disk.files) && GoneUpto(self.disk.files, removals, i)
      invariant calm && self.disk.faults == old(self.disk.faults) ==> StillCalm(self, removals, i)
    {
      ok, trace := CollectNext(self, removals, i, trace, h0, c, done, ready);
      if !ok {
        return;
      }
    }
    return true, trace;
  }
}
