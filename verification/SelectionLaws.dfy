/** What an update selects and how its runs go, said of kernels, links and events instead of lookups and plans. */
module SelectionLaws {
  import opened Text
  import opened Names
  import opened Kernels
  import opened Plans

  // ----- tips and last booted kernels -----

  /** A kernel of the type bears the name that the type's default link holds. */
  ghost predicate IsLinked(links: Links, ks: seq<Kernel>, t: string) {
    t in links && exists k :: k in ks && k.id.ktype == t && k.bpath == links[t]
  }

  /** The tip of a type is the kernel of the type that the default link names; if there is none, no kernel of the
      type has a higher release, booted or not. */
  lemma TipIs(links: Links, sys: Option<Ident>, sel: Selection, i: nat, k: Kernel)
    requires Selected(links, sys, sel) && i < |sel.types|
    requires k in sel.kernels && k.id.ktype == sel.types[i].ktype
    ensures var t, tip := sel.types[i].ktype, sel.types[i].tip;
            && tip in sel.kernels && tip.id.ktype == t
            && if IsLinked(links, sel.kernels, t) then tip.bpath == links[t] else k.release <= tip.release
  {
    var c := sel.types[i];
    ChosenMembers(links, sys, sel, i);
    if !IsLinked(links, sel.kernels, c.ktype) {
      var j :| 0 <= j < |c.kernels| && c.kernels[j] == k;
      assert c.kernels[0].release >= c.kernels[j].release;
    }
  }

  /** Every type that occurs has a tip, which is kept. */
  lemma TipOfType(links: Links, sys: Option<Ident>, sel: Selection, t: string) returns (tip: Kernel)
    requires Selected(links, sys, sel) && t in TypesOf(sel.kernels)
    ensures tip in sel.kernels && tip.id.ktype == t && IsKeeper(sel, tip) && tip !in Removals(sel)
    ensures if IsLinked(links, sel.kernels, t) then tip.bpath == links[t]
            else forall k | k in sel.kernels && k.id.ktype == t :: k.release <= tip.release
  {
    var j :| j in sel.kernels && j.id.ktype == t;
    var n :| 0 <= n < |sel.types| && sel.types[n].ktype == t;
    tip := sel.types[n].tip;
    TipIs(links, sys, sel, n, j);
    forall k | k in sel.kernels && k.id.ktype == t
      ensures IsLinked(links, sel.kernels, t) || k.release <= tip.release
    {
      TipIs(links, sys, sel, n, k);
    }
    assert IsKeeper(sel, tip);
    RemovalsExact(links, sys, sel);
  }

  /** The last booted kernel of a type is a booted one with no booted kernel of the type above it, and there is one
      as soon as a kernel of the type booted whose release is not below -1. */
  lemma LastGoodIs(links: Links, sys: Option<Ident>, sel: Selection, i: nat, k: Kernel)
    requires Selected(links, sys, sel) && i < |sel.types|
    requires k in sel.kernels && k.id.ktype == sel.types[i].ktype
    ensures var r := sel.types[i].lastGood;
            && (k.boots && k.release >= -1 ==> r.Some? && k.release <= r.value.release)
            && (r.Some? ==> r.value in sel.kernels && r.value.id.ktype == k.id.ktype && r.value.boots &&
                            r.value.release >= -1)
  {
    var c := sel.types[i];
    ChosenMembers(links, sys, sel, i);
    LastBootedIsHighest(c.kernels, |c.kernels|);
    var j :| 0 <= j < |c.kernels| && c.kernels[j] == k;
  }

  // ----- what is removed -----

  ghost predicate IsHighest(ks: seq<Kernel>, k: Kernel) {
    forall j | j in ks && j.id.ktype == k.id.ktype :: j.release <= k.release
  }

  ghost predicate IsHighestBooted(ks: seq<Kernel>, k: Kernel) {
    && k.boots && k.release >= -1
    && forall j | j in ks && j.id.ktype == k.id.ktype && j.boots :: j.release <= k.release
  }

  /** What its type is booted into: the linked kernel, or the highest release. */
  ghost predicate IsFront(links: Links, ks: seq<Kernel>, k: Kernel) {
    if IsLinked(links, ks, k.id.ktype) then k.bpath == links[k.id.ktype] else IsHighest(ks, k)
  }

  /** With distinct releases inside each type, a kernel is removed exactly when the running kernel is known, and it is
      not that one, is neither linked nor, without a link, the highest of its type, and is not the highest booted one
      of its type. */
  lemma RemovedIff(links: Links, sys: Option<Ident>, sel: Selection, k: Kernel)
    requires Selected(links, sys, sel) && DistinctReleases(sel.kernels) && k in sel.kernels
    ensures k in Removals(sel) <==>
            && sel.running.Some? && sel.running != Some(k)
            && !IsFront(links, sel.kernels, k) && !IsHighestBooted(sel.kernels, k)
  {
    RemovalsExact(links, sys, sel);
    var i :| 0 <= i < |sel.types| && sel.types[i].ktype == k.id.ktype;
    ChosenMembers(links, sys, sel, i);
    KeptByOwnType(links, sys, sel, i, k);
    FrontIsTip(links, sys, sel, i, k);
    HighestBootedIsLast(links, sys, sel, i, k);
  }

  lemma FrontIsTip(links: Links, sys: Option<Ident>, sel: Selection, i: nat, k: Kernel)
    requires Selected(links, sys, sel) && DistinctReleases(sel.kernels)
    requires i < |sel.types| && k in sel.kernels && k.id.ktype == sel.types[i].ktype
    ensures IsFront(links, sel.kernels, k) <==> k == sel.types[i].tip
  {
    var tip := sel.types[i].tip;
    TipIs(links, sys, sel, i, k);
    forall j | j in sel.kernels && j.id.ktype == k.id.ktype && !IsLinked(links, sel.kernels, k.id.ktype)
      ensures j.release <= tip.release
    {
      TipIs(links, sys, sel, i, j);
    }
  }

  lemma HighestBootedIsLast(links: Links, sys: Option<Ident>, sel: Selection, i: nat, k: Kernel)
    requires Selected(links, sys, sel) && DistinctReleases(sel.kernels)
    requires i < |sel.types| && k in sel.kernels && k.id.ktype == sel.types[i].ktype
    ensures IsHighestBooted(sel.kernels, k) <==> sel.types[i].lastGood == Some(k)
  {
    LastGoodIs(links, sys, sel, i, k);
    if sel.types[i].lastGood == Some(k) {
      forall j | j in sel.kernels && j.id.ktype == k.id.ktype && j.boots
        ensures j.release <= k.release
      {
        LastGoodIs(links, sys, sel, i, j);
      }
    }
  }

  // ----- the default -----

  /** `d` is the kernel, of whatever type, that bears the name the link of type `t` holds. */
  ghost predicate IsNamed(links: Links, ks: seq<Kernel>, t: string, d: Option<Kernel>) {
    if t in links && exists k :: k in ks && k.bpath == links[t]
    then d.Some? && d.value in ks && d.value.bpath == links[t]
    else d == None
  }

  /** The default is looked up for the type of the running kernel; if that is unknown, for the type the uname tells;
      without either there is none. */
  lemma NewDefaultIs(links: Links, sys: Option<Ident>, sel: Selection)
    requires Selected(links, sys, sel)
    ensures match sel.running
            case Some(k) => IsNamed(links, sel.kernels, k.id.ktype, sel.newDefault)
            case None =>
              if sys.Some? && sys.value.ktype != ""
              then IsNamed(links, sel.kernels, sys.value.ktype, sel.newDefault)
              else sel.newDefault == None
  {
    if sel.running.Some? {
      NamedIs(links, sel.kernels, sel.running.value.id.ktype);
    } else if sys.Some? {
      NamedIs(links, sel.kernels, sys.value.ktype);
    }
  }

  lemma NamedIs(links: Links, ks: seq<Kernel>, t: string)
    ensures IsNamed(links, ks, t, DefaultFor(links, ks, t))
  {
    if t in links && exists k :: k in ks && k.bpath == links[t] {
      var k :| k in ks && k.bpath == links[t];
      var j :| 0 <= j < |ks| && ks[j] == k;
      assert HasName(links[t])(ks[j]);
    }
  }

  // ----- runs -----

  /** Where the steps of a plan stand: the copy, the repair of the running kernel, the installations, the default. */
  lemma PlanBegins(sel: Selection)
    ensures Plan(sel)[0] == Planned(CopyFreestanding, true)
    ensures sel.running.Some? ==> |Plan(sel)| > 1 && Plan(sel)[1] == Planned(Install(sel.running.value), false)
    ensures forall j | 0 <= j < |Plan(sel)| && !Plan(sel)[j].fatal :: j == 1 && sel.running.Some?
  {
    var tail := InstallsUpto(sel.types, |sel.types|) + WriteDefault(sel.newDefault);
    InstallsFatal(sel.types, |sel.types|);
    assert forall p | p in tail :: p.fatal;
    var front := [Planned(CopyFreestanding, true)] + OptInstall(sel.running, false);
    var rest := tail + RemovalPlan(Removals(sel));
    assert Plan(sel) == front + rest;
    assert forall p | p in rest :: p.fatal;
    forall j | |front| <= j < |Plan(sel)|
      ensures Plan(sel)[j].fatal
    {
      assert Plan(sel)[j] == rest[j - |front|] && rest[j - |front|] in rest;
    }
  }

  lemma {:induction false} InstallsFatal(types: seq<Choice>, n: nat)
    requires n <= |types|
    ensures forall p | p in InstallsUpto(types, n) :: p.fatal
    ensures n > 0 ==> InstallsUpto(types, n) != []
  {
    if n > 0 {
      InstallsFatal(types, n - 1);
    }
  }

  /** A run starts with the copy. An event that fails is its last one, unless it is the repair of the running kernel,
      right behind the copy; and that one never is the last. */
  lemma FailureEnds(links: Links, sys: Option<Ident>, sel: Selection, trace: seq<Event>, i: nat)
    requires Selected(links, sys, sel) && IsRunOf(Plan(sel), trace) && i < |trace|
    ensures trace[0].step == CopyFreestanding
    ensures !trace[i].ok && i < |trace| - 1 ==>
              i == 1 && sel.running.Some? && trace[1].step == Install(sel.running.value)
    ensures sel.running.Some? && i == 1 ==> |trace| > 2
  {
    hide InstallsUpto, Removals, RunningOf, NewDefault, RemovalPlan;
    PlanBegins(sel);
    if sel.running.Some? && i == 1 {
      InstallsFatal(sel.types, |sel.types|);
      assert |sel.types| > 0 by {
        assert sel.kernels[0] in sel.kernels;
      }
      assert |Plan(sel)| > 2;
    }
  }

  /** What stands where in a plan: the first `n` steps are the copy and the repair, then come the installations, then
      the default. */
  lemma PlanParts(sel: Selection) returns (n: nat, m: nat)
    ensures n == 1 + |OptInstall(sel.running, false)| && m == n + |InstallsUpto(sel.types, |sel.types|)| <= |Plan(sel)|
    ensures forall j | 0 <= j < n :: Plan(sel)[j] == Planned(CopyFreestanding, true) ||
                                     (sel.running.Some? && Plan(sel)[j] == Planned(Install(sel.running.value), false))
    ensures forall j | n <= j < m :: Plan(sel)[j] == InstallsUpto(sel.types, |sel.types|)[j - n]
    ensures forall j | m <= j < |Plan(sel)| ::
              || Plan(sel)[j].step.Remove?
              || (sel.newDefault.Some? && Plan(sel)[j].step == SetDefault(sel.newDefault.value))
  {
    var front := [Planned(CopyFreestanding, true)] + OptInstall(sel.running, false);
    var installs := InstallsUpto(sel.types, |sel.types|);
    var rest := WriteDefault(sel.newDefault) + RemovalPlan(Removals(sel));
    n, m := |front|, |front| + |installs|;
    assert Plan(sel) == front + installs + rest;
  }

  /** Only kernels that are kept are installed; and the default, which is the selected one, is written when all
      tips and all last booted kernels have been. */
  lemma StepsAre(sel: Selection, trace: seq<Event>, i: nat)
    requires IsRunOf(Plan(sel), trace) && i < |trace|
    ensures trace[i].step.Install? ==> Kept(sel, trace[i].step.kernel)
    ensures trace[i].step.SetDefault? ==>
              && sel.newDefault == Some(trace[i].step.kernel)
              && forall k | IsKeeper(sel, k) :: Did(trace, i, Install(k))
  {
    hide Plan, InstallsUpto;
    var n, m := PlanParts(sel);
    var installs := InstallsUpto(sel.types, |sel.types|);
    OnlyKeepers(sel, |sel.types|);
    if n <= i < m {
      assert Plan(sel)[i] == installs[i - n] && installs[i - n] in installs;
    } else if m <= i {
      forall k | IsKeeper(sel, k)
        ensures Did(trace, i, Install(k))
      {
        InstalledBefore(sel, trace, i, k, n);
      }
    }
  }

  lemma InstalledBefore(sel: Selection, trace: seq<Event>, i: nat, k: Kernel, n: nat)
    requires IsRunOf(Plan(sel), trace) && i < |trace| && IsKeeper(sel, k)
    requires var installs := InstallsUpto(sel.types, |sel.types|);
             && n + |installs| <= i
             && forall j | n <= j < n + |installs| :: Plan(sel)[j] == installs[j - n]
    ensures Did(trace, i, Install(k))
  {
    var installs := InstallsUpto(sel.types, |sel.types|);
    InstallsCover(sel.types, |sel.types|);
    assert Planned(Install(k), true) in installs;
    var j :| 0 <= j < |installs| && installs[j] == Planned(Install(k), true);
    assert Plan(sel)[n + j] == installs[n + j - n];
    FatalStepsDone(Plan(sel), trace, i, Planned(Install(k), true), n + j);
  }

  lemma {:induction false} OnlyKeepers(sel: Selection, n: nat)
    requires n <= |sel.types|
    ensures forall p | p in InstallsUpto(sel.types, n) :: p.step.Install? && IsKeeper(sel, p.step.kernel)
  {
    if n > 0 {
      OnlyKeepers(sel, n - 1);
      var c := sel.types[n - 1];
      assert IsKeeper(sel, c.tip) && (c.lastGood.Some? ==> IsKeeper(sel, c.lastGood.value));
    }
  }
}
