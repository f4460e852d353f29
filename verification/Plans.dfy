/** The native update as a plan: what is selected, in which order it is acted on, and what every run that
    may stop at a failing step has in common. */
module Plans {
  import opened Text
  import opened Disks
  import opened Names
  import opened Kernels

  // ----- selection -----

  /** What is selected for one type; `kernels` are the type's kernels, sorted. */
  datatype Choice = Choice(ktype: string, kernels: seq<Kernel>, tip: Kernel, lastGood: Option<Kernel>)

  /** `types` is in the order in which the map of types is walked. */
  datatype Selection = Selection(
    kernels: seq<Kernel>,
    running: Option<Kernel>,
    types: seq<Choice>,
    newDefault: Option<Kernel>)

  /** The default written at the end of an update; it is looked up among all kernels. */
  function NewDefault(links: Links, sys: Option<Ident>, ks: seq<Kernel>, running: Option<Kernel>): Option<Kernel> {
    if running.Some? then DefaultFor(links, ks, running.value.id.ktype)
    else if sys.Some? && sys.value.ktype != "" then DefaultFor(links, ks, sys.value.ktype)
    else None
  }

  /** The default link's kernel, or the highest release. */
  function TipOf(links: Links, typed: seq<Kernel>, t: string): (k: Kernel)
    requires typed != []
    ensures k in typed
  {
    var d := DefaultFor(links, typed, t);
    if d.Some? then d.value else typed[0]
  }

  /** File names tell kernels apart. */
  ghost predicate UniqueNames(ks: seq<Kernel>) {
    forall j, k | j in ks && k in ks && j.bpath == k.bpath :: j == k
  }

  ghost predicate Chosen(links: Links, ks: seq<Kernel>, c: Choice) {
    && c.kernels != [] && Permutation(c.kernels, OfType(ks, c.ktype)) && Descending(c.kernels)
    && c.tip == TipOf(links, c.kernels, c.ktype)
    && c.lastGood == LastBooted(c.kernels)
  }

  /** Every type of the kernels is walked, once. */
  ghost predicate WalksTypes(types: seq<Choice>, ks: seq<Kernel>) {
    && (forall i, j | 0 <= i < j < |types| :: types[i].ktype != types[j].ktype)
    && (forall k | k in ks :: exists i :: 0 <= i < |types| && types[i].ktype == k.id.ktype)
  }

  /** What an update selects on a system with these kernels, whatever the hash map's order and however
      kernels of equal release are sorted. */
  ghost predicate Selected(links: Links, sys: Option<Ident>, sel: Selection) {
    && sel.kernels != [] && Distinct(sel.kernels) && UniqueNames(sel.kernels) && Descending(sel.kernels)
    && sel.running == RunningOf(sel.kernels, sys)
    && WalksTypes(sel.types, sel.kernels)
    && (forall i | 0 <= i < |sel.types| :: Chosen(links, sel.kernels, sel.types[i]))
    && sel.newDefault == NewDefault(links, sys, sel.kernels, sel.running)
  }

  /** Kept when its type is cleaned up: running, tip or last booted. */
  predicate Holds(running: Option<Kernel>, c: Choice, k: Kernel) {
    running == Some(k) || k == c.tip || c.lastGood == Some(k)
  }

  /** The kernels among the first `n` of a type that are scheduled for removal. */
  function DropsUpto(running: Option<Kernel>, c: Choice, n: nat): seq<Kernel>
    requires n <= |c.kernels|
  {
    if n == 0 then []
    else
      var before := DropsUpto(running, c, n - 1);
      if Holds(running, c, c.kernels[n - 1]) then before else before + [c.kernels[n - 1]]
  }

  function Drops(running: Option<Kernel>, c: Choice): seq<Kernel> {
    if running.None? then [] else DropsUpto(running, c, |c.kernels|)
  }

  /** The removals scheduled by the first `n` types. */
  function RemovalsUpto(running: Option<Kernel>, types: seq<Choice>, n: nat): seq<Kernel>
    requires n <= |types|
  {
    if n == 0 then [] else RemovalsUpto(running, types, n - 1) + Drops(running, types[n - 1])
  }

  function Removals(sel: Selection): seq<Kernel> {
    RemovalsUpto(sel.running, sel.types, |sel.types|)
  }

  /** The tip or the last booted kernel of some type. */
  ghost predicate IsKeeper(sel: Selection, k: Kernel) {
    exists i :: 0 <= i < |sel.types| && (sel.types[i].tip == k || sel.types[i].lastGood == Some(k))
  }

  ghost predicate Kept(sel: Selection, k: Kernel) {
    sel.running == Some(k) || IsKeeper(sel, k)
  }

  // ----- what is removed -----

  lemma ChosenMembers(links: Links, sys: Option<Ident>, sel: Selection, i: nat)
    requires Selected(links, sys, sel) && i < |sel.types|
    ensures Distinct(sel.types[i].kernels)
    ensures forall k :: k in sel.types[i].kernels <==> k in sel.kernels && k.id.ktype == sel.types[i].ktype
    ensures sel.types[i].tip in sel.types[i].kernels
    ensures sel.types[i].lastGood.Some? ==> sel.types[i].lastGood.value in sel.types[i].kernels
  {
    var c := sel.types[i];
    assert Chosen(links, sel.kernels, c);
    TypesPartition(sel.kernels);
    PermutationMembers(c.kernels, OfType(sel.kernels, c.ktype));
    PermutationDistinct(c.kernels, OfType(sel.kernels, c.ktype));
  }

  lemma {:induction false} DropsMembers(running: Option<Kernel>, c: Choice, n: nat)
    requires n <= |c.kernels|
    ensures forall k :: k in DropsUpto(running, c, n) <==> k in c.kernels[..n] && !Holds(running, c, k)
  {
    if n > 0 {
      DropsMembers(running, c, n - 1);
      assert c.kernels[..n] == c.kernels[..n - 1] + [c.kernels[n - 1]];
    }
  }

  lemma {:induction false} DropsDistinct(running: Option<Kernel>, c: Choice, n: nat)
    requires n <= |c.kernels| && Distinct(c.kernels)
    ensures Distinct(DropsUpto(running, c, n))
  {
    if n > 0 {
      DropsDistinct(running, c, n - 1);
      DropsMembers(running, c, n - 1);
      assert c.kernels[n - 1] !in c.kernels[..n - 1];
    }
  }

  /** A kernel is kept exactly when its own type keeps it. */
  lemma KeptByOwnType(links: Links, sys: Option<Ident>, sel: Selection, i: nat, k: Kernel)
    requires Selected(links, sys, sel) && i < |sel.types| && k in sel.types[i].kernels
    ensures Kept(sel, k) <==> Holds(sel.running, sel.types[i], k)
  {
    var t := sel.types[i].ktype;
    assert k.id.ktype == t by { ChosenMembers(links, sys, sel, i); }
    assert forall j | 0 <= j < |sel.types| && sel.types[j].ktype == t :: j == i;
    forall j | 0 <= j < |sel.types| && (sel.types[j].tip == k || sel.types[j].lastGood == Some(k))
      ensures j == i
    {
      KeptForType(links, sys, sel, j, k);
    }
  }

  lemma KeptForType(links: Links, sys: Option<Ident>, sel: Selection, j: nat, k: Kernel)
    requires Selected(links, sys, sel) && j < |sel.types|
    requires sel.types[j].tip == k || sel.types[j].lastGood == Some(k)
    ensures k.id.ktype == sel.types[j].ktype
  {
    ChosenMembers(links, sys, sel, j);
  }

  lemma DropsExact(links: Links, sys: Option<Ident>, sel: Selection, i: nat)
    requires Selected(links, sys, sel) && sel.running.Some? && i < |sel.types|
    ensures Distinct(Drops(sel.running, sel.types[i]))
    ensures forall k :: k in Drops(sel.running, sel.types[i]) <==>
              k in sel.kernels && k.id.ktype == sel.types[i].ktype && !Kept(sel, k)
  {
    var c := sel.types[i];
    ChosenMembers(links, sys, sel, i);
    DropsMembers(sel.running, c, |c.kernels|);
    DropsDistinct(sel.running, c, |c.kernels|);
    assert c.kernels[..|c.kernels|] == c.kernels;
    forall k | k in c.kernels
      ensures Kept(sel, k) <==> Holds(sel.running, c, k)
    {
      KeptByOwnType(links, sys, sel, i, k);
    }
  }

  lemma DistinctConcat(p: seq<Kernel>, q: seq<Kernel>)
    requires Distinct(p) && Distinct(q) && forall k | k in p :: k !in q
    ensures Distinct(p + q)
  {
    var r := p + q;
    forall i, j | 0 <= i < j < |r|
      ensures r[i] != r[j]
    {
      if i < |p| <= j {
        assert r[i] in p && r[j] in q;
      }
    }
  }

  lemma {:induction false} RemovalsIn(running: Option<Kernel>, types: seq<Choice>, n: nat)
    requires n <= |types|
    ensures forall k :: k in RemovalsUpto(running, types, n) <==>
            exists i :: 0 <= i < n && k in Drops(running, types[i])
  {
    if n > 0 {
      RemovalsIn(running, types, n - 1);
    }
  }

  /** The types of the first `n` choices. */
  function TypeNames(types: seq<Choice>, n: nat): set<string>
    requires n <= |types|
  {
    if n == 0 then {} else TypeNames(types, n - 1) + {types[n - 1].ktype}
  }

  lemma {:induction false} TypeNamesAre(types: seq<Choice>, n: nat)
    requires n <= |types|
    ensures forall t :: t in TypeNames(types, n) <==> exists i :: 0 <= i < n && types[i].ktype == t
  {
    if n > 0 {
      TypeNamesAre(types, n - 1);
    }
  }

  /** Each type drops, without duplicates, kernels of its own. */
  ghost predicate DropsOwn(running: Option<Kernel>, c: Choice) {
    Distinct(Drops(running, c)) && forall k | k in Drops(running, c) :: k.id.ktype == c.ktype
  }

  lemma {:induction false} RemovalsTyped(running: Option<Kernel>, types: seq<Choice>, n: nat)
    requires n <= |types|
    requires forall i | 0 <= i < |types| :: DropsOwn(running, types[i])
    ensures forall k | k in RemovalsUpto(running, types, n) :: k.id.ktype in TypeNames(types, n)
  {
    if n > 0 {
      RemovalsTyped(running, types, n - 1);
      assert DropsOwn(running, types[n - 1]);
    }
  }

  lemma {:induction false} RemovalsDistinct(running: Option<Kernel>, types: seq<Choice>, n: nat)
    requires n <= |types|
    requires forall i | 0 <= i < |types| :: DropsOwn(running, types[i])
    requires forall i, j | 0 <= i < j < |types| :: types[i].ktype != types[j].ktype
    ensures Distinct(RemovalsUpto(running, types, n))
  {
    hide Drops;
    if n > 0 {
      RemovalsDistinct(running, types, n - 1);
      RemovalsTyped(running, types, n - 1);
      TypeNamesAre(types, n - 1);
      DropsBehind(running, RemovalsUpto(running, types, n - 1), TypeNames(types, n - 1), types[n - 1]);
    }
  }

  lemma DropsBehind(running: Option<Kernel>, before: seq<Kernel>, names: set<string>, c: Choice)
    requires Distinct(before) && forall k | k in before :: k.id.ktype in names
    requires c.ktype !in names && DropsOwn(running, c)
    ensures Distinct(before + Drops(running, c))
  {
    DistinctConcat(before, Drops(running, c));
  }

  lemma {:induction false} NoRemovals(types: seq<Choice>, n: nat)
    requires n <= |types|
    ensures RemovalsUpto(None, types, n) == []
  {
    if n > 0 {
      NoRemovals(types, n - 1);
    }
  }

  lemma AllDropsExact(links: Links, sys: Option<Ident>, sel: Selection)
    requires Selected(links, sys, sel) && sel.running.Some?
    ensures forall i | 0 <= i < |sel.types| :: DropsOwn(sel.running, sel.types[i])
    ensures forall k :: (exists i :: 0 <= i < |sel.types| && k in Drops(sel.running, sel.types[i])) <==>
              k in sel.kernels && !Kept(sel, k)
  {
    forall i | 0 <= i < |sel.types|
      ensures DropsOwn(sel.running, sel.types[i])
      ensures forall k :: k in Drops(sel.running, sel.types[i]) <==>
                k in sel.kernels && k.id.ktype == sel.types[i].ktype && !Kept(sel, k)
    {
      DropsExact(links, sys, sel, i);
    }
  }

  /** For any walk over the types, the removals are, each once, all kernels but the running one, the
      tips and the last booted ones; and none at all when the running kernel is unknown. */
  lemma RemovalsExact(links: Links, sys: Option<Ident>, sel: Selection)
    requires Selected(links, sys, sel)
    ensures Distinct(Removals(sel))
    ensures forall k :: k in Removals(sel) <==> sel.running.Some? && k in sel.kernels && !Kept(sel, k)
  {
    if sel.running.Some? {
      AllDropsExact(links, sys, sel);
      RemovalsIn(sel.running, sel.types, |sel.types|);
      RemovalsDistinct(sel.running, sel.types, |sel.types|);
    } else {
      NoRemovals(sel.types, |sel.types|);
    }
  }

  function OptSet(k: Option<Kernel>): set<Kernel> {
    if k.Some? then {k.value} else {}
  }

  /** The tips and last booted kernels of the first `n` types. */
  function HeldUpto(types: seq<Choice>, n: nat): set<Kernel>
    requires n <= |types|
  {
    if n == 0 then {} else HeldUpto(types, n - 1) + ({types[n - 1].tip} + OptSet(types[n - 1].lastGood))
  }

  lemma {:induction false} HeldFew(types: seq<Choice>, n: nat)
    requires n <= |types|
    ensures |HeldUpto(types, n)| <= 2 * n
    ensures forall i | 0 <= i < n :: types[i].tip in HeldUpto(types, n)
    ensures forall i | 0 <= i < n && types[i].lastGood.Some? :: types[i].lastGood.value in HeldUpto(types, n)
  {
    if n > 0 {
      HeldFew(types, n - 1);
      var a, b, c := HeldUpto(types, n - 1), {types[n - 1].tip}, OptSet(types[n - 1].lastGood);
      assert |b + c| <= |b| + |c|;
      assert |a + (b + c)| <= |a| + |b + c|;
    }
  }

  /** At most two kernels a type are kept, and the running one. */
  lemma KeptFew(sel: Selection, kept: set<Kernel>)
    requires forall k | k in kept :: Kept(sel, k)
    ensures |kept| <= 2 * |sel.types| + 1
  {
    HeldFew(sel.types, |sel.types|);
    var held, run := HeldUpto(sel.types, |sel.types|), OptSet(sel.running);
    assert |held + run| <= |held| + |run|;
    forall k | k in kept
      ensures k in held + run
    {
      if IsKeeper(sel, k) {
        var i :| 0 <= i < |sel.types| && (sel.types[i].tip == k || sel.types[i].lastGood == Some(k));
      }
    }
    SubsetSize(kept, held + run);
  }

  lemma {:induction false} SubsetSize<T>(a: set<T>, b: set<T>)
    requires a <= b
    ensures |a| <= |b|
  {
    if a != {} {
      var x :| x in a;
      SubsetSize(a - {x}, b - {x});
    }
  }

  // ----- the default -----

  /** The type whose default link is followed for the new default. */
  function DefaultType(sys: Option<Ident>, running: Option<Kernel>): string {
    if running.Some? then running.value.id.ktype else if sys.Some? then sys.value.ktype else ""
  }

  /** The default that is written is the tip of the type it was looked up for exactly when the link
      names a kernel of that type. */
  lemma DefaultIsTip(links: Links, sys: Option<Ident>, sel: Selection, i: nat)
    requires Selected(links, sys, sel) && sel.newDefault.Some?
    requires i < |sel.types| && sel.types[i].ktype == DefaultType(sys, sel.running)
    ensures sel.newDefault.value.id.ktype == DefaultType(sys, sel.running) <==> sel.newDefault.value == sel.types[i].tip
  {
    var t, d := DefaultType(sys, sel.running), sel.newDefault.value;
    ChosenMembers(links, sys, sel, i);
    if d.id.ktype == t {
      FirstIsUnique(sel.types[i].kernels, HasName(links[t]), d);
    }
  }

  /** The default that is written is never removed by the same run when the link stays within its type;
      otherwise it is removed exactly when the kernel's own type does not keep it. */
  lemma DefaultSurvives(links: Links, sys: Option<Ident>, sel: Selection)
    requires Selected(links, sys, sel) && sel.newDefault.Some?
    ensures sel.newDefault.value.id.ktype == DefaultType(sys, sel.running) ==> sel.newDefault.value !in Removals(sel)
    ensures sel.newDefault.value in Removals(sel) <==> sel.running.Some? && !Kept(sel, sel.newDefault.value)
  {
    RemovalsExact(links, sys, sel);
    var d := sel.newDefault.value;
    if d.id.ktype == DefaultType(sys, sel.running) {
      var i :| 0 <= i < |sel.types| && sel.types[i].ktype == d.id.ktype;
      DefaultIsTip(links, sys, sel, i);
    }
  }

  lemma ExampleTypes(tip: Kernel, linked: Kernel, other: Kernel)
    requires tip.id.ktype == linked.id.ktype != other.id.ktype
    ensures OfType([tip, linked, other], tip.id.ktype) == [tip, linked]
    ensures OfType([tip, linked, other], other.id.ktype) == [other]
  {
    var ks, t, u := [tip, linked, other], tip.id.ktype, other.id.ktype;
    assert OfTypeUpto(ks, t, 1) == [tip] && OfTypeUpto(ks, u, 1) == [];
    assert OfTypeUpto(ks, t, 2) == [tip, linked] && OfTypeUpto(ks, u, 2) == [];
  }

  /** Of two kernels of one type the older one, never booted, is what the default link of another type
      names, and a kernel of that other type is running. */
  ghost predicate CrossLinked(tip: Kernel, linked: Kernel, running: Kernel) {
    && tip.id.ktype == linked.id.ktype != running.id.ktype
    && tip.bpath != linked.bpath && linked.bpath != running.bpath && tip.bpath != running.bpath
    && tip.release >= linked.release >= running.release
    && !tip.boots && !linked.boots && !running.boots
  }

  function CrossSelection(tip: Kernel, linked: Kernel, running: Kernel): Selection {
    Selection([tip, linked, running], Some(running),
              [Choice(tip.id.ktype, [tip, linked], tip, None), Choice(running.id.ktype, [running], running, None)],
              Some(linked))
  }

  /** Without that condition the property fails: the older kernel becomes the default, and is removed. */
  lemma CrossTypeDefaultIsRemoved(tip: Kernel, linked: Kernel, running: Kernel)
    returns (links: Links, sys: Option<Ident>, sel: Selection)
    requires CrossLinked(tip, linked, running)
    ensures Selected(links, sys, sel) && sel.newDefault == Some(linked) && linked in Removals(sel)
  {
    links, sys := map[running.id.ktype := linked.bpath], Some(MetaIdent(running));
    sel := CrossSelection(tip, linked, running);
    CrossRemovals(tip, linked, running);
    CrossLookups(links, tip, linked, running);
    CrossSorted(tip, linked, running);
    ExampleChosen(links, tip, linked, running);
    TwoTypesSelected(links, sys, sel);
  }

  lemma CrossSorted(tip: Kernel, linked: Kernel, running: Kernel)
    requires CrossLinked(tip, linked, running)
    ensures var ks := [tip, linked, running]; Distinct(ks) && UniqueNames(ks) && Descending(ks)
  {
  }

  /** A selection with two types. */
  lemma TwoTypesSelected(links: Links, sys: Option<Ident>, sel: Selection)
    requires sel.kernels != [] && Distinct(sel.kernels) && UniqueNames(sel.kernels) && Descending(sel.kernels)
    requires |sel.types| == 2 && sel.types[0].ktype != sel.types[1].ktype
    requires forall k | k in sel.kernels :: k.id.ktype == sel.types[0].ktype || k.id.ktype == sel.types[1].ktype
    requires Chosen(links, sel.kernels, sel.types[0]) && Chosen(links, sel.kernels, sel.types[1])
    requires sel.running == RunningOf(sel.kernels, sys)
    requires sel.newDefault == NewDefault(links, sys, sel.kernels, sel.running)
    ensures Selected(links, sys, sel)
  {
    WalksTwo(sel.types, sel.kernels);
  }

  lemma WalksTwo(types: seq<Choice>, ks: seq<Kernel>)
    requires |types| == 2 && types[0].ktype != types[1].ktype
    requires forall k | k in ks :: k.id.ktype == types[0].ktype || k.id.ktype == types[1].ktype
    ensures WalksTypes(types, ks)
  {
  }

  lemma CrossRemovals(tip: Kernel, linked: Kernel, running: Kernel)
    requires CrossLinked(tip, linked, running)
    ensures linked in Removals(CrossSelection(tip, linked, running))
  {
    var sel := CrossSelection(tip, linked, running);
    assert DropsUpto(sel.running, sel.types[0], 1) == [];
    assert Drops(sel.running, sel.types[0]) == [linked];
    assert RemovalsUpto(sel.running, sel.types, 1) == [linked];
  }

  lemma CrossLookups(links: Links, tip: Kernel, linked: Kernel, running: Kernel)
    requires CrossLinked(tip, linked, running) && links == map[running.id.ktype := linked.bpath]
    ensures RunningOf([tip, linked, running], Some(MetaIdent(running))) == Some(running)
    ensures DefaultFor(links, [tip, linked, running], running.id.ktype) == Some(linked)
  {
    var ks := [tip, linked, running];
    FirstIsUnique(ks, IsSystemKernel(MetaIdent(running)), running);
    FirstIsUnique(ks, HasName(linked.bpath), linked);
  }

  lemma ExampleChosen(links: Links, tip: Kernel, linked: Kernel, running: Kernel)
    requires tip.id.ktype == linked.id.ktype != running.id.ktype
    requires linked.bpath != running.bpath && links == map[running.id.ktype := linked.bpath]
    requires tip.release >= linked.release && !tip.boots && !linked.boots && !running.boots
    ensures Chosen(links, [tip, linked, running], Choice(tip.id.ktype, [tip, linked], tip, None))
    ensures Chosen(links, [tip, linked, running], Choice(running.id.ktype, [running], running, None))
  {
    ExampleTypes(tip, linked, running);
    NoneFirst([running], HasName(linked.bpath));
    assert LastBootedUpto([tip, linked], 1) == None && LastBootedUpto([running], 1) == None;
  }

  // ----- plans and runs -----

  datatype Step =
    | CopyFreestanding
    | Install(kernel: Kernel)
    | SetDefault(kernel: Kernel)
    | Remove(kernel: Kernel)

  /** A step and whether its failure ends the run. */
  datatype Planned = Planned(step: Step, fatal: bool)

  /** A step that was taken, its outcome, and the disk's history before and after it. */
  datatype Event = Event(step: Step, ok: bool, before: seq<Files>, after: seq<Files>)

  /** The trace follows the plan step by step; only a failing fatal step ends it early. */
  ghost predicate IsRunOf(plan: seq<Planned>, trace: seq<Event>) {
    && |trace| <= |plan|
    && (forall i | 0 <= i < |trace| :: trace[i].step == plan[i].step)
    && (forall i | 0 <= i < |trace| - 1 :: plan[i].fatal ==> trace[i].ok)
    && (|trace| < |plan| ==> trace != [] && plan[|trace| - 1].fatal && !trace[|trace| - 1].ok)
  }

  ghost predicate Completes(plan: seq<Planned>, trace: seq<Event>) {
    |trace| == |plan| && forall i | 0 <= i < |trace| :: plan[i].fatal ==> trace[i].ok
  }

  lemma RunThen(p: seq<Planned>, t: seq<Event>, q: seq<Planned>, u: seq<Event>)
    requires IsRunOf(p, t) && Completes(p, t) && IsRunOf(q, u)
    ensures IsRunOf(p + q, t + u)
    ensures Completes(p + q, t + u) <==> Completes(q, u)
  {
    var n, plan, trace := |t|, p + q, t + u;
    forall i | 0 <= i < |trace|
      ensures plan[i] == if i < n then p[i] else q[i - n]
      ensures trace[i] == if i < n then t[i] else u[i - n]
    {
    }
    FollowsThen(p, t, q, u, plan, trace);
  }

  lemma FollowsThen(p: seq<Planned>, t: seq<Event>, q: seq<Planned>, u: seq<Event>, plan: seq<Planned>,
                    trace: seq<Event>)
    requires IsRunOf(p, t) && Completes(p, t) && IsRunOf(q, u)
    requires |plan| == |p| + |q| && |trace| == |t| + |u|
    requires forall i | 0 <= i < |trace| :: plan[i] == (if i < |t| then p[i] else q[i - |t|])
    requires forall i | 0 <= i < |trace| :: trace[i] == (if i < |t| then t[i] else u[i - |t|])
    ensures IsRunOf(plan, trace)
    ensures Completes(plan, trace) <==> Completes(q, u)
  {
    if Completes(plan, trace) {
      forall i | 0 <= i < |u|
        ensures q[i].fatal ==> u[i].ok
      {
        assert plan[|t| + i] == q[i] && trace[|t| + i] == u[i];
      }
    }
  }

  lemma RunStops(p: seq<Planned>, t: seq<Event>, q: seq<Planned>)
    requires IsRunOf(p, t) && !Completes(p, t)
    ensures IsRunOf(p + q, t) && !Completes(p + q, t)
  {
    var plan := p + q;
    assert forall i | 0 <= i < |t| :: plan[i] == p[i];
    var i := |t| - 1;
    assert p[i].fatal && !t[i].ok;
  }

  /** A second part follows only the completed first. */
  lemma PartThen(p: seq<Planned>, t: seq<Event>, q: seq<Planned>, u: seq<Event>)
    requires IsRunOf(p, t) && if Completes(p, t) then IsRunOf(q, u) else u == []
    ensures IsRunOf(p + q, t + u) && (Completes(p + q, t + u) <==> Completes(p, t) && Completes(q, u))
  {
    if Completes(p, t) {
      RunThen(p, t, q, u);
    } else {
      RunStops(p, t, q);
      assert t + u == t;
    }
  }

  /** The events of the first steps of a plan, all of them successful. */
  ghost predicate Succeeds(plan: seq<Planned>, trace: seq<Event>) {
    |trace| <= |plan| && forall j | 0 <= j < |trace| :: trace[j].step == plan[j].step && trace[j].ok
  }

  lemma SucceedsOne(plan: seq<Planned>, trace: seq<Event>, v: Event)
    requires Succeeds(plan, trace) && |trace| < |plan| && plan[|trace|] == Planned(v.step, true)
    ensures v.ok ==> Succeeds(plan, trace + [v])
    ensures !v.ok ==> IsRunOf(plan, trace + [v]) && !Completes(plan, trace + [v])
  {
    var t := trace + [v];
    assert t[|trace|] == v;
  }

  function OptInstall(k: Option<Kernel>, fatal: bool): seq<Planned> {
    if k.Some? then [Planned(Install(k.value), fatal)] else []
  }

  function TypeInstalls(c: Choice): seq<Planned> {
    [Planned(Install(c.tip), true)] + OptInstall(c.lastGood, true)
  }

  function InstallsUpto(types: seq<Choice>, n: nat): seq<Planned>
    requires n <= |types|
  {
    if n == 0 then [] else InstallsUpto(types, n - 1) + TypeInstalls(types[n - 1])
  }

  function WriteDefault(newDefault: Option<Kernel>): seq<Planned> {
    if newDefault.Some? then [Planned(SetDefault(newDefault.value), true)] else []
  }

  function RemovalPlan(ks: seq<Kernel>): seq<Planned> {
    seq(|ks|, i requires 0 <= i < |ks| => Planned(Remove(ks[i]), true))
  }

  /** Everything that happens before the first removal. */
  function Preparation(sel: Selection): seq<Planned> {
    [Planned(CopyFreestanding, true)] + Installation(sel)
  }

  function Plan(sel: Selection): seq<Planned> {
    Preparation(sel) + RemovalPlan(Removals(sel))
  }

  // ----- walking the types -----

  lemma {:induction false} PrefixSame(running: Option<Kernel>, types: seq<Choice>, all: seq<Choice>, n: nat)
    requires n <= |types| <= |all| && forall i | 0 <= i < n :: types[i] == all[i]
    ensures InstallsUpto(types, n) == InstallsUpto(all, n)
    ensures RemovalsUpto(running, types, n) == RemovalsUpto(running, all, n)
  {
    if n > 0 {
      PrefixSame(running, types, all, n - 1);
    }
  }

  lemma {:induction false} OneMoreType(running: Option<Kernel>, types: seq<Choice>, c: Choice)
    ensures InstallsUpto(types + [c], |types| + 1) == InstallsUpto(types, |types|) + TypeInstalls(c)
    ensures RemovalsUpto(running, types + [c], |types| + 1) == RemovalsUpto(running, types, |types|) + Drops(running, c)
  {
    PrefixSame(running, types, types + [c], |types|);
  }

  lemma {:induction false} InstallsSplit(types: seq<Choice>, n: nat, m: nat) returns (rest: seq<Planned>)
    requires n <= m <= |types|
    ensures InstallsUpto(types, m) == InstallsUpto(types, n) + rest
  {
    if n == m {
      rest := [];
    } else {
      var before := InstallsSplit(types, n, m - 1);
      rest := before + TypeInstalls(types[m - 1]);
    }
  }

  lemma HighestFirst(k: Kernel, tail: seq<Kernel>)
    requires Descending(tail) && forall j | j in tail :: j.release <= k.release
    ensures Descending([k] + tail)
  {
  }

  lemma SortedExists(ks: seq<Kernel>) returns (sorted: seq<Kernel>)
    ensures Permutation(sorted, ks) && Descending(sorted)
  {
    if ks == [] {
      sorted := [];
    } else {
      var i := HighestExists(ks);
      var rest := ks[..i] + ks[i + 1..];
      assert forall k | k in rest :: k.release <= ks[i].release;
      TakeOut(ks, i);
      var tail := SortedExists(rest);
      PermutationMembers(tail, rest);
      HighestFirst(ks[i], tail);
      sorted := [ks[i]] + tail;
    }
  }

  /** The choices made for these types, in this order. */
  ghost predicate ChosenFor(links: Links, ks: seq<Kernel>, names: seq<string>, types: seq<Choice>) {
    |types| <= |names| && forall i | 0 <= i < |types| :: types[i].ktype == names[i] && Chosen(links, ks, types[i])
  }

  /** A run that stops early could have gone on choosing. */
  lemma CompleteTypes(links: Links, ks: seq<Kernel>, names: seq<string>, types: seq<Choice>) returns (all: seq<Choice>)
    requires ChosenFor(links, ks, names, types) && forall t | t in names :: OfType(ks, t) != []
    ensures |types| <= |all| == |names| && ChosenFor(links, ks, names, all)
    ensures forall i | 0 <= i < |types| :: all[i] == types[i]
    decreases |names| - |types|
  {
    if |types| == |names| {
      all := types;
    } else {
      var t := names[|types|];
      var sorted := SortedExists(OfType(ks, t));
      PermutationMembers(sorted, OfType(ks, t));
      var c := Choice(t, sorted, TipOf(links, sorted, t), LastBooted(sorted));
      all := CompleteTypes(links, ks, names, types + [c]);
      assert forall i | 0 <= i < |types| :: (types + [c])[i] == types[i];
    }
  }

  /** Walking the types in any order completes a selection. */
  lemma WalkSelects(links: Links, sys: Option<Ident>, ks: seq<Kernel>, names: seq<string>, types: seq<Choice>)
    returns (sel: Selection)
    requires ks != [] && Distinct(ks) && UniqueNames(ks) && Descending(ks)
    requires Lists(names, TypesOf(ks)) && |types| == |names| && ChosenFor(links, ks, names, types)
    ensures sel == Selection(ks, RunningOf(ks, sys), types, NewDefault(links, sys, ks, RunningOf(ks, sys)))
    ensures Selected(links, sys, sel)
  {
    var running := RunningOf(ks, sys);
    sel := Selection(ks, running, types, NewDefault(links, sys, ks, running));
    forall k | k in ks
      ensures exists i :: 0 <= i < |types| && types[i].ktype == k.id.ktype
    {
      assert k.id.ktype in TypesOf(ks) && k.id.ktype in names;
    }
  }

  /** What follows the copy of the freestanding initrds, up to the first removal. */
  function Installation(sel: Selection): seq<Planned> {
    OptInstall(sel.running, false) + (InstallsUpto(sel.types, |sel.types|) + WriteDefault(sel.newDefault))
  }

  lemma CopyStops(sel: Selection, copy: Event)
    requires copy.step == CopyFreestanding && !copy.ok
    ensures IsRunOf(Plan(sel), [copy]) && !Completes(Plan(sel), [copy])
  {
    assert Plan(sel)[0] == Planned(CopyFreestanding, true) && [copy][0] == copy;
  }

  /** The copy of the freestanding initrds, the installation and, after it, the removals make up a run. */
  lemma PartsRun(sel: Selection, copy: Event, installs: seq<Event>, removes: seq<Event>) returns (trace: seq<Event>)
    requires copy.step == CopyFreestanding && copy.ok
    requires IsRunOf(Installation(sel), installs)
    requires if Completes(Installation(sel), installs) then
               IsRunOf(RemovalPlan(Removals(sel)), removes)
             else
               removes == []
    ensures trace == [copy] + (installs + removes)
    ensures IsRunOf(Plan(sel), trace)
    ensures Completes(Plan(sel), trace) <==>
            Completes(Installation(sel), installs) && Completes(RemovalPlan(Removals(sel)), removes)
  {
    var first, p, q := [Planned(CopyFreestanding, true)], Installation(sel), RemovalPlan(Removals(sel));
    trace := [copy] + (installs + removes);
    PartThen(p, installs, q, removes);
    RunThen(first, [copy], p + q, installs + removes);
    assert Plan(sel) == first + (p + q);
  }

  // ----- safety of every run -----

  lemma {:induction false} InstallsCover(types: seq<Choice>, n: nat)
    requires n <= |types|
    ensures forall p | p in InstallsUpto(types, n) :: p.step.Install?
    ensures forall i | 0 <= i < n :: Planned(Install(types[i].tip), true) in InstallsUpto(types, n)
    ensures forall i | 0 <= i < n && types[i].lastGood.Some? ::
              Planned(Install(types[i].lastGood.value), true) in InstallsUpto(types, n)
  {
    if n > 0 {
      InstallsCover(types, n - 1);
      var c := types[n - 1];
      assert TypeInstalls(c)[0] == Planned(Install(c.tip), true);
      assert c.lastGood.Some? ==> TypeInstalls(c)[1] == Planned(Install(c.lastGood.value), true);
    }
  }

  /** Nothing is removed before every tip and every last booted kernel is installed and the default is
      written. */
  lemma PreparationCovers(sel: Selection)
    ensures forall p | p in Preparation(sel) :: !p.step.Remove?
    ensures forall k | IsKeeper(sel, k) :: Planned(Install(k), true) in Preparation(sel)
    ensures sel.newDefault.Some? ==> Planned(SetDefault(sel.newDefault.value), true) in Preparation(sel)
  {
    var installs := InstallsUpto(sel.types, |sel.types|);
    InstallsCover(sel.types, |sel.types|);
    var tail := installs + WriteDefault(sel.newDefault);
    var rest := OptInstall(sel.running, false) + tail;
    assert forall p | p in tail :: p in rest;
    assert forall p | p in installs :: p in tail;
    assert sel.newDefault.Some? ==> WriteDefault(sel.newDefault)[0] in tail;
    assert forall p | p in rest :: p in Preparation(sel);
  }

  /** One of the first `n` events was this step, and it succeeded. */
  ghost predicate Did(trace: seq<Event>, n: nat, step: Step) {
    exists j :: 0 <= j < n && j < |trace| && trace[j].step == step && trace[j].ok
  }

  /** A run that got past a part of its plan did every fatal step of that part. */
  lemma FatalStepsDone(plan: seq<Planned>, trace: seq<Event>, i: nat, p: Planned, j: nat)
    requires IsRunOf(plan, trace) && j < i < |trace| && plan[j] == p && p.fatal
    ensures Did(trace, i, p.step)
  {
    assert trace[j].step == p.step && trace[j].ok;
  }

  /** Where a removal stands in the plan. */
  lemma RemovalPlace(sel: Selection, trace: seq<Event>, i: nat)
    requires IsRunOf(Plan(sel), trace) && i < |trace| && trace[i].step.Remove?
    ensures i >= |Preparation(sel)| && i - |Preparation(sel)| < |Removals(sel)|
    ensures trace[i].step.kernel == Removals(sel)[i - |Preparation(sel)|]
  {
    var before, plan, rs := Preparation(sel), Plan(sel), Removals(sel);
    PreparationCovers(sel);
    assert forall j | 0 <= j < |before| :: plan[j] == before[j] && before[j] in before;
  }

  lemma PreparationDone(sel: Selection, trace: seq<Event>, i: nat)
    requires IsRunOf(Plan(sel), trace) && |Preparation(sel)| <= i < |trace|
    ensures forall k | IsKeeper(sel, k) :: Did(trace, i, Install(k))
    ensures sel.newDefault.Some? ==> Did(trace, i, SetDefault(sel.newDefault.value))
  {
    var before, plan := Preparation(sel), Plan(sel);
    PreparationCovers(sel);
    forall p | p in before && p.fatal
      ensures Did(trace, i, p.step)
    {
      var j :| 0 <= j < |before| && before[j] == p;
      FatalStepsDone(plan, trace, i, p, j);
    }
    forall k | IsKeeper(sel, k)
      ensures Did(trace, i, Install(k))
    {
      assert Planned(Install(k), true) in before && Planned(Install(k), true).fatal;
    }
  }

  /** Whatever steps fail: a removal in a run names none of the running kernel, the tips and the last
      booted kernels, nor a kernel removed before; and before it every tip and every last booted kernel
      has been installed and the default, if any, has been written. Without a known running kernel
      there is no removal. */
  lemma RemovalsAreSafe(links: Links, sys: Option<Ident>, sel: Selection, trace: seq<Event>, i: nat)
    requires Selected(links, sys, sel) && IsRunOf(Plan(sel), trace)
    requires i < |trace| && trace[i].step.Remove?
    ensures sel.running.Some? && trace[i].step.kernel in sel.kernels && !Kept(sel, trace[i].step.kernel)
    ensures forall k | IsKeeper(sel, k) :: Did(trace, i, Install(k))
    ensures sel.newDefault.Some? ==> Did(trace, i, SetDefault(sel.newDefault.value))
    ensures forall j | 0 <= j < i && trace[j].step.Remove? :: trace[j].step != trace[i].step
  {
    RemovalsExact(links, sys, sel);
    RemovalPlace(sel, trace, i);
    PreparationDone(sel, trace, i);
    forall j | 0 <= j < i && trace[j].step.Remove?
      ensures trace[j].step != trace[i].step
    {
      RemovalPlace(sel, trace, j);
    }
  }

  // ----- collection reaches a fixed point -----

  /** Releases tell the kernels of a type apart. */
  ghost predicate DistinctReleases(ks: seq<Kernel>) {
    forall j, k | j in ks && k in ks && j.id.ktype == k.id.ktype && j.release == k.release :: j == k
  }

  /** The same kernel, of which a marker or other files beside it may have gone. */
  ghost predicate IsRemnant(part: Kernel, whole: Kernel) {
    && part.bpath == whole.bpath && part.id == whole.id && part.release == whole.release
    && (part.boots ==> whole.boots)
  }

  ghost predicate Among(small: seq<Kernel>, large: seq<Kernel>) {
    forall j | j in small :: exists k :: k in large && IsRemnant(j, k)
  }

  /** What bears the name of a kernel that is still there whole, is that kernel. */
  lemma WholeIsOne(small: seq<Kernel>, large: seq<Kernel>, j: Kernel, k: Kernel) returns (w: Kernel)
    requires Among(small, large) && UniqueNames(small) && j in small && k in small
    ensures w in large && IsRemnant(j, w) && (w == k ==> j == k)
  {
    w :| w in large && IsRemnant(j, w);
  }

  lemma SameRunning(small: seq<Kernel>, large: seq<Kernel>, sys: Option<Ident>)
    requires Among(small, large) && UniqueNames(small) && DistinctReleases(large)
    requires RunningOf(large, sys).Some? && RunningOf(large, sys).value in small
    ensures RunningOf(small, sys) == RunningOf(large, sys)
  {
    var r, id := RunningOf(large, sys).value, sys.value;
    forall j | j in small && HasTypeAndRelease(id)(j)
      ensures j == r
    {
      var w := WholeIsOne(small, large, j, r);
    }
    if First(large, IsSystemKernel(id)).Some? {
      FirstIsUnique(small, IsSystemKernel(id), r);
    } else {
      forall j | j in small
        ensures !IsSystemKernel(id)(j)
      {
        var w := WholeIsOne(small, large, j, r);
        assert !IsSystemKernel(id)(w);
      }
      NoneFirst(small, IsSystemKernel(id));
      FirstIsUnique(small, HasTypeAndRelease(id), r);
    }
  }

  lemma SameDefault(links: Links, small: seq<Kernel>, large: seq<Kernel>, t: string)
    requires Among(small, large) && UniqueNames(small) && UniqueNames(large)
    requires DefaultFor(links, large, t).Some? ==> DefaultFor(links, large, t).value in small
    ensures DefaultFor(links, small, t) == DefaultFor(links, large, t)
  {
    if t in links {
      var d := DefaultFor(links, large, t);
      if d.Some? {
        FirstIsUnique(small, HasName(links[t]), d.value);
      } else {
        forall j | j in small
          ensures !HasName(links[t])(j)
        {
          var w :| w in large && IsRemnant(j, w);
          assert !HasName(links[t])(w);
        }
        NoneFirst(small, HasName(links[t]));
      }
    }
  }

  lemma SameTip(links: Links, small: seq<Kernel>, large: seq<Kernel>, t: string)
    requires small != [] && large != [] && Among(small, large) && UniqueNames(small) && UniqueNames(large)
    requires Descending(small) && Descending(large)
    requires forall j, k | j in large && k in large && j.release == k.release :: j == k
    requires TipOf(links, large, t) in small
    ensures TipOf(links, small, t) == TipOf(links, large, t)
  {
    SameDefault(links, small, large, t);
    if DefaultFor(links, large, t).None? {
      var k := TipOf(links, large, t);
      var i :| 0 <= i < |small| && small[i] == k;
      assert small[0].release >= small[i].release;
      var w := WholeIsOne(small, large, small[0], k);
      var j :| 0 <= j < |large| && large[j] == w;
      assert large[0].release >= large[j].release;
    }
  }

  lemma SameLastBooted(small: seq<Kernel>, large: seq<Kernel>)
    requires Among(small, large) && UniqueNames(small)
    requires forall j, k | j in large && k in large && j.release == k.release :: j == k
    requires LastBooted(large).Some? ==> LastBooted(large).value in small
    ensures LastBooted(small) == LastBooted(large)
  {
    LastBootedIsHighest(small, |small|);
    LastBootedIsHighest(large, |large|);
    var a, b := LastBooted(small), LastBooted(large);
    if b.Some? {
      var j :| 0 <= j < |small| && small[j] == b.value;
      assert a.Some? && b.value.release <= a.value.release;
    }
    if a.Some? {
      var w :| w in large && IsRemnant(a.value, w);
      var j :| 0 <= j < |large| && large[j] == w;
      assert b.Some? && w.release <= b.value.release;
      w := WholeIsOne(small, large, a.value, b.value);
    }
  }

  /** The kernels left after a run's removals. */
  ghost predicate Survivors(sel: Selection, ks: seq<Kernel>) {
    forall k :: k in ks <==> k in sel.kernels && k !in Removals(sel)
  }

  /** The kernels left after some of a run's removals, of which one may have been cut short: every kernel that was not
      to be removed, and what is left of others. */
  ghost predicate Leftover(sel: Selection, ks: seq<Kernel>) {
    && Among(ks, sel.kernels)
    && forall k | k in sel.kernels && k !in Removals(sel) :: k in ks
  }

  /** The kernels of one type among these. */
  ghost predicate IsTyped(typed: seq<Kernel>, ks: seq<Kernel>, t: string) {
    forall k :: k in typed <==> k in ks && k.id.ktype == t
  }

  lemma SameChoice(links: Links, sys: Option<Ident>, sel: Selection, next: Selection, i: nat, j: nat)
    requires Selected(links, sys, sel) && Selected(links, sys, next) && Leftover(sel, next.kernels)
    requires DistinctReleases(sel.kernels)
    requires i < |sel.types| && j < |next.types| && sel.types[i].ktype == next.types[j].ktype
    ensures next.types[j].tip == sel.types[i].tip && next.types[j].lastGood == sel.types[i].lastGood
  {
    var c, d := sel.types[i], next.types[j];
    TypeIs(links, sys, sel, i);
    TypeIs(links, sys, next, j);
    KeepersLeft(links, sys, sel, i, next.kernels);
    TypedAmong(d.kernels, c.kernels, next.kernels, sel.kernels, c.ktype);
    SameTip(links, d.kernels, c.kernels, c.ktype);
    SameLastBooted(d.kernels, c.kernels);
  }

  /** What is known of one type of a selection. */
  lemma TypeIs(links: Links, sys: Option<Ident>, sel: Selection, i: nat)
    requires Selected(links, sys, sel) && i < |sel.types|
    ensures var c := sel.types[i];
            && c.kernels != [] && Descending(c.kernels) && UniqueNames(c.kernels)
            && IsTyped(c.kernels, sel.kernels, c.ktype)
            && c.tip == TipOf(links, c.kernels, c.ktype) && c.lastGood == LastBooted(c.kernels)
  {
    ChosenMembers(links, sys, sel, i);
  }

  lemma KeepersLeft(links: Links, sys: Option<Ident>, sel: Selection, i: nat, left: seq<Kernel>)
    requires Selected(links, sys, sel) && i < |sel.types| && Leftover(sel, left)
    ensures sel.types[i].tip in left
    ensures sel.types[i].lastGood.Some? ==> sel.types[i].lastGood.value in left
  {
    var c := sel.types[i];
    ChosenMembers(links, sys, sel, i);
    RemovalsExact(links, sys, sel);
    assert IsKeeper(sel, c.tip);
    assert c.lastGood.Some? ==> IsKeeper(sel, c.lastGood.value);
  }

  lemma TypedAmong(d: seq<Kernel>, c: seq<Kernel>, small: seq<Kernel>, large: seq<Kernel>, t: string)
    requires Among(small, large) && IsTyped(d, small, t) && IsTyped(c, large, t)
    ensures Among(d, c)
  {
    forall j | j in d
      ensures exists k :: k in c && IsRemnant(j, k)
    {
      var k :| k in large && IsRemnant(j, k);
    }
  }

  lemma KeeperStays(links: Links, sys: Option<Ident>, sel: Selection, next: Selection, k: Kernel)
    requires Selected(links, sys, sel) && Selected(links, sys, next) && Leftover(sel, next.kernels)
    requires DistinctReleases(sel.kernels) && IsKeeper(sel, k)
    ensures IsKeeper(next, k)
  {
    var i :| 0 <= i < |sel.types| && (sel.types[i].tip == k || sel.types[i].lastGood == Some(k));
    ChosenMembers(links, sys, sel, i);
    RemovalsExact(links, sys, sel);
    assert k in next.kernels;
    var j :| 0 <= j < |next.types| && next.types[j].ktype == k.id.ktype;
    SameChoice(links, sys, sel, next, i, j);
  }

  lemma KeeperWas(links: Links, sys: Option<Ident>, sel: Selection, next: Selection, k: Kernel)
    requires Selected(links, sys, sel) && Selected(links, sys, next) && Leftover(sel, next.kernels)
    requires DistinctReleases(sel.kernels) && IsKeeper(next, k)
    ensures IsKeeper(sel, k)
  {
    var j :| 0 <= j < |next.types| && (next.types[j].tip == k || next.types[j].lastGood == Some(k));
    ChosenMembers(links, sys, next, j);
    var w :| w in sel.kernels && IsRemnant(k, w);
    var i :| 0 <= i < |sel.types| && sel.types[i].ktype == w.id.ktype;
    SameChoice(links, sys, sel, next, i, j);
  }

  /** With distinct releases inside each type, selecting again on what an interrupted run left finds the same running
      kernel, tips and last booted kernels. */
  lemma SameKeepers(links: Links, sys: Option<Ident>, sel: Selection, next: Selection)
    requires Selected(links, sys, sel) && Selected(links, sys, next) && Leftover(sel, next.kernels)
    requires sel.running.Some? && DistinctReleases(sel.kernels)
    ensures next.running == sel.running
    ensures forall k :: IsKeeper(next, k) <==> IsKeeper(sel, k)
  {
    RemovalsExact(links, sys, sel);
    SameRunning(next.kernels, sel.kernels, sys);
    forall k
      ensures IsKeeper(next, k) <==> IsKeeper(sel, k)
    {
      if IsKeeper(sel, k) {
        KeeperStays(links, sys, sel, next, k);
      }
      if IsKeeper(next, k) {
        KeeperWas(links, sys, sel, next, k);
      }
    }
  }

  lemma SurvivorsAreLeft(sel: Selection, ks: seq<Kernel>)
    requires Survivors(sel, ks)
    ensures Leftover(sel, ks)
  {
    forall j | j in ks
      ensures exists k :: k in sel.kernels && IsRemnant(j, k)
    {
      assert IsRemnant(j, j);
    }
  }

  lemma HasMember(q: seq<Kernel>)
    ensures q == [] || exists k :: k in q
  {
    if q != [] {
      assert q[0] in q;
    }
  }

  lemma NothingLeft(links: Links, sys: Option<Ident>, sel: Selection, next: Selection)
    requires Selected(links, sys, sel) && Selected(links, sys, next) && Survivors(sel, next.kernels)
    requires sel.running.Some? && next.running == sel.running
    requires forall k :: IsKeeper(next, k) <==> IsKeeper(sel, k)
    ensures Removals(next) == []
  {
    RemovalsExact(links, sys, sel);
    RemovalsExact(links, sys, next);
    forall k
      ensures k !in Removals(next)
    {
      if k in next.kernels {
        assert k in sel.kernels && k !in Removals(sel);
        assert Kept(sel, k);
        assert Kept(next, k);
      }
    }
    HasMember(Removals(next));
  }

  /** Collection is a fixed point: with distinct releases inside each type, selecting again on what a
      run left finds the same running kernel, tips and last booted kernels, and nothing to remove. */
  lemma FixedPoint(links: Links, sys: Option<Ident>, sel: Selection, next: Selection)
    requires Selected(links, sys, sel) && Selected(links, sys, next) && Survivors(sel, next.kernels)
    requires sel.running.Some? && DistinctReleases(sel.kernels)
    ensures next.running == sel.running
    ensures forall k :: IsKeeper(next, k) <==> IsKeeper(sel, k)
    ensures Removals(next) == []
  {
    SurvivorsAreLeft(sel, next.kernels);
    SameKeepers(links, sys, sel, next);
    NothingLeft(links, sys, sel, next);
  }

  /** Of a default that survived, the next run writes the same. */
  lemma SameNewDefault(links: Links, sys: Option<Ident>, sel: Selection, next: Selection)
    requires Selected(links, sys, sel) && Selected(links, sys, next) && Survivors(sel, next.kernels)
    requires sel.running.Some? && DistinctReleases(sel.kernels)
    requires sel.newDefault.Some? ==> sel.newDefault.value !in Removals(sel)
    ensures next.newDefault == sel.newDefault
  {
    FixedPoint(links, sys, sel, next);
    SurvivorsAreLeft(sel, next.kernels);
    SameDefault(links, next.kernels, sel.kernels, sel.running.value.id.ktype);
  }
}
