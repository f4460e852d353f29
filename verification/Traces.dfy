/** What the events of a run did to the disk. */
module Traces {
  import opened Disks
  import opened Names
  import opened Kernels
  import opened Plans
  import opened Installs
  import Freestanding

  /** The paths a step may touch, whatever becomes of it. */
  ghost function StepPaths(b: Build, step: Step): iset<Path> {
    match step
    case CopyFreestanding => Freestanding.EspPaths()
    case Install(k) => InstallPaths(b, k)
    case SetDefault(_) => iset{LOADER_CONF}
    case Remove(k) => RemovablePaths(b, k)
  }

  /** What a step that succeeds has brought about. */
  ghost predicate Achieves(e: Env, step: Step, before: Files, now: Files) {
    match step
    case CopyFreestanding => Freestanding.StagesApart(before, e.overlay) ==> Freestanding.AreCopied(now, e.overlay)
    case Install(k) => NoStagingSources(before) ==> Installed(e, now, k)
    case SetDefault(k) => DefaultWritten(e.build, e.config, now, k)
    case Remove(k) => SourcePath(k) !in now
  }

  /** The disk changed as the event says. */
  ghost predicate Tells(e: Env, v: Event) {
    && Evolves(v.before, v.after, StepPaths(e.build, v.step))
    && (v.ok ==> Achieves(e, v.step, Last(v.before), Last(v.after)))
  }

  /** The events lead from one history to the other, each beginning where the one before ended. */
  ghost predicate Leads(e: Env, h0: seq<Files>, trace: seq<Event>, h1: seq<Files>) {
    && (forall i | 0 <= i < |trace| :: Tells(e, trace[i]))
    && (forall i, j | 0 <= i < j < |trace| && j == i + 1 :: trace[i].after == trace[j].before)
    && (if trace == [] then h0 == h1 else trace[0].before == h0 && trace[|trace| - 1].after == h1)
  }

  lemma LeadsOne(e: Env, v: Event)
    requires Tells(e, v)
    ensures Leads(e, v.before, [v], v.after)
  {
  }

  lemma LeadsThen(e: Env, h0: seq<Files>, t: seq<Event>, h1: seq<Files>, u: seq<Event>, h2: seq<Files>)
    requires Leads(e, h0, t, h1) && Leads(e, h1, u, h2)
    ensures Leads(e, h0, t + u, h2)
  {
    var trace := t + u;
    forall i | 0 <= i < |trace|
      ensures Tells(e, trace[i])
    {
      assert trace[i] == if i < |t| then t[i] else u[i - |t|];
    }
    forall i, j | 0 <= i < j < |trace| && j == i + 1
      ensures trace[i].after == trace[j].before
    {
      assert trace[i] == if i < |t| then t[i] else u[i - |t|];
      assert trace[j] == if j < |t| then t[j] else u[j - |t|];
    }
  }

  /** The first `n` events and the others. */
  lemma LeadsSplit(e: Env, h0: seq<Files>, trace: seq<Event>, h1: seq<Files>, n: nat) returns (h: seq<Files>)
    requires Leads(e, h0, trace, h1) && n <= |trace|
    ensures Leads(e, h0, trace[..n], h) && Leads(e, h, trace[n..], h1)
    ensures n < |trace| ==> h == trace[n].before
    ensures n > 0 ==> h == trace[n - 1].after
  {
    h := if n < |trace| then trace[n].before else h1;
    var first, rest := trace[..n], trace[n..];
    forall i | 0 <= i < |first|
      ensures first[i] == trace[i]
    {
    }
    forall i | 0 <= i < |rest|
      ensures rest[i] == trace[n + i]
    {
    }
    assert forall i, j | 0 <= i < j < |rest| && j == i + 1 :: rest[i] == trace[n + i] && rest[j] == trace[n + j];
    assert n > 0 && n < |trace| ==> trace[n - 1].after == trace[n].before;
  }

  lemma {:induction false} LeadsGrows(e: Env, h0: seq<Files>, trace: seq<Event>, h1: seq<Files>)
    requires Leads(e, h0, trace, h1) && h0 != []
    ensures h0 <= h1
  {
    if trace != [] {
      var n := |trace| - 1;
      var h := LeadsSplit(e, h0, trace, h1, n);
      LeadsGrows(e, h0, trace[..n], h);
      assert Tells(e, trace[n]) && h <= h1;
    }
  }

  lemma {:induction false} LeadsWithin(e: Env, h0: seq<Files>, trace: seq<Event>, h1: seq<Files>, fp: iset<Path>)
    requires Leads(e, h0, trace, h1) && h0 != []
    requires forall v | v in trace :: StepPaths(e.build, v.step) <= fp
    ensures Evolves(h0, h1, fp)
  {
    if trace != [] {
      var n := |trace| - 1;
      var h := LeadsSplit(e, h0, trace, h1, n);
      LeadsWithin(e, h0, trace[..n], h, fp);
      EvolvesThen(h0, h, h1, fp, StepPaths(e.build, trace[n].step), fp);
    }
  }

  /** Every state on the way belongs to one of the events: it lies within the event's stretch of history
      and differs from where the event began only in paths of the event's step. */
  lemma {:induction false} StateHasEvent(e: Env, h0: seq<Files>, trace: seq<Event>, h1: seq<Files>, i: nat)
    returns (n: nat)
    requires Leads(e, h0, trace, h1) && h0 != [] && |h0| <= i < |h1|
    ensures h0 <= h1 && n < |trace| && Tells(e, trace[n]) && trace[n].after <= h1
    ensures |trace[n].before| <= i < |trace[n].after|
    ensures Frame(Last(trace[n].before), h1[i], StepPaths(e.build, trace[n].step))
  {
    LeadsGrows(e, h0, trace, h1);
    n := |trace| - 1;
    var h := LeadsSplit(e, h0, trace, h1, n);
    LeadsGrows(e, h0, trace[..n], h);
    assert Tells(e, trace[n]);
    if i < |h| {
      n := StateHasEvent(e, h0, trace[..n], h, i);
      assert h[i] == h1[i];
    }
  }
}
