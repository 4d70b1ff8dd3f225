/** What every round of every run keeps, why every run ends, and what its
    outcome means. */
module WorkgroupSafety {
  import opened Words
  import opened Isa
  import opened CoreSpec
  import opened Workgroup
  import Simt
  import CycleDetect

  // ---------------- the barrier invariant ----------------

  /** A runnable wave has passed exactly the completed epochs, at their sites; a
      waiting wave stands at a barrier instruction, one arrival ahead; a wave
      that is gone passed a prefix of them. */
  predicate WaveInv(job: Job, epochs: seq<Site>, w: Wave) {
    && w.core.cycles.NoKeys?
    && w.nBar == |w.barSites|
    && (w.state.Runnable? ==> w.barSites == epochs)
    && (w.state.Waiting? ==> AtBarrier(job, w.core) && w.barSites == epochs + [job.prog[w.core.pc].address])
    && (w.state.Ended? || w.state.Faulted? ==> w.barSites <= epochs)
    && (w.state.Faulted? ==> w.fault != NoFault)
    && (!w.state.Faulted? ==> w.fault == NoFault || (w.fault == ReleaseFault && !BarriersImplemented(job)))
  }

  predicate BarriersImplemented(job: Job) {
    forall i: nat :: i < |job.prog| && job.prog[i].op.Barrier? ==> job.prog[i].op.implemented
  }

  predicate Inv(job: Job, g: Group) {
    forall i: nat :: i < |g.waves| ==> WaveInv(job, g.epochs, g.waves[i])
  }

  // Between rounds somebody alive can run.
  predicate Poised(g: Group) {
    SomeAlive(g) ==> !AllAliveWait(g)
  }

  lemma StepKeepsSilent(job: Job, c: Core, sh: Shared)
    requires c.cycles.NoKeys?
    ensures Step(job.prog, job.cfg, c, sh).core.cycles.NoKeys?
  {
    hide Step;
    CycleDetect.StaysSilent(job.prog, job.cfg, c, sh);
  }

  lemma TickKeeps(job: Job, epochs: seq<Site>, w: Wave, sh: Shared)
    requires WaveInv(job, epochs, w)
    ensures WaveInv(job, epochs, Tick(job, w, sh).wave)
  {
    hide Step, BarriersImplemented;
    StepKeepsSilent(job, w.core, sh);
  }

  // A barrier instruction moves past itself whatever it raises.
  lemma {:induction false} BarrierStep(job: Job, c: Core, sh: Shared)
    requires c.cycles.NoKeys? && AtBarrier(job, c)
    ensures Step(job.prog, job.cfg, c, sh) == Stepped(
      c.(pc := c.pc + 1, steps := c.steps + 1), sh, if job.prog[c.pc].op.implemented then Fine else NotImplemented)
  {
    hide StepMov, StepAdd, StepSBin, StepCmp, StepSaveExec, StepSLoad, StepVBin, StepVCmp, StepVCmpx, StepDs,
         StepBpermute, StepGlobal;
    Simt.StepIs(job.prog, job.cfg, c, sh, job.prog[c.pc].op);
  }

  lemma ReleaseKeeps(job: Job, epochs: seq<Site>, site: Site, w: Wave, sh: Shared)
    requires WaveInv(job, epochs, w)
    requires Alive(w) ==> w.state.Waiting? && w.barSites == epochs + [site]
    ensures WaveInv(job, epochs + [site], ReleaseWave(job, w, sh).wave)
    ensures ReleaseWave(job, w, sh).shared == sh
  {
    hide Step;
    if Alive(w) {
      BarrierStep(job, w.core, sh);
    }
  }

  lemma {:induction false} TicksKeep(job: Job, g: Group, n: nat)
    requires Inv(job, g) && n <= |g.waves|
    ensures Inv(job, TickUpTo(job, g, n))
  {
    hide WaveInv, Tick;
    if n > 0 {
      TicksKeep(job, g, n - 1);
      var h := TickUpTo(job, g, n - 1);
      TickKeeps(job, g.epochs, h.waves[n - 1], h.shared);
    }
  }

  // The first n waves have been released and the rest still stand at the site.
  predicate Releasing(job: Job, g: Group, r: Group, site: Site, n: nat)
    requires n <= |g.waves| == |r.waves|
  {
    && r.shared == g.shared
    && (forall i: nat :: i < n ==> WaveInv(job, g.epochs + [site], r.waves[i]))
    && (forall i: nat :: n <= i < |g.waves| ==> r.waves[i] == g.waves[i])
  }

  lemma {:induction false} ReleasesKeep(job: Job, g: Group, site: Site, n: nat)
    requires Inv(job, g) && n <= |g.waves| && AllAliveWait(g) && AgreedSite(g, site)
    ensures Releasing(job, g, ReleaseUpTo(job, g, n), site, n)
  {
    hide WaveInv, ReleaseWave;
    if n > 0 {
      ReleasesKeep(job, g, site, n - 1);
      var h := ReleaseUpTo(job, g, n - 1);
      var w := g.waves[n - 1];
      assert h.waves[n - 1] == w;
      StandsAtSite(job, g, site, n - 1);
      ReleaseKeeps(job, g.epochs, site, w, h.shared);
    }
  }

  lemma StandsAtSite(job: Job, g: Group, site: Site, i: nat)
    requires Inv(job, g) && i < |g.waves| && AllAliveWait(g) && AgreedSite(g, site)
    ensures Alive(g.waves[i]) ==> g.waves[i].state.Waiting? && g.waves[i].barSites == g.epochs + [site]
  {
    assert WaveInv(job, g.epochs, g.waves[i]);
  }

  /** Every round keeps the invariant. */
  lemma RoundKeeps(job: Job, g: Group)
    requires Inv(job, g)
    ensures NextRound(job, g).Continue? ==> Inv(job, NextRound(job, g).next)
    ensures NextRound(job, g).Stop? ==> Inv(job, NextRound(job, g).last)
  {
    hide WaveInv, TickUpTo, ReleaseUpTo, AgreedSite;
    var h := TickUpTo(job, g, |g.waves|);
    TicksKeep(job, g, |g.waves|);
    var site := FirstSite(h, 0);
    if SomeAlive(h) && AllAliveWait(h) && AgreedSite(h, site) {
      ReleasesKeep(job, h, site, |h.waves|);
    }
  }

  lemma {:induction false} ReleasedRun(job: Job, g: Group, n: nat)
    requires n <= |g.waves|
    ensures var r := ReleaseUpTo(job, g, n);
            forall i: nat :: i < |g.waves| ==>
              if i < n && Alive(g.waves[i]) then r.waves[i].state.Runnable?
              else r.waves[i] == g.waves[i]
  {
    hide Step;
    if n > 0 {
      ReleasedRun(job, g, n - 1);
    }
  }

  /** After a round that goes on, an alive wave can run. */
  lemma RoundLeavesPoised(job: Job, g: Group)
    requires NextRound(job, g).Continue?
    ensures Poised(NextRound(job, g).next)
  {
    hide TickUpTo, ReleaseUpTo, AgreedSite;
    var h := TickUpTo(job, g, |g.waves|);
    if SomeAlive(h) && AllAliveWait(h) {
      ReleasedRun(job, h, |h.waves|);
    }
  }

  // ---------------- termination ----------------

  function Rem(job: Job, w: Wave): nat {
    if w.stepsDone <= job.stepCap then job.stepCap + 1 - w.stepsDone else 0
  }

  function Left(job: Job, w: Wave): nat {
    if w.core.pc <= |job.prog| then |job.prog| - w.core.pc else 0
  }

  // What a wave can still do: steps below the cap, each followed by at most one
  // pass over the barriers ahead of it.
  function Rank(job: Job, w: Wave): nat {
    if !Alive(w) then 0
    else 1 + Rem(job, w) * (2 * |job.prog| + 2) + 2 * Left(job, w) + if w.state.Runnable? then 1 else 0
  }

  function Potential(job: Job, waves: seq<Wave>, n: nat): nat
    requires n <= |waves|
  {
    if n == 0 then 0 else Potential(job, waves, n - 1) + Rank(job, waves[n - 1])
  }

  lemma OneStepLess(rem: nat, l: nat)
    requires rem > 0
    ensures (rem - 1) * (2 * l + 2) == rem * (2 * l + 2) - (2 * l + 2)
  {
  }

  lemma TickLowers(job: Job, w: Wave, sh: Shared)
    ensures Rank(job, Tick(job, w, sh).wave) <= Rank(job, w)
    ensures w.state.Runnable? ==> Rank(job, Tick(job, w, sh).wave) < Rank(job, w)
  {
    hide Step;
    if w.state.Runnable? && w.core.pc < |job.prog| && !AtBarrier(job, w.core) {
      SettleLowers(job, w, Step(job.prog, job.cfg, w.core, sh));
    }
  }

  lemma SettleLowers(job: Job, w: Wave, r: Stepped)
    requires w.state.Runnable?
    ensures Rank(job, Settle(job, w, r)) < Rank(job, w)
  {
    var w' := Settle(job, w, r);
    if Alive(w') {
      assert w'.stepsDone == w.stepsDone + 1 && w'.stepsDone <= job.stepCap;
      OneStepLess(Rem(job, w), |job.prog|);
      assert Rem(job, w') == Rem(job, w) - 1;
    }
  }

  lemma ProductOrdered(a: nat, b: nat, l: nat)
    requires a <= b
    ensures a * l <= b * l
  {
  }

  lemma ReleaseLowers(job: Job, epochs: seq<Site>, w: Wave, sh: Shared)
    requires WaveInv(job, epochs, w) && !w.state.Runnable?
    ensures Rank(job, ReleaseWave(job, w, sh).wave) <= Rank(job, w)
    ensures Alive(w) ==> Rank(job, ReleaseWave(job, w, sh).wave) < Rank(job, w)
  {
    hide Step, BarriersImplemented;
    if Alive(w) {
      BarrierStep(job, w.core, sh);
      var w' := ReleaseWave(job, w, sh).wave;
      ProductOrdered(Rem(job, w'), Rem(job, w), 2 * |job.prog| + 2);
    }
  }

  // Changing one wave changes the potential by that wave's rank.
  lemma {:induction false} PotentialUpdate(job: Job, waves: seq<Wave>, i: nat, w: Wave, n: nat)
    requires i < |waves| && n <= |waves|
    ensures Potential(job, waves[i := w], n)
         == Potential(job, waves, n) + if i < n then Rank(job, w) - Rank(job, waves[i]) else 0
  {
    hide Rank;
    if n > 0 {
      PotentialUpdate(job, waves, i, w, n - 1);
    }
  }

  function Total(job: Job, g: Group): nat {
    Potential(job, g.waves, |g.waves|)
  }

  lemma {:induction false} TicksLower(job: Job, g: Group, n: nat)
    requires n <= |g.waves|
    ensures Total(job, TickUpTo(job, g, n)) <= Total(job, g)
    ensures (exists i: nat :: i < n && g.waves[i].state.Runnable?) ==> Total(job, TickUpTo(job, g, n)) < Total(job, g)
    ensures forall i: nat :: n <= i < |g.waves| ==> TickUpTo(job, g, n).waves[i] == g.waves[i]
  {
    hide Rank, Tick;
    if n > 0 {
      TicksLower(job, g, n - 1);
      var h := TickUpTo(job, g, n - 1);
      var t := Tick(job, h.waves[n - 1], h.shared);
      TickLowers(job, h.waves[n - 1], h.shared);
      PotentialUpdate(job, h.waves, n - 1, t.wave, |h.waves|);
    }
  }

  lemma {:induction false} ReleasesLower(job: Job, g: Group, n: nat)
    requires n <= |g.waves| && Inv(job, g) && AllAliveWait(g)
    ensures Total(job, ReleaseUpTo(job, g, n)) <= Total(job, g)
    ensures forall i: nat :: n <= i < |g.waves| ==> ReleaseUpTo(job, g, n).waves[i] == g.waves[i]
  {
    hide Rank, ReleaseWave, WaveInv;
    if n > 0 {
      ReleasesLower(job, g, n - 1);
      var h := ReleaseUpTo(job, g, n - 1);
      var t := ReleaseWave(job, h.waves[n - 1], h.shared);
      assert !g.waves[n - 1].state.Runnable?;
      ReleaseLowers(job, g.epochs, h.waves[n - 1], h.shared);
      PotentialUpdate(job, h.waves, n - 1, t.wave, |h.waves|);
    }
  }

  /** A round that goes on uses up some of the group's potential. */
  lemma RoundLowers(job: Job, g: Group)
    requires Inv(job, g) && Poised(g) && NextRound(job, g).Continue?
    ensures Total(job, NextRound(job, g).next) < Total(job, g)
  {
    hide Potential, TickUpTo, ReleaseUpTo, AgreedSite, WaveInv;
    var h := TickUpTo(job, g, |g.waves|);
    var i: nat :| i < |g.waves| && Alive(g.waves[i]) && !g.waves[i].state.Waiting?;
    TicksLower(job, g, |g.waves|);
    TicksKeep(job, g, |g.waves|);
    if SomeAlive(h) && AllAliveWait(h) {
      ReleasesLower(job, h, |h.waves|);
    }
  }

  // ---------------- whole runs ----------------

  datatype Result = Result(ticks: nat, outcome: Outcome, last: Group)

  /** The whole run, with no cap on the rounds: the potential is its measure. */
  function Finish(job: Job, g: Group): Result
    requires Inv(job, g) && Poised(g)
    decreases Total(job, g)
  {
    match NextRound(job, g)
    case Stop(outcome, last) => Result(1, outcome, last)
    case Continue(next) =>
      RoundKeeps(job, g);
      RoundLeavesPoised(job, g);
      RoundLowers(job, g);
      var r := Finish(job, next);
      r.(ticks := r.ticks + 1)
  }

  /** The number of rounds is bounded by the potential of the start. */
  lemma {:induction false} TicksBounded(job: Job, g: Group)
    requires Inv(job, g) && Poised(g)
    ensures Finish(job, g).ticks <= Total(job, g) + 1
    decreases Total(job, g)
  {
    hide NextRound, Inv, Poised, Potential;
    match NextRound(job, g)
    case Stop(_, _) =>
    case Continue(next) =>
      RoundKeeps(job, g);
      RoundLeavesPoised(job, g);
      RoundLowers(job, g);
      TicksBounded(job, next);
  }

  // The waves as the driver builds them.
  predicate Fresh(g: Group) {
    g.epochs == [] && forall i: nat :: i < |g.waves| ==> Entered(g.waves[i])
  }

  predicate Entered(w: Wave) {
    w == EntryWave(Entry(w.core.s, w.core.undef, w.core.v))
  }

  lemma FreshIsReady(job: Job, g: Group)
    requires Fresh(g)
    ensures Inv(job, g) && Poised(g)
  {
  }

  lemma RankBounded(job: Job, w: Wave)
    requires w.stepsDone == 0
    ensures Rank(job, w) <= (job.stepCap + 2) * (2 * |job.prog| + 2)
  {
    OneStepLess(job.stepCap + 2, |job.prog|);
  }

  lemma {:induction false} PotentialBounded(job: Job, g: Group, n: nat)
    requires Fresh(g) && n <= |g.waves|
    ensures Potential(job, g.waves, n) <= n * ((job.stepCap + 2) * (2 * |job.prog| + 2))
  {
    hide Rank;
    if n > 0 {
      PotentialBounded(job, g, n - 1);
      RankBounded(job, g.waves[n - 1]);
      OneMore(n, (job.stepCap + 2) * (2 * |job.prog| + 2));
    }
  }

  lemma OneMore(n: nat, b: nat)
    requires n > 0
    ensures n * b == (n - 1) * b + b
  {
  }

  /** Every run ends, within a bound that depends only on the number of waves,
      the step cap and the length of the program. */
  lemma {:induction false} EveryRunEnds(job: Job, g: Group)
    requires Fresh(g)
    ensures Inv(job, g) && Poised(g)
    ensures Finish(job, g).ticks <= |g.waves| * ((job.stepCap + 2) * (2 * |job.prog| + 2)) + 1
  {
    hide Finish, Potential;
    FreshIsReady(job, g);
    TicksBounded(job, g);
    PotentialBounded(job, g, |g.waves|);
  }

  // ---------------- outcomes ----------------

  // A turn that stops found nobody alive, so it changed nothing.
  lemma {:induction false} NobodyTicks(job: Job, g: Group, n: nat)
    requires n <= |g.waves| && !SomeAlive(g)
    ensures TickUpTo(job, g, n) == g
  {
    if n > 0 {
      NobodyTicks(job, g, n - 1);
      assert !Alive(g.waves[n - 1]);
    }
  }

  predicate EveryWaveEnded(g: Group) {
    forall i: nat :: i < |g.waves| ==> g.waves[i].state.Ended?
  }

  /** What the label of a finished run says: success is exactly a non-empty
      group all of whose waves ended; the stalled arm is unreachable; and two
      waves that disagree stand one arrival past the same completed epochs. */
  predicate Truthful(outcome: Outcome, g: Group) {
    && !outcome.Stalled? && !outcome.RoundCap?
    && (outcome.AllEnded? <==> g.waves != [] && EveryWaveEnded(g))
    && (outcome.NoWaves? <==> g.waves == [])
    && (outcome.SomeFaulted? ==> !SomeAlive(g) && exists i: nat :: i < |g.waves| && g.waves[i].state.Faulted?)
    && (outcome.Divergence? ==> AllAliveWait(g) && TwoSites(g))
  }

  predicate TwoSites(g: Group) {
    exists i: nat, j: nat :: i < |g.waves| && j < |g.waves| && Parted(g, i, j)
  }

  predicate Parted(g: Group, i: nat, j: nat)
    requires i < |g.waves| && j < |g.waves|
  {
    && Alive(g.waves[i]) && Alive(g.waves[j])
    && |g.waves[i].barSites| == |g.waves[j].barSites| == |g.epochs| + 1
    && g.waves[i].barSites[|g.epochs|] != g.waves[j].barSites[|g.epochs|]
  }

  lemma {:induction false} FirstSiteIsSome(g: Group, n: nat) returns (i: nat)
    requires n <= |g.waves|
    requires exists k: nat :: n <= k < |g.waves| && Alive(g.waves[k])
    requires forall k: nat :: k < |g.waves| && Alive(g.waves[k]) ==> g.waves[k].barSites != []
    ensures n <= i < |g.waves| && Alive(g.waves[i])
    ensures FirstSite(g, n) == g.waves[i].barSites[|g.waves[i].barSites| - 1]
    decreases |g.waves| - n
  {
    if Alive(g.waves[n]) {
      i := n;
    } else {
      i := FirstSiteIsSome(g, n + 1);
    }
  }

  lemma StopIsTruthful(job: Job, g: Group)
    requires Inv(job, g) && NextRound(job, g).Stop?
    ensures Truthful(NextRound(job, g).outcome, NextRound(job, g).last)
  {
    hide TickUpTo, WaveInv;
    var h := TickUpTo(job, g, |g.waves|);
    TicksKeep(job, g, |g.waves|);
    if !SomeAlive(g) {
      NobodyTicks(job, g, |g.waves|);
      assert forall i: nat :: i < |g.waves| ==> !Alive(g.waves[i]);
    } else {
      DivergenceIsReal(job, h);
    }
  }

  lemma DivergenceIsReal(job: Job, h: Group)
    requires Inv(job, h) && SomeAlive(h) && AllAliveWait(h) && !AgreedSite(h, FirstSite(h, 0))
    ensures Truthful(Divergence, h)
  {
    forall k: nat | k < |h.waves| && Alive(h.waves[k])
      ensures |h.waves[k].barSites| == |h.epochs| + 1
    {
      assert WaveInv(job, h.epochs, h.waves[k]);
    }
    var i := FirstSiteIsSome(h, 0);
    var j: nat :| j < |h.waves| && Alive(h.waves[j])
      && !(h.waves[j].barSites != [] && h.waves[j].barSites[|h.waves[j].barSites| - 1] == FirstSite(h, 0));
    assert Parted(h, i, j);
  }

  /** The label of every run is true of the group it leaves, and the barrier
      invariant holds there. */
  lemma {:induction false} RunIsTruthful(job: Job, g: Group)
    requires Inv(job, g) && Poised(g)
    ensures Truthful(Finish(job, g).outcome, Finish(job, g).last)
    ensures Inv(job, Finish(job, g).last)
    decreases Total(job, g)
  {
    hide NextRound, Poised, Potential, Truthful, Inv;
    RoundKeeps(job, g);
    match NextRound(job, g)
    case Stop(_, _) => StopIsTruthful(job, g);
    case Continue(next) =>
      RoundLeavesPoised(job, g);
      RoundLowers(job, g);
      RunIsTruthful(job, next);
  }

  // ---------------- barrier safety ----------------

  /** The group after n rounds; a run that has stopped stays where it is. */
  function After(job: Job, g: Group, n: nat): (r: Group)
    ensures |r.waves| == |g.waves|
  {
    if n == 0 then g
    else
      var h := After(job, g, n - 1);
      match NextRound(job, h)
      case Continue(next) => next
      case Stop(_, last) => last
  }

  lemma {:induction false} AfterKeeps(job: Job, g: Group, n: nat)
    requires Inv(job, g)
    ensures Inv(job, After(job, g, n))
  {
    hide Inv, NextRound;
    if n > 0 {
      AfterKeeps(job, g, n - 1);
      RoundKeeps(job, After(job, g, n - 1));
    }
  }

  // The wave has gone past its barrier number k.
  predicate HasPassed(w: Wave, k: nat) {
    k < |w.barSites| && !(w.state.Waiting? && k + 1 == |w.barSites|)
  }

  // No wave is past a barrier that an alive wave has not reached, at the same site.
  ghost predicate Orderly(g: Group) {
    forall i: nat, j: nat, k: nat :: i < |g.waves| && j < |g.waves| && HasPassed(g.waves[i], k) && Alive(g.waves[j]) ==>
      k < |g.waves[j].barSites| && g.waves[j].barSites[k] == g.waves[i].barSites[k]
  }

  lemma InvIsOrderly(job: Job, g: Group)
    requires Inv(job, g)
    ensures Orderly(g)
  {
    forall i: nat | i < |g.waves| ensures WaveInv(job, g.epochs, g.waves[i]) {
    }
  }

  // A site list that stops inside the completed epochs, or is all of them.
  predicate Within(w: Wave, epochs: seq<Site>) {
    w.barSites <= epochs && (Alive(w) ==> w.barSites == epochs)
  }

  lemma ReleasingIsOrderly(job: Job, h: Group, site: Site, n: nat)
    requires Inv(job, h) && n <= |h.waves| && AllAliveWait(h) && AgreedSite(h, site)
    ensures Orderly(ReleaseUpTo(job, h, n))
  {
    hide WaveInv, ReleaseWave, AgreedSite, AllAliveWait;
    var r := ReleaseUpTo(job, h, n);
    ReleasesKeep(job, h, site, n);
    ReleasedRun(job, h, n);
    forall i: nat | i < |h.waves| ensures Within(r.waves[i], h.epochs + [site]) {
      StandsAtSite(job, h, site, i);
      assert WaveInv(job, h.epochs, h.waves[i]);
      ReleasedWithin(job, h.epochs, site, h.waves[i], r.waves[i], i < n);
    }
  }

  lemma ReleasedWithin(job: Job, epochs: seq<Site>, site: Site, w: Wave, w': Wave, released: bool)
    requires WaveInv(job, epochs, w)
    requires Alive(w) ==> w.state.Waiting? && w.barSites == epochs + [site]
    requires if released then WaveInv(job, epochs + [site], w') else w' == w
    requires if released && Alive(w) then w'.state.Runnable? else w' == w
    ensures Within(w', epochs + [site])
  {
    hide BarriersImplemented;
  }

  /** At every point of every run, between two turns of a round or between two
      releases of a barrier, no wave is past barrier k unless every alive wave
      has arrived at its barrier k, at the same site. */
  lemma {:induction false} NoWavePassesEarly(job: Job, g: Group, rounds: nat, n: nat)
    requires Fresh(g) && n <= |g.waves|
    ensures Orderly(TickUpTo(job, After(job, g, rounds), n))
    ensures var h := TickUpTo(job, After(job, g, rounds), |g.waves|);
      AllAliveWait(h) && AgreedSite(h, FirstSite(h, 0)) ==> Orderly(ReleaseUpTo(job, h, n))
  {
    hide After, TickUpTo, ReleaseUpTo, Inv, Orderly, AllAliveWait, AgreedSite;
    var now := After(job, g, rounds);
    FreshIsReady(job, g);
    AfterKeeps(job, g, rounds);
    TicksKeep(job, now, n);
    InvIsOrderly(job, TickUpTo(job, now, n));
    var h := TickUpTo(job, now, |g.waves|);
    TicksKeep(job, now, |g.waves|);
    if AllAliveWait(h) && AgreedSite(h, FirstSite(h, 0)) {
      ReleasingIsOrderly(job, h, FirstSite(h, 0), n);
    }
  }

  // ---------------- a fault that the release hides ----------------

  predicate Shown(w: Wave) {
    w.fault != NoFault ==> w.state.Faulted?
  }

  predicate FaultsShow(g: Group) {
    forall i: nat :: i < |g.waves| ==> Shown(g.waves[i])
  }

  // The wave is about to be released at a barrier no handler knows.
  predicate AtUnknownBarrier(job: Job, w: Wave) {
    Alive(w) && AtBarrier(job, w.core) && !job.prog[w.core.pc].op.implemented
  }

  // The coming round releases such a wave.
  predicate ReleasesUnknown(job: Job, g: Group) {
    var h := TickUpTo(job, g, |g.waves|);
    && AllAliveWait(h) && AgreedSite(h, FirstSite(h, 0))
    && exists i: nat :: i < |h.waves| && AtUnknownBarrier(job, h.waves[i])
  }

  lemma TickShows(job: Job, w: Wave, sh: Shared)
    requires Shown(w)
    ensures Shown(Tick(job, w, sh).wave)
  {
    hide Step;
  }

  lemma {:induction false} TicksShow(job: Job, g: Group, n: nat)
    requires FaultsShow(g) && n <= |g.waves|
    ensures FaultsShow(TickUpTo(job, g, n))
  {
    hide Tick, Shown;
    if n > 0 {
      TicksShow(job, g, n - 1);
      var h := TickUpTo(job, g, n - 1);
      TickShows(job, h.waves[n - 1], h.shared);
    }
  }

  lemma ReleaseShowsWhen(job: Job, epochs: seq<Site>, w: Wave, sh: Shared)
    requires WaveInv(job, epochs, w) && Shown(w) && !w.state.Runnable?
    ensures Shown(ReleaseWave(job, w, sh).wave) <==> !AtUnknownBarrier(job, w)
  {
    hide Step, BarriersImplemented;
    if Alive(w) {
      BarrierStep(job, w.core, sh);
    }
  }

  lemma {:induction false} ReleasesShowWhen(job: Job, g: Group, n: nat)
    requires Inv(job, g) && FaultsShow(g) && n <= |g.waves| && AllAliveWait(g)
    ensures var r := ReleaseUpTo(job, g, n);
      && (forall i: nat :: i < n ==> (Shown(r.waves[i]) <==> !AtUnknownBarrier(job, g.waves[i])))
      && (forall i: nat :: n <= i < |g.waves| ==> r.waves[i] == g.waves[i])
  {
    hide ReleaseWave, WaveInv, Shown, AtUnknownBarrier;
    if n > 0 {
      ReleasesShowWhen(job, g, n - 1);
      assert !g.waves[n - 1].state.Runnable?;
      ReleaseShowsWhen(job, g.epochs, g.waves[n - 1], ReleaseUpTo(job, g, n - 1).shared);
    }
  }

  /** One round from a group whose faults all show hides a fault if and only if
      it releases a wave at an unknown barrier. */
  lemma {:induction false} RoundShowsExactlyWhen(job: Job, g: Group)
    requires Inv(job, g) && FaultsShow(g)
    ensures FaultsShow(After(job, g, 1)) <==> !ReleasesUnknown(job, g)
  {
    hide TickUpTo, ReleaseUpTo, AgreedSite, WaveInv, Shown, AtUnknownBarrier;
    var h := TickUpTo(job, g, |g.waves|);
    TicksShow(job, g, |g.waves|);
    TicksKeep(job, g, |g.waves|);
    assert After(job, g, 0) == g;
    if AllAliveWait(h) && AgreedSite(h, FirstSite(h, 0)) {
      AgreedIsAlive(h, FirstSite(h, 0));
      AliveBefore(job, g);
      ReleasesShowWhen(job, h, |h.waves|);
    }
  }

  lemma AgreedIsAlive(g: Group, site: Site)
    requires AgreedSite(g, site)
    ensures SomeAlive(g)
  {
  }

  lemma AliveBefore(job: Job, g: Group)
    requires SomeAlive(TickUpTo(job, g, |g.waves|))
    ensures SomeAlive(g)
  {
    hide SomeAlive, TickUpTo;
    if !SomeAlive(g) {
      NobodyTicks(job, g, |g.waves|);
    }
  }

  // After n + 1 rounds is one round after n rounds.
  lemma AfterOnce(job: Job, g: Group, n: nat)
    ensures After(job, g, n + 1) == After(job, After(job, g, n), 1)
  {
    hide NextRound;
    assert After(job, After(job, g, n), 0) == After(job, g, n);
  }

  ghost predicate NeverReleasesUnknown(job: Job, g: Group, n: nat) {
    forall k: nat :: k < n ==> !ReleasesUnknown(job, After(job, g, k))
  }

  lemma {:induction false} ShowsUntilRelease(job: Job, g: Group, n: nat)
    requires Inv(job, g) && FaultsShow(g) && NeverReleasesUnknown(job, g, n)
    ensures FaultsShow(After(job, g, n))
  {
    hide Inv, FaultsShow, ReleasesUnknown, NextRound;
    if n > 0 {
      ShowsUntilRelease(job, g, n - 1);
      AfterKeeps(job, g, n - 1);
      RoundShowsExactlyWhen(job, After(job, g, n - 1));
      AfterOnce(job, g, n - 1);
    }
  }

  /** Over a run of the driver, every fault recorded so far shows in its wave's
      state at every point if and only if no round has released a wave at an
      unknown barrier: the release overwrites the state it has just set. */
  lemma {:induction false} FaultsShowExactlyWhen(job: Job, g: Group, n: nat)
    requires Fresh(g)
    ensures (forall m: nat :: m <= n ==> FaultsShow(After(job, g, m))) <==> NeverReleasesUnknown(job, g, n)
  {
    hide Inv, FaultsShow, ReleasesUnknown, NextRound, After;
    FreshIsReady(job, g);
    FreshShows(g);
    if NeverReleasesUnknown(job, g, n) {
      forall m: nat | m <= n ensures FaultsShow(After(job, g, m)) {
        ShowsUntilRelease(job, g, m);
      }
    } else {
      var k: nat :| k < n && ReleasesUnknown(job, After(job, g, k));
      AfterKeeps(job, g, k);
      AfterOnce(job, g, k);
      if FaultsShow(After(job, g, k)) {
        RoundShowsExactlyWhen(job, After(job, g, k));
        assert !FaultsShow(After(job, g, k + 1));
      }
    }
  }

  lemma FreshShows(g: Group)
    requires Fresh(g)
    ensures FaultsShow(g)
  {
  }

  /** What can be seen of the program alone: when every barrier it contains is
      implemented, no run releases a wave at an unknown one. */
  lemma {:induction false} ImplementedNeverReleases(job: Job, g: Group, n: nat)
    requires BarriersImplemented(job)
    ensures NeverReleasesUnknown(job, g, n)
  {
    hide After, TickUpTo, AgreedSite;
  }

  // One wave, every register zero.
  function Lone(): Group {
    Group([EntryWave(Entry(seq(128, i => 0), {}, CLEAR))], Shared(seq(LDS_IMAGE, i => 0), map[]), [])
  }

  /** The program condition is not needed: a bad barrier that is never reached
      hides nothing. */
  lemma {:induction false} UnreachedBarrierIsHarmless(cfg: Config, n: nat) returns (job: Job)
    ensures job.prog == [Instr(EndPgm, None), Instr(Barrier(false), None)] && !BarriersImplemented(job)
    ensures Fresh(Lone()) && FaultsShow(After(job, Lone(), n))
  {
    hide After;
    job := Job([Instr(EndPgm, None), Instr(Barrier(false), None)], cfg, 100);
    assert job.prog[1].op == Barrier(false);
    assert Entered(Lone().waves[0]);
    LoneEndsAt(job, n);
  }

  lemma {:induction false} LoneEndsAt(job: Job, n: nat)
    requires job.prog != [] && job.prog[0].op.EndPgm?
    ensures var a := After(job, Lone(), n).waves;
      |a| == 1 && a[0].fault == NoFault && (a[0].state.Ended? || n == 0)
  {
    hide Step;
    if n == 1 {
      assert After(job, Lone(), 0) == Lone();
      var t := EndStep(job, Lone().waves[0], Lone().shared);
      assert TickUpTo(job, Lone(), 0) == Lone();
      assert Alive(Lone().waves[0]);
      assert !Alive(TickUpTo(job, Lone(), 1).waves[0]);
    } else if n > 1 {
      LoneEndsAt(job, n - 1);
      var h := After(job, Lone(), n - 1);
      assert !SomeAlive(h);
      NobodyTicks(job, h, 1);
    }
  }

  lemma LoneRelease(job: Job)
    requires job.prog != [] && job.prog[0].op == Barrier(false)
    ensures var w := Lone().waves[0];
            NextRound(job, Lone()) == Continue(Lone().(
              waves := [w.(core := w.core.(pc := 1, steps := 1), nBar := 1,
                           barSites := [job.prog[0].address], fault := ReleaseFault)],
              epochs := [job.prog[0].address]))
  {
    hide Step;
    var g := Lone();
    var w := g.waves[0];
    var t := w.(state := Waiting, nBar := 1, barSites := [job.prog[0].address]);
    assert Tick(job, w, g.shared) == Turn(t, g.shared);
    var h := g.(waves := [t]);
    assert TickUpTo(job, g, 0) == g;
    assert TickUpTo(job, g, 1) == h;
    assert Alive(g.waves[0]) && Alive(h.waves[0]);
    assert AllAliveWait(h) && FirstSite(h, 0) == job.prog[0].address && AgreedSite(h, FirstSite(h, 0));
    BarrierStep(job, t.core, h.shared);
    assert ReleaseUpTo(job, h, 0) == h;
  }

  /** So a run can be labelled a success although a fault was recorded. */
  lemma SuccessWithFault(cfg: Config) returns (job: Job)
    ensures job.prog == [Instr(Barrier(false), None), Instr(EndPgm, None)] && job.cfg == cfg
    ensures Fresh(Lone()) && Inv(job, Lone()) && Poised(Lone())
    ensures Finish(job, Lone()).outcome == AllEnded
    ensures |Finish(job, Lone()).last.waves| == 1 && Finish(job, Lone()).last.waves[0].fault == ReleaseFault
  {
    hide NextRound, Step, Potential, Inv, Poised;
    assert Entered(Lone().waves[0]);
    job := Job([Instr(Barrier(false), None), Instr(EndPgm, None)], cfg, 100);
    FreshIsReady(job, Lone());
    LoneRelease(job);
    RoundKeeps(job, Lone());
    RoundLeavesPoised(job, Lone());
    RoundLowers(job, Lone());
    LoneEnds(job, NextRound(job, Lone()).next);
  }

  lemma LoneEnds(job: Job, g: Group)
    requires Inv(job, g) && Poised(g)
    requires |g.waves| == 1 && g.waves[0].state.Runnable? && g.waves[0].stepsDone <= job.stepCap
    requires g.waves[0].core.cycles.NoKeys?
    requires g.waves[0].core.pc < |job.prog| && job.prog[g.waves[0].core.pc].op.EndPgm?
    ensures Finish(job, g).outcome == AllEnded && |Finish(job, g).last.waves| == 1
    ensures Finish(job, g).last.waves[0].fault == g.waves[0].fault
  {
    hide Step, Inv, Poised, Potential;
    var w := g.waves[0];
    var t := EndStep(job, w, g.shared);
    assert TickUpTo(job, g, 0) == g;
    var h := TickUpTo(job, g, 1);
    assert h.waves == [t];
    assert Alive(g.waves[0]) && !Alive(h.waves[0]);
    assert NextRound(job, g) == Continue(h);
    RoundKeeps(job, g);
    RoundLeavesPoised(job, g);
    RoundLowers(job, g);
    NobodyTicks(job, h, 1);
    assert NextRound(job, h) == Stop(AllEnded, h);
  }

  lemma EndStep(job: Job, w: Wave, sh: Shared) returns (t: Wave)
    requires w.state.Runnable? && w.core.cycles.NoKeys? && w.stepsDone <= job.stepCap
    requires w.core.pc < |job.prog| && job.prog[w.core.pc].op.EndPgm?
    ensures Tick(job, w, sh).wave == t && t.state.Ended? && t.fault == w.fault
  {
    t := Tick(job, w, sh).wave;
    Simt.StepIs(job.prog, job.cfg, w.core, sh, EndPgm);
  }
}
