/** Whole workgroup runs compared: two groups that differ only in undefined
    registers, and one group under two effective-address rules. */
module WorkgroupRelational {
  import opened Words
  import opened Isa
  import opened CoreSpec
  import opened Workgroup
  import opened WorkgroupSafety
  import FailClosed
  import LdsModel

  // ---------------- fail-closed entry registers ----------------

  predicate SameWave(a: Wave, b: Wave) {
    FailClosed.Agree(a.core, b.core) && b == a.(core := b.core)
  }

  predicate SameGroup(g: Group, h: Group) {
    && |g.waves| == |h.waves| && g.shared == h.shared && g.epochs == h.epochs
    && forall i: nat :: i < |g.waves| ==> SameWave(g.waves[i], h.waves[i])
  }

  predicate SameTurn(p: Turn, q: Turn) {
    SameWave(p.wave, q.wave) && p.shared == q.shared
  }

  lemma SettleAgrees(job: Job, a: Wave, b: Wave, p: Stepped, q: Stepped)
    requires SameWave(a, b) && FailClosed.SameStep(p, q)
    ensures SameWave(Settle(job, a, p), Settle(job, b, q))
  {
  }

  lemma TickAgrees(job: Job, a: Wave, b: Wave, sh: Shared)
    requires SameWave(a, b)
    ensures SameTurn(Tick(job, a, sh), Tick(job, b, sh))
  {
    hide Step, Settle;
    FailClosed.StepAgrees(job.prog, job.cfg, a.core, b.core, sh);
    SettleAgrees(job, a, b, Step(job.prog, job.cfg, a.core, sh), Step(job.prog, job.cfg, b.core, sh));
  }

  lemma ReleaseAgrees(job: Job, a: Wave, b: Wave, sh: Shared)
    requires SameWave(a, b)
    ensures SameTurn(ReleaseWave(job, a, sh), ReleaseWave(job, b, sh))
  {
    hide Step;
    FailClosed.StepAgrees(job.prog, job.cfg, a.core, b.core, sh);
  }

  lemma {:induction false} TicksAgree(job: Job, g: Group, h: Group, n: nat)
    requires SameGroup(g, h) && n <= |g.waves|
    ensures SameGroup(TickUpTo(job, g, n), TickUpTo(job, h, n))
  {
    hide Tick, SameWave;
    if n > 0 {
      TicksAgree(job, g, h, n - 1);
      var p, q := TickUpTo(job, g, n - 1), TickUpTo(job, h, n - 1);
      TickAgrees(job, p.waves[n - 1], q.waves[n - 1], p.shared);
    }
  }

  lemma {:induction false} ReleasesAgree(job: Job, g: Group, h: Group, n: nat)
    requires SameGroup(g, h) && n <= |g.waves|
    ensures SameGroup(ReleaseUpTo(job, g, n), ReleaseUpTo(job, h, n))
  {
    hide ReleaseWave, SameWave;
    if n > 0 {
      ReleasesAgree(job, g, h, n - 1);
      var p, q := ReleaseUpTo(job, g, n - 1), ReleaseUpTo(job, h, n - 1);
      ReleaseAgrees(job, p.waves[n - 1], q.waves[n - 1], p.shared);
    }
  }

  // Everything the driver decides on is the same in both groups.
  lemma SameLooks(g: Group, h: Group)
    requires SameGroup(g, h)
    ensures forall i: nat :: i < |g.waves| ==> Alike(g.waves[i], h.waves[i])
    ensures SomeAlive(g) == SomeAlive(h) && AllAliveWait(g) == AllAliveWait(h) && Verdict(g) == Verdict(h)
    ensures forall site :: AgreedSite(g, site) == AgreedSite(h, site)
  {
    hide FailClosed.Agree;
    assert forall i: nat :: i < |g.waves| ==> SameWave(g.waves[i], h.waves[i]);
    assert forall i: nat :: i < |g.waves| ==> Alike(g.waves[i], h.waves[i]);
  }

  predicate Alike(a: Wave, b: Wave) {
    a.state == b.state && a.barSites == b.barSites && a.nBar == b.nBar && a.fault == b.fault && a.stepsDone == b.stepsDone
  }

  lemma {:induction false} SameFirstSite(g: Group, h: Group, n: nat)
    requires |g.waves| == |h.waves| && n <= |g.waves|
    requires forall i: nat :: i < |g.waves| ==> Alike(g.waves[i], h.waves[i])
    ensures FirstSite(g, n) == FirstSite(h, n)
    decreases |g.waves| - n
  {
    if n < |g.waves| {
      SameFirstSite(g, h, n + 1);
      assert Alike(g.waves[n], h.waves[n]);
    }
  }

  predicate SameRound(p: Round, q: Round) {
    match p
    case Continue(g) => q.Continue? && SameGroup(g, q.next)
    case Stop(outcome, g) => q.Stop? && q.outcome == outcome && SameGroup(g, q.last)
  }

  lemma RoundAgrees(job: Job, g: Group, h: Group)
    requires SameGroup(g, h)
    ensures SameRound(NextRound(job, g), NextRound(job, h))
  {
    hide TickUpTo, ReleaseUpTo, SameWave, Verdict, SomeAlive, AllAliveWait, AgreedSite, FirstSite, Alike;
    SameLooks(g, h);
    TicksAgree(job, g, h, |g.waves|);
    var p, q := TickUpTo(job, g, |g.waves|), TickUpTo(job, h, |h.waves|);
    SameLooks(p, q);
    SameFirstSite(p, q, 0);
    ReleasesAgree(job, p, q, |p.waves|);
  }

  lemma ReadyAgrees(job: Job, g: Group, h: Group)
    requires SameGroup(g, h) && Inv(job, g) && Poised(g)
    ensures Inv(job, h) && Poised(h)
  {
    hide SomeAlive, AllAliveWait, BarriersImplemented;
    SameLooks(g, h);
    forall i: nat | i < |h.waves| ensures WaveInv(job, h.epochs, h.waves[i]) {
      assert SameWave(g.waves[i], h.waves[i]) && WaveInv(job, g.epochs, g.waves[i]);
    }
  }

  /** Two whole workgroup runs from entry states that differ only in undefined
      registers: as many rounds, the same outcome and barrier history, the same
      final memory, and waves that still differ only in undefined registers. */
  lemma {:induction false} GroupsAgree(job: Job, g: Group, h: Group)
    requires SameGroup(g, h) && Inv(job, g) && Poised(g)
    ensures Inv(job, h) && Poised(h)
    ensures var p, q := Finish(job, g), Finish(job, h);
            p.ticks == q.ticks && p.outcome == q.outcome && SameGroup(p.last, q.last)
    decreases Total(job, g)
  {
    hide NextRound, SameGroup, Inv, Poised, Potential;
    ReadyAgrees(job, g, h);
    RoundAgrees(job, g, h);
    if NextRound(job, g).Continue? {
      RoundKeeps(job, g);
      RoundLeavesPoised(job, g);
      RoundLowers(job, g);
      GroupsAgree(job, NextRound(job, g).next, NextRound(job, h).next);
    }
  }

  // ---------------- the effective-address rules ----------------

  function Untruncated(job: Job): Job {
    job.(cfg := Config(U32, job.cfg.alloc))
  }

  // The DS access this wave is about to make, if any, is in range.
  predicate TurnInRange(job: Job, w: Wave, sh: Shared) {
    w.state.Runnable? && w.core.pc < |job.prog| && job.prog[w.core.pc].op.Ds? ==>
      LdsModel.DsInRange(job.cfg.alloc, job.prog[w.core.pc].op.ds, w.core.exec, w.core.v, sh.lds)
  }

  predicate TurnsInRange(job: Job, g: Group, n: nat)
    requires n <= |g.waves|
  {
    n > 0 ==>
      && TurnsInRange(job, g, n - 1)
      && var h := TickUpTo(job, g, n - 1);
         TurnInRange(job, h.waves[n - 1], h.shared)
  }

  /** Every DS access of the run is in range. */
  predicate GroupInRange(job: Job, g: Group)
    requires Inv(job, g) && Poised(g)
    decreases Total(job, g)
  {
    && TurnsInRange(job, g, |g.waves|)
    && match NextRound(job, g)
       case Stop(_, _) => true
       case Continue(next) =>
         RoundKeeps(job, g);
         RoundLeavesPoised(job, g);
         RoundLowers(job, g);
         GroupInRange(job, next)
  }

  lemma TickCoincides(job: Job, w: Wave, sh: Shared)
    requires job.cfg.alloc <= 0x4000 && TurnInRange(job, w, sh)
    ensures Tick(job, w, sh) == Tick(Untruncated(job), w, sh)
  {
    hide Step, LdsModel.DsInRange;
    if w.state.Runnable? && w.core.pc < |job.prog| {
      LdsModel.StepCoincides(job.prog, job.cfg, w.core, sh);
    }
  }

  lemma {:induction false} TicksCoincide(job: Job, g: Group, n: nat)
    requires job.cfg.alloc <= 0x4000 && n <= |g.waves| && TurnsInRange(Untruncated(job), g, n)
    ensures TickUpTo(job, g, n) == TickUpTo(Untruncated(job), g, n)
  {
    hide Tick, TurnInRange;
    if n > 0 {
      TicksCoincide(job, g, n - 1);
      var h := TickUpTo(job, g, n - 1);
      assert TurnInRange(job, h.waves[n - 1], h.shared) by { SameRange(job, h.waves[n - 1], h.shared); }
      TickCoincides(job, h.waves[n - 1], h.shared);
    }
  }

  lemma SameRange(job: Job, w: Wave, sh: Shared)
    ensures TurnInRange(job, w, sh) == TurnInRange(Untruncated(job), w, sh)
  {
    hide LdsModel.DsInRange;
  }

  lemma InvCoincides(job: Job, g: Group)
    ensures Inv(job, g) == Inv(Untruncated(job), g)
  {
    assert BarriersImplemented(job) == BarriersImplemented(Untruncated(job));
    assert forall w :: WaveInv(job, g.epochs, w) == WaveInv(Untruncated(job), g.epochs, w);
  }

  lemma ReleaseCoincides(job: Job, epochs: seq<Site>, w: Wave, sh: Shared)
    requires WaveInv(job, epochs, w) && !w.state.Runnable?
    ensures ReleaseWave(job, w, sh) == ReleaseWave(Untruncated(job), w, sh)
  {
    hide Step, BarriersImplemented;
    if Alive(w) {
      BarrierStep(job, w.core, sh);
      BarrierStep(Untruncated(job), w.core, sh);
    }
  }

  lemma {:induction false} ReleasesCoincide(job: Job, g: Group, n: nat)
    requires n <= |g.waves| && Inv(job, g) && AllAliveWait(g)
    ensures ReleaseUpTo(job, g, n) == ReleaseUpTo(Untruncated(job), g, n)
    ensures forall i: nat :: n <= i < |g.waves| ==> ReleaseUpTo(job, g, n).waves[i] == g.waves[i]
  {
    hide ReleaseWave, WaveInv;
    if n > 0 {
      ReleasesCoincide(job, g, n - 1);
      assert !g.waves[n - 1].state.Runnable?;
      var h := ReleaseUpTo(job, g, n - 1);
      ReleaseCoincides(job, g.epochs, g.waves[n - 1], h.shared);
    }
  }

  lemma RoundCoincides(job: Job, g: Group)
    requires job.cfg.alloc <= 0x4000 && Inv(job, g) && TurnsInRange(Untruncated(job), g, |g.waves|)
    ensures NextRound(job, g) == NextRound(Untruncated(job), g)
  {
    hide TickUpTo, ReleaseUpTo, AgreedSite, FirstSite, TurnsInRange, WaveInv;
    TicksCoincide(job, g, |g.waves|);
    TicksKeep(job, g, |g.waves|);
    var h := TickUpTo(job, g, |g.waves|);
    if AllAliveWait(h) {
      ReleasesCoincide(job, h, |h.waves|);
    }
  }

  /** When no access of the untruncated workgroup run is out of range, the
      legacy and the 16-bit runs are that very run, to the last register. */
  lemma {:induction false} GroupsCoincide(job: Job, g: Group)
    requires job.cfg.alloc <= 0x4000 && Inv(Untruncated(job), g) && Poised(g)
    requires GroupInRange(Untruncated(job), g)
    ensures Inv(job, g)
    ensures Finish(job, g) == Finish(Untruncated(job), g)
    decreases Total(Untruncated(job), g)
  {
    hide NextRound, Inv, Poised, Potential, TurnsInRange;
    var u := Untruncated(job);
    InvCoincides(job, g);
    RoundCoincides(job, g);
    match NextRound(u, g)
    case Stop(_, _) =>
    case Continue(next) =>
      RoundKeeps(u, g);
      RoundLeavesPoised(u, g);
      RoundLowers(u, g);
      GroupsCoincide(job, next);
  }
}
