/** The driver as it runs: wave records and cores updated in place by a loop of
    rounds under a cap.  It is proved to compute exactly the run that Workgroup
    describes, so every theorem about runs is a theorem about the driver. */
module WorkgroupDriver {
  import opened Words
  import opened Isa
  import C = CoreSpec
  import opened EmulatorCore
  import opened Workgroup
  import opened WorkgroupSafety

  class WaveRecord {
    const core: WaveCore
    var state: WaveState
    var nBar: nat
    var barSites: seq<Site>
    var fault: Fault
    var stepsDone: nat

    ghost function Value(): Wave
      reads this, core
    {
      Wave(core.Value(), state, nBar, barSites, fault, stepsDone)
    }

    ghost predicate Serves(job: Job, memories: Memories) {
      core.prog == job.prog && core.cfg == job.cfg && core.shared == memories && memories.Valid()
    }

    constructor (job: Job, memories: Memories, entry: Entry)
      requires memories.Valid()
      ensures Serves(job, memories) && fresh(core)
      ensures Value() == EntryWave(entry)
    {
      core := new WaveCore(job.prog, job.cfg, memories, EntryCore(entry));
      state, nBar, barSites, fault, stepsDone := Runnable, 0, [], NoFault, 0;
    }

    // What the driver makes of a step that came back with this signal.
    method Settle(job: Job, signal: C.Signal, ghost r: C.Stepped)
      requires state == Runnable && r.core == core.Value() && r.signal == signal
      modifies `state, `fault, `stepsDone
      ensures Value() == Workgroup.Settle(job, old(Value()), r)
    {
      match signal {
        case Fine =>
          stepsDone := stepsDone + 1;
          if core.terminated {
            state := Ended;
          }
        case End => state := Ended;
        case NotImplemented => state, fault := Faulted, NotImplementedFault;
        case _ =>
          if core.terminated {
            state := Ended;
          } else {
            state, fault := Faulted, Halted(signal);
          }
      }
      if stepsDone > job.stepCap {
        state, fault := Faulted, StepCap;
      }
    }

    /** One wave's turn in a round. */
    method Turn(job: Job, memories: Memories) returns (active: bool)
      requires Serves(job, memories)
      modifies this, core, memories, memories.lds
      ensures active == Alive(old(Value()))
      ensures var t := Tick(job, old(Value()), old(memories.Value())); Value() == t.wave && memories.Value() == t.shared
    {
      hide C.Step, Workgroup.Settle;
      if state == Ended || state == Faulted {
        return false;
      }
      active := true;
      if state == Waiting {
        return;
      }
      if core.pc >= |core.prog| {
        state, fault := Faulted, OverranProgram;
        return;
      }
      if core.prog[core.pc].op.Barrier? {
        state, nBar, barSites := Waiting, nBar + 1, barSites + [core.prog[core.pc].address];
        return;
      }
      ghost var w, sh := Value(), memories.Value();
      var signal := core.Step();
      ghost var r := C.Step(job.prog, job.cfg, w.core, sh);
      SettleTakesCore(job, w, r);
      Settle(job, signal, r);
    }

    // Releasing a wave executes its barrier instruction; whatever that raises,
    // the wave is runnable again.
    method Release(job: Job, memories: Memories)
      requires Serves(job, memories)
      modifies this, core, memories, memories.lds
      ensures var t := ReleaseWave(job, old(Value()), old(memories.Value()));
        Value() == t.wave && memories.Value() == t.shared
    {
      hide C.Step;
      if state == Ended || state == Faulted {
        return;
      }
      var signal := core.Step();
      if signal.Fine? {
        stepsDone := stepsDone + 1;
      } else {
        state, fault := Faulted, ReleaseFault;
      }
      state := Runnable;
    }
  }

  class Driver {
    const job: Job
    const memories: Memories
    var waves: seq<WaveRecord>
    var epochs: seq<Site>
    var ticks: nat

    // The records and everything under them.
    ghost function Repr(): set<object>
      reads this
    {
      (set i | 0 <= i < |waves| :: waves[i] as object) + (set i | 0 <= i < |waves| :: waves[i].core as object)
      + {memories, memories.lds}
    }

    ghost predicate Valid()
      reads this
    {
      && memories.Valid()
      && (forall i: nat :: i < |waves| ==> waves[i].Serves(job, memories))
      && (forall i: nat, j: nat :: i < j < |waves| ==> waves[i] != waves[j] && waves[i].core != waves[j].core)
    }

    ghost function Value(): Group
      requires memories.Valid()
      reads this, Repr()
    {
      Group(seq(|waves|, i requires 0 <= i < |waves| reads this, Repr() => waves[i].Value()), memories.Value(), epochs)
    }

    // Every wave starts from its own entry registers, with cycle detection off.
    constructor (job: Job, mem: C.Memory, entries: seq<Entry>)
      ensures Valid() && fresh(Repr()) && this.job == job && ticks == 0
      ensures Fresh(Value()) && |Value().waves| == |entries|
      ensures forall i: nat :: i < |entries| ==> Value().waves[i] == EntryWave(entries[i])
      ensures Value().shared == C.Shared(seq(C.LDS_IMAGE, i => 0), mem)
    {
      this.job := job;
      var shared := new Memories(mem);
      memories := shared;
      var built := Build(job, shared, entries);
      waves, epochs, ticks := built, [], 0;
    }

    static method Build(job: Job, memories: Memories, entries: seq<Entry>) returns (waves: seq<WaveRecord>)
      requires memories.Valid()
      ensures |waves| == |entries|
      ensures forall i: nat :: i < |waves| ==> Built(job, memories, waves[i], entries[i])
      ensures forall i: nat :: i < |waves| ==> fresh(waves[i]) && fresh(waves[i].core)
      ensures forall i: nat, j: nat :: i < j < |waves| ==> waves[i] != waves[j] && waves[i].core != waves[j].core
    {
      hide WaveRecord.Serves, WaveRecord.Value;
      waves := [];
      for n := 0 to |entries|
        invariant |waves| == n
        invariant forall i: nat :: i < n ==> Built(job, memories, waves[i], entries[i])
        invariant forall i: nat :: i < n ==> fresh(waves[i]) && fresh(waves[i].core)
        invariant forall i: nat, j: nat :: i < j < n ==> waves[i] != waves[j] && waves[i].core != waves[j].core
      {
        var w := new WaveRecord(job, memories, entries[n]);
        waves := waves + [w];
      }
    }

    static ghost predicate Built(job: Job, memories: Memories, w: WaveRecord, entry: Entry)
      reads w, w.core
    {
      w.Serves(job, memories) && w.Value() == EntryWave(entry)
    }

    ghost predicate Replaced(was: Group, i: nat, t: Turn)
      requires memories.Valid()
      reads this, Repr()
    {
      i < |was.waves| && Value() == was.(waves := was.waves[i := t.wave], shared := t.shared)
    }

    method TurnOf(i: nat) returns (active: bool)
      requires Valid() && i < |waves|
      modifies waves[i], waves[i].core, memories, memories.lds
      ensures active == Alive(old(Value()).waves[i])
      ensures Replaced(old(Value()), i, Tick(job, old(Value()).waves[i], old(Value()).shared))
    {
      hide Tick, C.Step;
      active := waves[i].Turn(job, memories);
      assert forall j: nat :: j < |waves| && j != i ==> waves[j].Value() == old(waves[j].Value());
    }

    // A turn for every wave, in order.
    method TakeTurns() returns (anyActive: bool)
      requires Valid()
      modifies Repr()
      ensures Value() == TickUpTo(job, old(Value()), |waves|)
      ensures anyActive == SomeAlive(old(Value()))
    {
      hide Tick;
      anyActive := false;
      for i := 0 to |waves|
        invariant Value() == TickUpTo(job, old(Value()), i)
        invariant anyActive == exists j: nat :: j < i && Alive(old(Value()).waves[j])
      {
        TicksLeaveLater(job, old(Value()), i);
        var active := TurnOf(i);
        anyActive := anyActive || active;
      }
    }

    method ReleaseOf(i: nat)
      requires Valid() && i < |waves|
      modifies waves[i], waves[i].core, memories, memories.lds
      ensures Replaced(old(Value()), i, ReleaseWave(job, old(Value()).waves[i], old(Value()).shared))
    {
      hide ReleaseWave, C.Step;
      waves[i].Release(job, memories);
      assert forall j: nat :: j < |waves| && j != i ==> waves[j].Value() == old(waves[j].Value());
    }

    method ReleaseAll()
      requires Valid()
      modifies Repr()
      ensures Value() == ReleaseUpTo(job, old(Value()), |waves|)
    {
      hide ReleaseWave;
      for i := 0 to |waves|
        invariant Value() == ReleaseUpTo(job, old(Value()), i)
      {
        ReleaseOf(i);
      }
    }

    // The last arrival of every alive wave.
    method LastSites() returns (sites: set<Site>)
      requires Valid()
      requires forall i: nat :: i < |waves| && Alive(Value().waves[i]) ==> waves[i].barSites != []
      ensures sites == SitesOf(Value(), |waves|)
    {
      sites := {};
      for i := 0 to |waves|
        invariant sites == SitesOf(Value(), i)
      {
        if waves[i].state == Runnable || waves[i].state == Waiting {
          sites := sites + {waves[i].barSites[|waves[i].barSites| - 1]};
        }
      }
    }

    /** One round; the outcome when the run stops there. */
    method Round() returns (stop: Option<Outcome>)
      requires Valid() && Inv(job, Value())
      modifies Repr(), `epochs
      ensures match NextRound(job, old(Value()))
        case Continue(next) => stop.None? && Value() == next
        case Stop(outcome, last) => stop == Some(outcome) && Value() == last
    {
      hide TickUpTo, ReleaseUpTo, WaveInv, AgreedSite, FirstSite, SitesOf, SomeAlive, AllAliveWait, Verdict;
      TicksKeep(job, Value(), |waves|);
      var anyActive := TakeTurns();
      ghost var h := Value();
      if !anyActive {
        var outcome := Decide();
        return Some(outcome);
      }
      var arrived := AllArrived();
      if !arrived {
        return None;
      }
      ArrivedAtSites(job, h);
      var sites := LastSites();
      OneSite(h);
      if |sites| != 1 {
        return Some(Divergence);
      }
      var site :| site in sites;
      ReleaseAll();
      epochs := epochs + [site];
      return None;
    }

    method Decide() returns (outcome: Outcome)
      requires Valid()
      ensures outcome == Verdict(Value())
    {
      ghost var g := Value();
      assert forall i: nat {:trigger waves[i]} {:trigger g.waves[i]} :: i < |waves| ==>
        g.waves[i].state == waves[i].state;
      if waves == [] {
        return NoWaves;
      }
      if exists i :: 0 <= i < |waves| && waves[i].state == Faulted {
        return SomeFaulted;
      }
      if forall i :: 0 <= i < |waves| ==> waves[i].state == Ended {
        return AllEnded;
      }
      return Stalled;
    }

    method AllArrived() returns (arrived: bool)
      requires Valid()
      ensures arrived == (SomeAlive(Value()) && AllAliveWait(Value()))
    {
      ghost var g := Value();
      assert forall i: nat {:trigger waves[i]} {:trigger g.waves[i]} :: i < |waves| ==>
        g.waves[i].state == waves[i].state;
      var some := exists i :: 0 <= i < |waves| && (waves[i].state == Runnable || waves[i].state == Waiting);
      var all := forall i :: 0 <= i < |waves| ==> waves[i].state != Runnable;
      arrived := some && all;
    }

    /** The driver: rounds until one stops the run or the cap is passed. */
    method Run(roundCap: nat) returns (outcome: Outcome)
      requires Valid() && Inv(job, Value()) && Poised(Value()) && ticks == 0
      modifies this, Repr()
      ensures var r := Finish(job, old(Value()));
        if r.ticks <= roundCap then outcome == r.outcome && ticks == r.ticks && Value() == r.last
        else outcome == RoundCap && ticks == roundCap + 1 && Value() == After(job, old(Value()), roundCap)
    {
      hide Inv, Poised, NextRound, Potential;
      ghost var start := Value();
      while true
        invariant Valid() && ticks <= roundCap && Inv(job, Value()) && Poised(Value())
        invariant Repr() == old(Repr()) && Value() == After(job, start, ticks)
        invariant var r, p := Finish(job, start), Finish(job, Value());
          r.ticks == ticks + p.ticks && r.outcome == p.outcome && r.last == p.last
        decreases roundCap - ticks
      {
        ghost var g := Value();
        RoundKeeps(job, g);
        ticks := ticks + 1;
        assert Value() == g;
        if ticks > roundCap {
          return RoundCap;
        }
        var stop := Round();
        if stop.Some? {
          return stop.value;
        }
        RoundLeavesPoised(job, g);
        RoundLowers(job, g);
      }
    }
  }

  ghost function SitesOf(g: Group, n: nat): set<Site>
    requires n <= |g.waves|
  {
    set i | 0 <= i < n && Alive(g.waves[i]) && g.waves[i].barSites != [] ::
      g.waves[i].barSites[|g.waves[i].barSites| - 1]
  }

  lemma ArrivedAtSites(job: Job, h: Group)
    requires Inv(job, h) && AllAliveWait(h)
    ensures forall i: nat :: i < |h.waves| && Alive(h.waves[i]) ==> h.waves[i].barSites != []
  {
    forall i: nat | i < |h.waves| && Alive(h.waves[i]) ensures h.waves[i].barSites != [] {
      assert WaveInv(job, h.epochs, h.waves[i]);
    }
  }

  lemma SitesAre(h: Group, site: Site)
    ensures site in SitesOf(h, |h.waves|) <==> SomeStands(h, site)
  {
    hide Alive;
    if i: nat :| i < |h.waves| && StandsAt(h.waves[i], site) {
      assert Alive(h.waves[i]) && h.waves[i].barSites != [];
    }
  }

  predicate SomeStands(h: Group, site: Site) {
    exists i: nat :: i < |h.waves| && StandsAt(h.waves[i], site)
  }

  predicate StandsAt(w: Wave, site: Site) {
    Alive(w) && w.barSites != [] && w.barSites[|w.barSites| - 1] == site
  }

  // The set of last arrivals is a singleton exactly when the alive waves agree.
  lemma OneSite(h: Group)
    requires SomeAlive(h)
    requires forall i: nat :: i < |h.waves| && Alive(h.waves[i]) ==> h.waves[i].barSites != []
    ensures |SitesOf(h, |h.waves|)| == 1 <==> AgreedSite(h, FirstSite(h, 0))
    ensures |SitesOf(h, |h.waves|)| == 1 ==> SitesOf(h, |h.waves|) == {FirstSite(h, 0)}
  {
    hide SitesOf, Alive;
    var sites, site := SitesOf(h, |h.waves|), FirstSite(h, 0);
    forall s: Site ensures s in sites <==> SomeStands(h, s) { SitesAre(h, s); }
    var i := FirstSiteIsSome(h, 0);
    assert StandsAt(h.waves[i], site);
    if |sites| == 1 {
      Singleton(sites, site);
      forall k: nat | k < |h.waves| && Alive(h.waves[k])
        ensures h.waves[k].barSites[|h.waves[k].barSites| - 1] == site
      {
        var last := h.waves[k].barSites[|h.waves[k].barSites| - 1];
        assert StandsAt(h.waves[k], last);
        assert SomeStands(h, last);
        assert last in sites;
      }
    }
    if AgreedSite(h, site) {
      assert sites == {site};
    }
  }

  lemma Singleton<T>(s: set<T>, x: T)
    requires |s| == 1 && x in s
    ensures s == {x}
  {
    assert |s - {x}| == 0;
  }

  // A wave is as it was until its turn comes.
  lemma {:induction false} TicksLeaveLater(job: Job, g: Group, n: nat)
    requires n <= |g.waves|
    ensures forall j: nat :: n <= j < |g.waves| ==> TickUpTo(job, g, n).waves[j] == g.waves[j]
  {
    hide Tick;
    if n > 0 {
      TicksLeaveLater(job, g, n - 1);
    }
  }

  // A wave's core is replaced by the stepped one before anything else is decided.
  lemma SettleTakesCore(job: Job, w: Wave, r: C.Stepped)
    ensures Workgroup.Settle(job, w.(core := r.core), r) == Workgroup.Settle(job, w, r)
  {
  }
}
