/** The workgroup driver: a round-robin scheduler over waves that share LDS and
    global memory, with one barrier object.  One round is a function of the
    waves; the driver itself is WorkgroupDriver. */
module Workgroup {
  import opened Words
  import opened Isa
  import opened CoreSpec

  datatype WaveState = Runnable | Waiting | Ended | Faulted

  datatype Fault =
    | NoFault
    | OverranProgram
    | Halted(kind: Signal)
    | NotImplementedFault
    | StepCap
    | ReleaseFault        // the released barrier instruction raised

  type Site = Option<nat>

  datatype Wave = Wave(core: Core, state: WaveState, nBar: nat, barSites: seq<Site>, fault: Fault, stepsDone: nat)

  datatype Group = Group(waves: seq<Wave>, shared: Shared, epochs: seq<Site>)

  // The fixed inputs of a run.
  datatype Job = Job(prog: Program, cfg: Config, stepCap: nat)

  // What fill_entry leaves to choose; everything else a core starts with is fixed.
  datatype Entry = Entry(s: SFile, undef: set<nat>, v: VFile)

  // A core at dispatch: first instruction, every lane active, cycle detection off.
  function EntryCore(e: Entry): Core {
    Core(0, e.s, e.undef, e.v, 0, false, 0xFFFF_FFFF, 0, false, NoKeys)
  }

  function EntryWave(e: Entry): Wave {
    Wave(EntryCore(e), Runnable, 0, [], NoFault, 0)
  }

  predicate Alive(w: Wave) {
    w.state.Runnable? || w.state.Waiting?
  }

  // ---------------- one wave's turn ----------------

  function AtBarrier(job: Job, c: Core): bool {
    c.pc < |job.prog| && job.prog[c.pc].op.Barrier?
  }

  // What the driver makes of a step that came back with this signal.
  function Settle(job: Job, w: Wave, r: Stepped): Wave {
    var stepped := match r.signal
      case Fine =>
        w.(core := r.core, stepsDone := w.stepsDone + 1, state := if r.core.terminated then Ended else Runnable)
      case End => w.(core := r.core, state := Ended)
      case NotImplemented => w.(core := r.core, state := Faulted, fault := NotImplementedFault)
      case _ =>
        if r.core.terminated then w.(core := r.core, state := Ended)
        else w.(core := r.core, state := Faulted, fault := Halted(r.signal));
    if stepped.stepsDone > job.stepCap then stepped.(state := Faulted, fault := StepCap) else stepped
  }

  datatype Turn = Turn(wave: Wave, shared: Shared)

  function Tick(job: Job, w: Wave, sh: Shared): Turn {
    if !w.state.Runnable? then Turn(w, sh)
    else if w.core.pc >= |job.prog| then Turn(w.(state := Faulted, fault := OverranProgram), sh)
    else if AtBarrier(job, w.core) then
      Turn(w.(state := Waiting, nBar := w.nBar + 1, barSites := w.barSites + [job.prog[w.core.pc].address]), sh)
    else
      var r := Step(job.prog, job.cfg, w.core, sh);
      Turn(Settle(job, w, r), r.shared)
  }

  /** The group after the first n waves have had their turn. */
  function TickUpTo(job: Job, g: Group, n: nat): (r: Group)
    requires n <= |g.waves|
    ensures |r.waves| == |g.waves| && r.epochs == g.epochs
  {
    if n == 0 then g
    else
      var h := TickUpTo(job, g, n - 1);
      var t := Tick(job, h.waves[n - 1], h.shared);
      h.(waves := h.waves[n - 1 := t.wave], shared := t.shared)
  }

  // ---------------- the barrier ----------------

  // Releasing a wave executes the barrier instruction; whatever it raises, the
  // wave is made runnable again.
  function ReleaseWave(job: Job, w: Wave, sh: Shared): Turn {
    if !Alive(w) then Turn(w, sh)
    else
      var r := Step(job.prog, job.cfg, w.core, sh);
      var done := if r.signal.Fine? then w.(core := r.core, stepsDone := w.stepsDone + 1)
                  else w.(core := r.core, fault := ReleaseFault);
      Turn(done.(state := Runnable), r.shared)
  }

  function ReleaseUpTo(job: Job, g: Group, n: nat): (r: Group)
    requires n <= |g.waves|
    ensures |r.waves| == |g.waves| && r.epochs == g.epochs
  {
    if n == 0 then g
    else
      var h := ReleaseUpTo(job, g, n - 1);
      var t := ReleaseWave(job, h.waves[n - 1], h.shared);
      h.(waves := h.waves[n - 1 := t.wave], shared := t.shared)
  }

  predicate SomeAlive(g: Group) {
    exists i: nat :: i < |g.waves| && Alive(g.waves[i])
  }

  predicate AllAliveWait(g: Group) {
    forall i: nat :: i < |g.waves| && Alive(g.waves[i]) ==> g.waves[i].state.Waiting?
  }

  // Every alive wave has arrived, and the last site of each is the same.
  predicate AgreedSite(g: Group, site: Site) {
    && SomeAlive(g)
    && forall i: nat :: i < |g.waves| && Alive(g.waves[i]) ==>
         g.waves[i].barSites != [] && g.waves[i].barSites[|g.waves[i].barSites| - 1] == site
  }

  // ---------------- rounds ----------------

  datatype Outcome =
    | RoundCap
    | NoWaves
    | SomeFaulted
    | AllEnded
    | Stalled         // the last arm of the final decision
    | Divergence      // waves arrived at different barrier sites

  datatype Round = Continue(next: Group) | Stop(outcome: Outcome, last: Group)

  function Verdict(g: Group): Outcome {
    if g.waves == [] then NoWaves
    else if exists i: nat :: i < |g.waves| && g.waves[i].state.Faulted? then SomeFaulted
    else if forall i: nat :: i < |g.waves| ==> g.waves[i].state.Ended? then AllEnded
    else Stalled
  }

  // The site of the first alive wave, when there is one.
  function FirstSite(g: Group, n: nat): Site
    requires n <= |g.waves|
    decreases |g.waves| - n
  {
    if n == |g.waves| then None
    else if Alive(g.waves[n]) && g.waves[n].barSites != [] then g.waves[n].barSites[|g.waves[n].barSites| - 1]
    else FirstSite(g, n + 1)
  }

  /** One round: a turn for every wave, then the barrier check. */
  function NextRound(job: Job, g: Group): Round {
    var h := TickUpTo(job, g, |g.waves|);
    if !SomeAlive(g) then Stop(Verdict(h), h)
    else if SomeAlive(h) && AllAliveWait(h) then
      var site := FirstSite(h, 0);
      if AgreedSite(h, site) then Continue(ReleaseUpTo(job, h, |h.waves|).(epochs := h.epochs + [site]))
      else Stop(Divergence, h)
    else Continue(h)
  }
}
