/** The eight-wave probe kernel under every interleaving: each thread writes its
    window, meets a barrier, checks its neighbour's window, meets a barrier. */
module BarrierProbe {
  import opened Words

  const WAVES: nat := 8
  const THREADS: nat := 256
  const SLICE: nat := 8
  const BUFFER: nat := 3908

  // A thread counts the barriers it has left; an even count writes, an odd one reads.
  datatype Thread = Thread(epoch: nat, j: nat, waiting: bool, mismatch: nat)

  type Buffer = b: seq<Word> | |b| == BUFFER witness seq(3908, i => 0)
  type Threads = t: seq<Thread> | |t| == THREADS witness seq(256, i => Thread(0, 0, false, 0))

  datatype State = State(buf: Buffer, ts: Threads)

  function WaveOf(t: nat): nat {
    t / LANES
  }

  function LaneOf(t: nat): nat {
    t % LANES
  }

  // 0xE0000000 | phase << 20 | wave << 16 | lane << 8 | j
  function Pat(phase: nat, wave: nat, lane: nat, j: nat): Word {
    0xE000_0000 | (Trunc(phase) << 20) | (Trunc(wave) << 16) | (Trunc(lane) << 8) | Trunc(j)
  }

  // Word j of the thread's slice of its wave's window.
  function Slot(wave: nat, lane: nat, j: nat): nat {
    wave * 256 + lane * 8 + j
  }

  function NextWave(wave: nat): nat {
    (wave + 1) % WAVES
  }

  // The thread whose slice thread t checks.
  function Neighbour(t: nat): nat {
    NextWave(WaveOf(t)) * LANES + LaneOf(t)
  }

  /** Everybody has arrived at barrier number e. */
  predicate AllArrived(ts: Threads, e: nat) {
    forall t: nat :: t < THREADS ==> ts[t].epoch > e || (ts[t].epoch == e && ts[t].waiting)
  }

  /** One step of thread t: one word written or checked, an arrival, or a
      departure once everybody has arrived. */
  function Step(phases: nat, s: State, t: nat): State
    requires t < THREADS
  {
    var me := s.ts[t];
    var phase := me.epoch / 2;
    if me.epoch >= 2 * phases then s
    else if me.waiting then
      if AllArrived(s.ts, me.epoch) then s.(ts := s.ts[t := Thread(me.epoch + 1, 0, false, me.mismatch)]) else s
    else if me.j >= SLICE then s.(ts := s.ts[t := me.(waiting := true)])
    else if me.epoch % 2 == 0 then
      SlotFits(t, me.j);
      s.(buf := s.buf[Slot(WaveOf(t), LaneOf(t), me.j) := Pat(phase, WaveOf(t), LaneOf(t), me.j)],
         ts := s.ts[t := me.(j := me.j + 1)])
    else
      NeighbourFits(t);
      SlotFits(Neighbour(t), me.j);
      var seen := s.buf[Slot(NextWave(WaveOf(t)), LaneOf(t), me.j)];
      var wanted := Pat(phase, NextWave(WaveOf(t)), LaneOf(t), me.j);
      s.(ts := s.ts[t := me.(j := me.j + 1, mismatch := me.mismatch + if seen != wanted then 1 else 0)])
  }

  lemma SlotFits(t: nat, j: nat)
    requires t < THREADS && j < SLICE
    ensures Slot(WaveOf(t), LaneOf(t), j) == 8 * t + j < BUFFER
  {
  }

  lemma NeighbourFits(t: nat)
    requires t < THREADS
    ensures Neighbour(t) < THREADS && Neighbour(t) != t
    ensures WaveOf(Neighbour(t)) == NextWave(WaveOf(t)) && LaneOf(Neighbour(t)) == LaneOf(t)
  {
  }

  function Run(phases: nat, s: State, schedule: seq<nat>): State
    requires forall k: nat :: k < |schedule| ==> schedule[k] < THREADS
  {
    if schedule == [] then s
    else Step(phases, Run(phases, s, schedule[..|schedule| - 1]), schedule[|schedule| - 1])
  }

  // ---------------- the invariant ----------------

  // The phase whose pattern word j of this thread's slice holds, plus one; 0 before the first.
  function Written(me: Thread, j: nat): nat {
    if me.epoch % 2 == 1 || j < me.j then me.epoch / 2 + 1 else me.epoch / 2
  }

  predicate SliceHolds(s: State, t: nat, j: nat)
    requires t < THREADS && j < SLICE
  {
    8 * t + j < BUFFER && (Written(s.ts[t], j) > 0 ==>
      s.buf[8 * t + j] == Pat(Written(s.ts[t], j) - 1, WaveOf(t), LaneOf(t), j))
  }

  // Nobody is more than one barrier ahead, and then only of those that wait there.
  predicate InStep(a: Thread, b: Thread) {
    a.epoch <= b.epoch || (a.epoch == b.epoch + 1 && b.waiting)
  }

  predicate Inv(phases: nat, s: State) {
    && (forall t: nat :: t < THREADS ==> Sane(phases, s.ts[t]))
    && (forall t: nat, u: nat :: t < THREADS && u < THREADS ==> InStep(s.ts[t], s.ts[u]))
    && (forall t: nat, j: nat :: t < THREADS && j < SLICE ==> SliceHolds(s, t, j))
  }

  predicate Sane(phases: nat, me: Thread) {
    me.epoch <= 2 * phases && me.j <= SLICE && (me.waiting ==> me.j == SLICE) && me.mismatch == 0
    && (me.epoch == 2 * phases ==> me.j == 0 && !me.waiting)
  }

  predicate Initial(s: State) {
    forall t: nat :: t < THREADS ==> s.ts[t] == Thread(0, 0, false, 0)
  }

  lemma InitialInv(phases: nat, s: State)
    requires Initial(s)
    ensures Inv(phases, s)
  {
  }

  /** What a reading thread sees is the current phase's pattern. */
  lemma {:induction false} ReadIsCurrent(phases: nat, s: State, t: nat)
    requires Inv(phases, s) && t < THREADS
    requires var me := s.ts[t]; me.epoch < 2 * phases && !me.waiting && me.j < SLICE && me.epoch % 2 == 1
    ensures Neighbour(t) < THREADS && 8 * Neighbour(t) + s.ts[t].j < BUFFER
    ensures s.buf[8 * Neighbour(t) + s.ts[t].j]
      == Pat(s.ts[t].epoch / 2, NextWave(WaveOf(t)), LaneOf(t), s.ts[t].j)
  {
    hide Pat, WaveOf, LaneOf, NextWave;
    NeighbourFits(t);
    var n, me := Neighbour(t), s.ts[t];
    assert InStep(s.ts[n], me) && InStep(me, s.ts[n]);
    assert Sane(phases, s.ts[n]);
    assert SliceHolds(s, n, me.j);
  }

  // Who else a step of t concerns: only t changes, and only its own slice.
  lemma {:induction false} StepKeeps(phases: nat, s: State, t: nat)
    requires Inv(phases, s) && t < THREADS
    ensures Inv(phases, Step(phases, s, t))
  {
    hide Pat, Slot, WaveOf, LaneOf, NextWave, Neighbour, AllArrived, Sane, SliceHolds, InStep;
    var s' := Step(phases, s, t);
    OnlyMine(phases, s, t);
    ThreadStaysSane(phases, s, t);
    forall u: nat | u < THREADS ensures Sane(phases, s'.ts[u]) {
      if u != t { assert Sane(phases, s.ts[u]); }
    }
    forall a: nat, b: nat | a < THREADS && b < THREADS ensures InStep(s'.ts[a], s'.ts[b]) {
      StaysInStep(phases, s, t, a, b);
    }
    forall u: nat, j: nat | u < THREADS && j < SLICE ensures SliceHolds(s', u, j) {
      SliceStays(phases, s, t, u, j);
    }
  }

  lemma OnlyMine(phases: nat, s: State, t: nat)
    requires t < THREADS
    ensures forall u: nat :: u < THREADS && u != t ==> Step(phases, s, t).ts[u] == s.ts[u]
  {
    hide Pat, Slot, WaveOf, LaneOf, NextWave, Neighbour, AllArrived;
  }

  lemma ThreadStaysSane(phases: nat, s: State, t: nat)
    requires Inv(phases, s) && t < THREADS
    ensures Sane(phases, Step(phases, s, t).ts[t])
  {
    hide Pat, WaveOf, LaneOf, NextWave, AllArrived, SliceHolds, InStep;
    var me := s.ts[t];
    assert Sane(phases, me);
    if me.epoch < 2 * phases && !me.waiting && me.j < SLICE && me.epoch % 2 == 1 {
      ReadIsCurrent(phases, s, t);
      NeighbourFits(t);
      SlotFits(Neighbour(t), me.j);
    }
  }

  lemma StaysInStep(phases: nat, s: State, t: nat, a: nat, b: nat)
    requires Inv(phases, s) && t < THREADS && a < THREADS && b < THREADS
    ensures InStep(Step(phases, s, t).ts[a], Step(phases, s, t).ts[b])
  {
    hide Pat, Slot, WaveOf, LaneOf, NextWave, Neighbour, SliceHolds, Sane;
    OnlyMine(phases, s, t);
    assert InStep(s.ts[a], s.ts[b]) && InStep(s.ts[t], s.ts[b]) && InStep(s.ts[b], s.ts[a]) && InStep(s.ts[b], s.ts[t]);
    assert Sane(phases, s.ts[b]) && Sane(phases, s.ts[t]);
  }

  lemma SliceStays(phases: nat, s: State, t: nat, u: nat, j: nat)
    requires Inv(phases, s) && t < THREADS && u < THREADS && j < SLICE
    ensures SliceHolds(Step(phases, s, t), u, j)
  {
    hide Pat, AllArrived, InStep, NextWave, Neighbour;
    assert SliceHolds(s, u, j) && Sane(phases, s.ts[t]);
    var me := s.ts[t];
    if me.epoch < 2 * phases && !me.waiting && me.j < SLICE && me.epoch % 2 == 0 {
      SlotFits(t, me.j);
    }
  }

  /** Under every schedule, for any number of phases and any initial buffer, no
      thread ever counts a mismatch. */
  lemma {:induction false} NoMismatch(phases: nat, s: State, schedule: seq<nat>)
    requires Initial(s) && forall k: nat :: k < |schedule| ==> schedule[k] < THREADS
    ensures Inv(phases, Run(phases, s, schedule))
    ensures forall t: nat :: t < THREADS ==> Run(phases, s, schedule).ts[t].mismatch == 0
  {
    hide Step, SliceHolds, InStep;
    if schedule == [] {
      InitialInv(phases, s);
    } else {
      NoMismatch(phases, s, schedule[..|schedule| - 1]);
      StepKeeps(phases, Run(phases, s, schedule[..|schedule| - 1]), schedule[|schedule| - 1]);
    }
  }

  // ---------------- progress ----------------

  predicate Finished(phases: nat, s: State) {
    forall t: nat :: t < THREADS ==> s.ts[t].epoch == 2 * phases
  }

  // The thread that has left the fewest barriers among the first n.
  lemma {:induction false} Slowest(s: State, n: nat) returns (t: nat)
    requires 0 < n <= THREADS
    ensures t < n && forall u: nat :: u < n ==> s.ts[t].epoch <= s.ts[u].epoch
  {
    t := 0;
    if n > 1 {
      t := Slowest(s, n - 1);
      if s.ts[n - 1].epoch < s.ts[t].epoch {
        t := n - 1;
      }
    }
  }

  /** Until every thread has finished, some thread can move. */
  lemma {:induction false} NeverStuck(phases: nat, s: State) returns (t: nat)
    requires Inv(phases, s) && !Finished(phases, s)
    ensures t < THREADS && Step(phases, s, t) != s
  {
    hide Pat, Slot, WaveOf, LaneOf, NextWave, Neighbour, SliceHolds, InStep;
    t := Slowest(s, THREADS);
    var e := s.ts[t].epoch;
    var late: nat :| late < THREADS && s.ts[late].epoch != 2 * phases;
    assert Sane(phases, s.ts[late]) && e < 2 * phases;
    if !AllArrived(s.ts, e) {
      var u: nat :| u < THREADS && !(s.ts[u].epoch > e || (s.ts[u].epoch == e && s.ts[u].waiting));
      t := u;
      Moves(phases, s, u);
    } else {
      Moves(phases, s, t);
    }
  }

  lemma Moves(phases: nat, s: State, t: nat)
    requires t < THREADS && s.ts[t].epoch < 2 * phases
    requires s.ts[t].waiting ==> AllArrived(s.ts, s.ts[t].epoch)
    ensures Step(phases, s, t) != s
  {
    hide Pat, Slot, WaveOf, LaneOf, NextWave, Neighbour, AllArrived;
    var me := s.ts[t];
    assert Step(phases, s, t).ts[t] != me;
  }

  // Nine moves of work and one departure per barrier.
  function WorkOf(me: Thread): nat {
    10 * me.epoch + me.j + if me.waiting then 1 else 0
  }

  function Work(ts: Threads, n: nat): nat
    requires n <= THREADS
  {
    if n == 0 then 0 else Work(ts, n - 1) + WorkOf(ts[n - 1])
  }

  lemma {:induction false} WorkUpdate(ts: Threads, t: nat, me: Thread, n: nat)
    requires t < THREADS && n <= THREADS
    ensures Work(ts[t := me], n) == Work(ts, n) + if t < n then WorkOf(me) - WorkOf(ts[t]) else 0
  {
    hide WorkOf;
    if n > 0 {
      WorkUpdate(ts, t, me, n - 1);
    }
  }

  /** Every move is one unit of work, so every schedule that never wastes a
      step finishes after the same number of moves. */
  lemma {:induction false} MovesAreWork(phases: nat, s: State, t: nat)
    requires Inv(phases, s) && t < THREADS
    ensures Step(phases, s, t) == s || Work(Step(phases, s, t).ts, THREADS) == Work(s.ts, THREADS) + 1
  {
    hide Pat, Slot, WaveOf, LaneOf, NextWave, Neighbour, AllArrived, SliceHolds, InStep;
    assert Sane(phases, s.ts[t]);
    var s' := Step(phases, s, t);
    OnlyMine(phases, s, t);
    assert s'.ts == s.ts[t := s'.ts[t]];
    WorkUpdate(s.ts, t, s'.ts[t], THREADS);
  }

  lemma {:induction false} WorkBounded(phases: nat, s: State, n: nat)
    requires Inv(phases, s) && n <= THREADS
    ensures Work(s.ts, n) <= 20 * phases * n
    ensures Work(s.ts, n) == 20 * phases * n <==> forall t: nat :: t < n ==> s.ts[t].epoch == 2 * phases
  {
    hide SliceHolds, InStep;
    if n > 0 {
      WorkBounded(phases, s, n - 1);
      assert Sane(phases, s.ts[n - 1]);
      assert 20 * phases * n == 20 * phases * (n - 1) + 20 * phases;
    }
  }

  // How many steps of a schedule changed anything.
  function MovesMade(phases: nat, s: State, schedule: seq<nat>): (n: nat)
    requires forall k: nat :: k < |schedule| ==> schedule[k] < THREADS
    ensures n <= |schedule|
  {
    if schedule == [] then 0
    else
      var before := Run(phases, s, schedule[..|schedule| - 1]);
      MovesMade(phases, s, schedule[..|schedule| - 1])
      + if Step(phases, before, schedule[|schedule| - 1]) == before then 0 else 1
  }

  lemma {:induction false} WorkIsMoves(phases: nat, s: State, schedule: seq<nat>)
    requires Initial(s) && forall k: nat :: k < |schedule| ==> schedule[k] < THREADS
    ensures Work(Run(phases, s, schedule).ts, THREADS) == MovesMade(phases, s, schedule)
  {
    hide Step, Initial, Inv;
    if schedule == [] {
      NoWork(s, THREADS);
    } else {
      var before := schedule[..|schedule| - 1];
      WorkIsMoves(phases, s, before);
      NoMismatch(phases, s, before);
      MovesAreWork(phases, Run(phases, s, before), schedule[|schedule| - 1]);
    }
  }

  lemma {:induction false} NoWork(s: State, n: nat)
    requires Initial(s) && n <= THREADS
    ensures Work(s.ts, n) == 0
  {
    if n > 0 {
      NoWork(s, n - 1);
    }
  }

  /** Whatever the schedule, the probe has finished exactly when 5120 moves per
      phase have been made, and no schedule makes more. */
  lemma {:induction false} FinishedExactlyWhen(phases: nat, s: State, schedule: seq<nat>)
    requires Initial(s) && forall k: nat :: k < |schedule| ==> schedule[k] < THREADS
    ensures Finished(phases, Run(phases, s, schedule)) <==> MovesMade(phases, s, schedule) == 5120 * phases
    ensures MovesMade(phases, s, schedule) <= 5120 * phases
  {
    hide Inv, Work, Initial, Step, Finished;
    NoMismatch(phases, s, schedule);
    WorkIsMoves(phases, s, schedule);
    WorkBounded(phases, Run(phases, s, schedule), THREADS);
    assert 20 * phases * THREADS == 5120 * phases;
    FinishedMeans(phases, Run(phases, s, schedule));
  }

  lemma FinishedMeans(phases: nat, s: State)
    ensures Finished(phases, s) <==> forall t: nat :: t < THREADS ==> s.ts[t].epoch == 2 * phases
  {
  }

  /** Whatever has happened so far, the run can be completed. */
  lemma {:induction false} CanFinish(phases: nat, s: State, schedule: seq<nat>) returns (full: seq<nat>)
    requires Initial(s) && forall k: nat :: k < |schedule| ==> schedule[k] < THREADS
    ensures schedule <= full && forall k: nat :: k < |full| ==> full[k] < THREADS
    ensures Finished(phases, Run(phases, s, full))
    decreases 5120 * phases - MovesMade(phases, s, schedule)
  {
    hide Inv, Initial, Step, Finished;
    var now := Run(phases, s, schedule);
    FinishedExactlyWhen(phases, s, schedule);
    if Finished(phases, now) {
      full := schedule;
    } else {
      NoMismatch(phases, s, schedule);
      var t := NeverStuck(phases, now);
      var next := schedule + [t];
      assert next[..|schedule|] == schedule;
      FinishedExactlyWhen(phases, s, next);
      full := CanFinish(phases, s, next);
    }
  }

  // ---------------- the kernel, threads stepping one at a time ----------------

  class Group {
    const phases: nat
    const buf: array<Word>
    var ts: Threads

    ghost predicate Valid() {
      buf.Length == BUFFER
    }

    ghost function Value(): State
      requires Valid()
      reads this, buf
    {
      State(buf[..], ts)
    }

    constructor (phases: nat, start: seq<Word>)
      requires |start| == BUFFER
      ensures Valid() && this.phases == phases && fresh(buf) && Initial(Value()) && Value().buf == start
    {
      this.phases := phases;
      buf := new Word[BUFFER](i requires 0 <= i < BUFFER => start[i]);
      ts := seq(THREADS, i => Thread(0, 0, false, 0));
      new;
      assert buf[..] == start;
    }

    /** The next action of thread t, on the shared buffer in place. */
    method StepThread(t: nat)
      requires Valid() && t < THREADS
      modifies `ts, buf
      ensures Value() == Step(phases, old(Value()), t)
    {
      hide Pat, AllArrived, WaveOf, LaneOf, NextWave, Neighbour, Slot;
      var me := ts[t];
      if me.epoch >= 2 * phases {
        return;
      }
      if me.waiting {
        if AllArrived(ts, me.epoch) {
          ts := ts[t := Thread(me.epoch + 1, 0, false, me.mismatch)];
        }
        return;
      }
      if me.j >= SLICE {
        ts := ts[t := me.(waiting := true)];
        return;
      }
      var phase, wave, lane := me.epoch / 2, WaveOf(t), LaneOf(t);
      if me.epoch % 2 == 0 {
        SlotFits(t, me.j);
        buf[Slot(wave, lane, me.j)] := Pat(phase, wave, lane, me.j);
        ts := ts[t := me.(j := me.j + 1)];
      } else {
        NeighbourFits(t);
        SlotFits(Neighbour(t), me.j);
        var next := NextWave(wave);
        var missed := if buf[Slot(next, lane, me.j)] != Pat(phase, next, lane, me.j) then 1 else 0;
        ts := ts[t := me.(j := me.j + 1, mismatch := me.mismatch + missed)];
      }
    }
  }
}
