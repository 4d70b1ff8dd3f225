/** Bounded recorders of access streams: exact counts under truncation. */
module Recorders {
  import opened Isa
  import opened Tallies

  datatype Mode = Aggregate | Targeted | Full

  // (store, addr, nbytes, site), with the site and opcode passed beside it.
  datatype Record = Record(store: bool, addr: Option<int>, nbytes: nat, site: Option<nat>)
  datatype Event = Event(rec: Record, opcode: Option<string>, given: Option<nat>)

  function SiteOf(e: Event): Option<nat> {
    if e.given.None? then e.rec.site else e.given
  }

  // A missing site is counted with site 0.
  function KeyOf(e: Event): nat {
    match SiteOf(e) case Some(s) => s case None => 0
  }

  // ---------------- a history, seen as streams ----------------

  function Keys(h: seq<Event>): seq<nat> {
    seq(|h|, i requires 0 <= i < |h| => KeyOf(h[i]))
  }

  // The opcodes of the events that have a non-empty one.
  function Opcodes(h: seq<Event>): seq<string> {
    if h == [] then []
    else
      var last := h[|h| - 1].opcode;
      Opcodes(h[..|h| - 1]) + if last.Some? && last.value != "" then [last.value] else []
  }

  function Writes(h: seq<Event>): nat {
    if h == [] then 0 else Writes(h[..|h| - 1]) + if h[|h| - 1].rec.store then 1 else 0
  }

  function Records(h: seq<Event>): seq<Record> {
    seq(|h|, i requires 0 <= i < |h| => h[i].rec)
  }

  function Selected(h: seq<Event>, targets: set<Option<nat>>): seq<Event> {
    if h == [] then []
    else Selected(h[..|h| - 1], targets) + if SiteOf(h[|h| - 1]) in targets then [h[|h| - 1]] else []
  }

  function Sites(h: seq<Event>): set<Option<nat>> {
    set e | e in h :: SiteOf(e)
  }

  function Lower(m: Option<int>, a: Option<int>): Option<int> {
    if a.None? then m else if m.None? || a.value < m.value then a else m
  }

  function Higher(m: Option<int>, a: Option<int>): Option<int> {
    if a.None? then m else if m.None? || a.value > m.value then a else m
  }

  // The least and greatest address seen so far.
  function Least(h: seq<Event>): Option<int> {
    if h == [] then None else Lower(Least(h[..|h| - 1]), h[|h| - 1].rec.addr)
  }

  function Greatest(h: seq<Event>): Option<int> {
    if h == [] then None else Higher(Greatest(h[..|h| - 1]), h[|h| - 1].rec.addr)
  }

  /** The bounds hold of every address in the history. */
  lemma {:induction false} BoundsHold(h: seq<Event>, i: nat)
    requires i < |h| && h[i].rec.addr.Some?
    ensures Least(h).Some? && Least(h).value <= h[i].rec.addr.value
    ensures Greatest(h).Some? && Greatest(h).value >= h[i].rec.addr.value
  {
    if i < |h| - 1 {
      BoundsHold(h[..|h| - 1], i);
    }
  }

  // a is b with some elements left out.
  predicate Subsequence(a: seq<Event>, b: seq<Event>) {
    if a == [] then true
    else if b == [] then false
    else if a[|a| - 1] == b[|b| - 1] && Subsequence(a[..|a| - 1], b[..|b| - 1]) then true
    else Subsequence(a, b[..|b| - 1])
  }

  lemma {:induction false} SubsequenceGrows(a: seq<Event>, b: seq<Event>, e: Event)
    requires Subsequence(a, b)
    ensures Subsequence(a, b + [e]) && Subsequence(a + [e], b + [e])
  {
    assert (b + [e])[..|b|] == b && (a + [e])[..|a|] == a;
  }

  // These records of these events, out of the history.
  ghost predicate KeptOf(mode: Mode, targets: set<Option<nat>>, sampleCap: int, h: seq<Event>, chosen: seq<Event>, kept: seq<Record>) {
    && kept == Records(chosen)
    && match mode
       case Full => chosen == h
       case Targeted => chosen == Selected(h, targets)
       case Aggregate =>
         && Subsequence(chosen, h)
         && Sites(chosen) == Sites(h)
         && |kept| <= (if sampleCap > 0 then sampleCap else 0) + |Sites(h)|
  }

  // Whether the mode keeps an event.
  predicate Keeps(mode: Mode, targets: set<Option<nat>>, sampleCap: int, kept: nat, sites: set<Option<nat>>, s: Option<nat>) {
    match mode
    case Full => true
    case Targeted => s in targets
    case Aggregate => kept < sampleCap || s !in sites
  }

  lemma KeepNext(mode: Mode, targets: set<Option<nat>>, sampleCap: int, h: seq<Event>, chosen: seq<Event>, kept: seq<Record>, e: Event)
    requires KeptOf(mode, targets, sampleCap, h, chosen, kept)
    ensures if Keeps(mode, targets, sampleCap, |kept|, Sites(chosen), SiteOf(e))
      then KeptOf(mode, targets, sampleCap, h + [e], chosen + [e], kept + [e.rec])
      else KeptOf(mode, targets, sampleCap, h + [e], chosen, kept)
    ensures Sites(chosen + [e]) == Sites(chosen) + {SiteOf(e)}
  {
    hide Subsequence, Selected, Sites, Records;
    KeptGrows(chosen, h, e, targets);
    SetGrows(Sites(h), SiteOf(e));
  }

  lemma SetGrows<T>(s: set<T>, x: T)
    ensures |s| <= |s + {x}| && (x in s ==> s + {x} == s) && (x !in s ==> |s + {x}| == |s| + 1)
  {
    if x in s {
      assert s + {x} == s;
    }
  }

  // ---------------- the recorder ----------------

  class AccessRecorder {
    const mode: Mode
    const targets: set<Option<nat>>
    const sampleCap: int
    const maxEvents: int
    var n: nat
    var nRead: nat
    var nWrite: nat
    var addrMin: Option<int>
    var addrMax: Option<int>
    var byPc: map<nat, nat>
    var byOpcode: map<string, nat>
    var kept: seq<Record>
    var seenSites: set<Option<nat>>
    var eventsKept: nat
    var eventsDropped: nat
    ghost var history: seq<Event>     // every event accepted
    ghost var keptEvents: seq<Event>

    /** The totals describe the whole history, whatever was kept of it. */
    ghost predicate Exact()
      reads `n, `nRead, `nWrite, `addrMin, `addrMax, `byPc, `byOpcode, `history
    {
      && n == |history| && nWrite == Writes(history) && nRead + nWrite == n
      && addrMin == Least(history) && addrMax == Greatest(history)
      && Counts(byPc, Keys(history)) && Counts(byOpcode, Opcodes(history))
    }

    /** What was kept, by mode. */
    ghost predicate Kept()
      reads this
    {
      && seenSites == Sites(keptEvents) && eventsKept == |kept| && eventsKept + eventsDropped == n
      && (mode.Full? && n > 0 ==> n <= maxEvents)
      && KeptOf(mode, targets, sampleCap, history, keptEvents, kept)
    }

    ghost predicate Valid()
      reads this
    {
      Exact() && Kept()
    }

    constructor (mode: Mode, targets: set<Option<nat>>, sampleCap: int, maxEvents: int)
      ensures Valid() && history == []
      ensures this.mode == mode && this.targets == targets && this.sampleCap == sampleCap && this.maxEvents == maxEvents
    {
      this.mode, this.targets, this.sampleCap, this.maxEvents := mode, targets, sampleCap, maxEvents;
      n, nRead, nWrite := 0, 0, 0;
      addrMin, addrMax := None, None;
      byPc, byOpcode, kept, seenSites := map[], map[], [], {};
      eventsKept, eventsDropped := 0, 0;
      history, keptEvents := [], [];
      new;
      NothingCounted<nat>();
      NothingCounted<string>();
    }

    /** Appends an event, or refuses it when a full trace has used up its
        budget; then nothing changes. */
    method Append(e: Event) returns (accepted: bool, keep: bool)
      requires Valid()
      modifies this
      ensures Valid()
      ensures accepted == !(mode.Full? && old(n) >= maxEvents)
      ensures history == if accepted then old(history) + [e] else old(history)
      ensures !accepted ==> unchanged(this)
      ensures keep ==> accepted && kept == old(kept) + [e.rec]
      ensures !keep ==> kept == old(kept)
    {
      hide Counts, Sites, KeptOf, Exact;
      accepted, keep := true, false;
      if mode.Full? && n >= maxEvents {
        accepted := false;
        return;
      }
      KeepNext(mode, targets, sampleCap, history, keptEvents, kept, e);
      CountEvent(e);
      var s := SiteOf(e);
      keep := match mode
        case Full => true
        case Targeted => s in targets
        case Aggregate => |kept| < sampleCap || s !in seenSites;
      if keep {
        kept := kept + [e.rec];
        seenSites := seenSites + {s};
        eventsKept := eventsKept + 1;
        keptEvents := keptEvents + [e];
      } else {
        eventsDropped := eventsDropped + 1;
      }
    }

    // The counters of one event.
    method CountEvent(e: Event)
      requires Exact()
      modifies `n, `nRead, `nWrite, `addrMin, `addrMax, `byPc, `byOpcode, `history
      ensures Exact() && history == old(history) + [e] && n == old(n) + 1
    {
      hide Counts, Keys, Writes, Opcodes, Least, Greatest, KeyOf, Lower, Higher;
      StreamsGrow(history, e);
      OneMore(byPc, Keys(history), KeyOf(e));
      n := n + 1;
      if e.rec.store {
        nWrite := nWrite + 1;
      } else {
        nRead := nRead + 1;
      }
      Bound(e.rec.addr);
      byPc := byPc[KeyOf(e) := Of(byPc, KeyOf(e)) + 1];
      CountOpcode(e.opcode, Opcodes(history));
      history := history + [e];
    }

    method Bound(addr: Option<int>)
      modifies `addrMin, `addrMax
      ensures addrMin == Lower(old(addrMin), addr) && addrMax == Higher(old(addrMax), addr)
    {
      if addr.Some? {
        var a := addr.value;
        if addrMin.None? || a < addrMin.value {
          addrMin := Some(a);
        }
        if addrMax.None? || a > addrMax.value {
          addrMax := Some(a);
        }
      }
    }

    method CountOpcode(opcode: Option<string>, ghost before: seq<string>)
      requires Counts(byOpcode, before)
      modifies `byOpcode
      ensures Counts(byOpcode, if opcode.Some? && opcode.value != "" then before + [opcode.value] else before)
    {
      hide Counts;
      if opcode.Some? && opcode.value != "" {
        OneMore(byOpcode, before, opcode.value);
        byOpcode := byOpcode[opcode.value := Of(byOpcode, opcode.value) + 1];
      }
    }
  }

  lemma StreamsGrow(h: seq<Event>, e: Event)
    ensures Keys(h + [e]) == Keys(h) + [KeyOf(e)]
    ensures Writes(h + [e]) == Writes(h) + if e.rec.store then 1 else 0
    ensures Opcodes(h + [e])
      == if e.opcode.Some? && e.opcode.value != "" then Opcodes(h) + [e.opcode.value] else Opcodes(h)
    ensures Least(h + [e]) == Lower(Least(h), e.rec.addr) && Greatest(h + [e]) == Higher(Greatest(h), e.rec.addr)
  {
    hide KeyOf;
    assert (h + [e])[..|h|] == h;
  }

  lemma KeptGrows(kept: seq<Event>, h: seq<Event>, e: Event, targets: set<Option<nat>>)
    ensures Records(kept + [e]) == Records(kept) + [e.rec]
    ensures Sites(kept + [e]) == Sites(kept) + {SiteOf(e)} && Sites(h + [e]) == Sites(h) + {SiteOf(e)}
    ensures Selected(h + [e], targets) == Selected(h, targets) + if SiteOf(e) in targets then [e] else []
    ensures Subsequence(kept, h) ==> Subsequence(kept, h + [e]) && Subsequence(kept + [e], h + [e])
  {
    assert (h + [e])[..|h|] == h;
    if Subsequence(kept, h) {
      SubsequenceGrows(kept, h, e);
    }
  }

  /** Under aggregation every site of the history has at least one kept record. */
  lemma {:induction false} EverySiteSampled(r: AccessRecorder, e: Event)
    requires r.Valid() && r.mode.Aggregate? && e in r.history
    ensures exists k: Event :: k in r.keptEvents && SiteOf(k) == SiteOf(e)
  {
    hide Counts, Subsequence;
    assert SiteOf(e) in Sites(r.history);
  }

  /** The counts per program counter and the reads and writes add up to all
      events, kept or dropped. */
  lemma {:induction false} TotalsAgree(r: AccessRecorder)
    requires r.Valid()
    ensures Total(r.byPc) == r.n == r.nRead + r.nWrite == r.eventsKept + r.eventsDropped == |r.history|
  {
    hide Subsequence, Selected, Total;
  }

  // ---------------- the counting list ----------------

  class AggRecords<T> {
    const cap: nat
    var n: nat
    var sample: seq<T>
    ghost var history: seq<T>

    /** The sample is the first records, up to the cap; the count is exact. */
    ghost predicate Valid()
      reads this
    {
      n == |history| && sample == history[..if n < cap then n else cap]
    }

    constructor (cap: nat)
      ensures Valid() && history == [] && this.cap == cap
    {
      this.cap, n, sample, history := cap, 0, [], [];
    }

    method Append(rec: T)
      requires Valid()
      modifies this
      ensures Valid() && history == old(history) + [rec]
    {
      n := n + 1;
      if |sample| < cap {
        sample := sample + [rec];
      }
      history := history + [rec];
    }

    function Dropped(): int
      reads this
    {
      n - |sample|
    }
  }

  /** Nothing is dropped below the cap, and exactly the excess above it. */
  lemma {:induction false} DroppedExactly<T>(a: AggRecords<T>)
    requires a.Valid()
    ensures a.Dropped() == if |a.history| <= a.cap then 0 else |a.history| - a.cap
    ensures a.Dropped() == 0 <==> a.sample == a.history
  {
  }
}
