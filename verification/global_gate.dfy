/** The declared-region gate over global accesses: its verdict and its counts
    are exact whatever the cap on retained records is. */
module GlobalGate {
  import opened Isa
  import opened Tallies

  datatype Region = Region(lo: nat, hi: nat, name: string)

  // One global access; width 0 means the mnemonic's width is not known.
  datatype Access = Access(store: bool, addr: nat, width: nat, site: Option<nat>, wave: nat)

  // What the gate made of an access, when the first nRegions regions were declared.
  datatype Ruling = Unmeasured | Inside | Outside
  datatype Entry = Entry(access: Access, nRegions: nat, ruling: Ruling)

  predicate Holds(r: Region, addr: nat, n: nat) {
    r.lo <= addr && addr + n <= r.hi
  }

  // Some region wholly contains the access.
  predicate Located(regions: seq<Region>, addr: nat, n: nat) {
    exists i: nat :: i < |regions| && Holds(regions[i], addr, n)
  }

  predicate FirstHolder(regions: seq<Region>, i: nat, addr: nat, n: nat) {
    i < |regions| && Holds(regions[i], addr, n) && forall j: nat :: j < i ==> !Holds(regions[j], addr, n)
  }

  function Rule(regions: seq<Region>, a: Access): Ruling {
    if a.width == 0 then Unmeasured else if Located(regions, a.addr, a.width) then Inside else Outside
  }

  function KeyOf(site: Option<nat>): nat {
    match site case Some(s) => s case None => 0
  }

  // ---------------- counts over a history ----------------

  // Events that were outside, in order.
  function Outsiders(h: seq<Entry>): seq<Access> {
    if h == [] then []
    else Outsiders(h[..|h| - 1]) + if h[|h| - 1].ruling.Outside? then [h[|h| - 1].access] else []
  }

  function OutsideStores(os: seq<Access>): nat {
    if os == [] then 0 else OutsideStores(os[..|os| - 1]) + if os[|os| - 1].store then 1 else 0
  }

  function SitesOf(os: seq<Access>): seq<nat> {
    seq(|os|, i requires 0 <= i < |os| => KeyOf(os[i].site))
  }

  function StoreSites(os: seq<Access>): seq<nat> {
    if os == [] then []
    else StoreSites(os[..|os| - 1]) + if os[|os| - 1].store then [KeyOf(os[|os| - 1].site)] else []
  }

  function WavesOf(os: seq<Access>): seq<nat> {
    seq(|os|, i requires 0 <= i < |os| => os[i].wave)
  }

  function Measured(h: seq<Entry>, store: bool): nat {
    if h == [] then 0
    else
      var e := h[|h| - 1];
      Measured(h[..|h| - 1], store) + if !e.ruling.Unmeasured? && e.access.store == store then 1 else 0
  }

  function UnmeasuredCount(h: seq<Entry>): nat {
    if h == [] then 0 else UnmeasuredCount(h[..|h| - 1]) + if h[|h| - 1].ruling.Unmeasured? then 1 else 0
  }

  predicate RuledBy(regions: seq<Region>, e: Entry) {
    e.nRegions <= |regions| && e.ruling == Rule(regions[..e.nRegions], e.access)
  }

  predicate AllRuled(regions: seq<Region>, h: seq<Entry>) {
    forall i: nat :: i < |h| ==> RuledBy(regions, h[i])
  }

  lemma RuledGrows(regions: seq<Region>, h: seq<Entry>, a: Access)
    requires AllRuled(regions, h)
    ensures AllRuled(regions, h + [Entry(a, |regions|, Rule(regions, a))])
  {
    hide Rule;
    assert regions[..|regions|] == regions;
  }

  lemma RegionsGrow(regions: seq<Region>, r: Region, h: seq<Entry>)
    requires AllRuled(regions, h)
    ensures AllRuled(regions + [r], h)
  {
    hide Rule;
    forall i: nat | i < |h| ensures RuledBy(regions + [r], h[i]) {
      assert (regions + [r])[..h[i].nRegions] == regions[..h[i].nRegions];
    }
  }

  class Gate {
    var regions: seq<Region>
    var retained: seq<Access>       // oob_reads and oob_writes together
    var nReads: nat
    var nWrites: nat
    var globalOps: nat
    var unmeasured: nat
    var oobReads: nat
    var oobWrites: nat
    var bySite: map<nat, nat>
    var writesBySite: map<nat, nat>
    var byWave: map<nat, nat>
    const recCap: nat               // 0 means no cap
    var dropped: nat
    ghost var history: seq<Entry>

    ghost predicate Totals()
      reads this
    {
      && globalOps == |history| == nReads + nWrites + unmeasured
      && unmeasured == UnmeasuredCount(history)
      && nReads == Measured(history, false) && nWrites == Measured(history, true)
    }

    ghost predicate Breakdown()
      reads this
    {
      var os := Outsiders(history);
      && oobReads + oobWrites == |os| && oobWrites == OutsideStores(os)
      && Counts(bySite, SitesOf(os)) && Counts(writesBySite, StoreSites(os)) && Counts(byWave, WavesOf(os))
      && |retained| + dropped == |os| && retained <= os
      && (recCap == 0 ==> dropped == 0) && (recCap > 0 ==> |retained| <= recCap)
      && (dropped > 0 ==> |retained| == recCap)
    }

    // Every ruling is the one the regions of its time call for.
    ghost predicate Ruled()
      reads this
    {
      AllRuled(regions, history)
    }

    ghost predicate Valid()
      reads this
    {
      Totals() && Breakdown() && Ruled()
    }

    constructor (recCap: nat)
      ensures Valid() && history == [] && regions == [] && this.recCap == recCap
    {
      regions, retained := [], [];
      nReads, nWrites, globalOps, unmeasured, oobReads, oobWrites, dropped := 0, 0, 0, 0, 0, 0, 0;
      bySite, writesBySite, byWave := map[], map[], map[];
      this.recCap := recCap;
      history := [];
      new;
      NothingCounted<nat>();
    }

    method Declare(lo: nat, size: nat, name: string)
      requires Valid()
      modifies `regions
      ensures Valid() && regions == old(regions) + [Region(lo, lo + size, name)]
    {
      RegionsGrow(regions, Region(lo, lo + size, name), history);
      regions := regions + [Region(lo, lo + size, name)];
    }

    /** The first declared region that wholly contains the bytes. */
    method Locate(addr: nat, n: nat) returns (name: Option<string>)
      ensures name.Some? <==> Located(regions, addr, n)
      ensures name.Some? ==> exists i: nat :: FirstHolder(regions, i, addr, n) && regions[i].name == name.value
    {
      for i := 0 to |regions|
        invariant forall j: nat :: j < i ==> !Holds(regions[j], addr, n)
      {
        if Holds(regions[i], addr, n) {
          assert FirstHolder(regions, i, addr, n);
          return Some(regions[i].name);
        }
      }
      name := None;
    }

    // note: the access has a known width.
    method Note(a: Access) returns (inside: bool)
      requires Valid() && a.width > 0
      modifies this
      ensures Valid() && regions == old(regions)
      ensures inside <==> Located(regions, a.addr, a.width)
      ensures history == old(history) + [Entry(a, |regions|, Rule(regions, a))]
    {
      hide Counts, SitesOf, StoreSites, WavesOf, OutsideStores, Measured, UnmeasuredCount, Outsiders, Located, AllRuled;
      var name := Locate(a.addr, a.width);
      inside := name.Some?;
      ghost var e := Entry(a, |regions|, Rule(regions, a));
      HistoryGrows(history, e);
      globalOps := globalOps + 1;
      if a.store {
        nWrites := nWrites + 1;
      } else {
        nReads := nReads + 1;
      }
      if !inside {
        CountOutside(a);
      }
      RuledGrows(regions, history, a);
      history := history + [e];
    }

    // The accounting of an access outside every region.
    method CountOutside(a: Access)
      requires Breakdown()
      modifies `retained, `oobReads, `oobWrites, `bySite, `writesBySite, `byWave, `dropped
      ensures var os := Outsiders(history) + [a];
        && oobReads + oobWrites == |os| && oobWrites == OutsideStores(os)
        && Counts(bySite, SitesOf(os)) && Counts(writesBySite, StoreSites(os)) && Counts(byWave, WavesOf(os))
        && |retained| + dropped == |os| && retained <= os
        && (recCap == 0 ==> dropped == 0) && (recCap > 0 ==> |retained| <= recCap)
        && (dropped > 0 ==> |retained| == recCap)
    {
      hide Counts, SitesOf, StoreSites, WavesOf, OutsideStores, Outsiders;
      ghost var os := Outsiders(history);
      OutsidersGrow(os, a);
      var key := KeyOf(a.site);
      OneMore(bySite, SitesOf(os), key);
      OneMore(byWave, WavesOf(os), a.wave);
      bySite := bySite[key := Of(bySite, key) + 1];
      byWave := byWave[a.wave := Of(byWave, a.wave) + 1];
      if a.store {
        oobWrites := oobWrites + 1;
        OneMore(writesBySite, StoreSites(os), key);
        writesBySite := writesBySite[key := Of(writesBySite, key) + 1];
      } else {
        oobReads := oobReads + 1;
      }
      if recCap == 0 || |retained| < recCap {
        assert retained == os;
        retained := retained + [a];
      } else {
        dropped := dropped + 1;
      }
    }

    /** The core's address hook: an access of unknown width fails the gate
        outright instead of escaping it. */
    method OnAccess(a: Access)
      requires Valid()
      modifies this
      ensures Valid() && regions == old(regions)
      ensures history == old(history) + [Entry(a, |regions|, Rule(regions, a))]
    {
      hide Counts, SitesOf, StoreSites, WavesOf, OutsideStores, Measured, UnmeasuredCount, Outsiders, Located, AllRuled;
      if a.width == 0 {
        HistoryGrows(history, Entry(a, |regions|, Unmeasured));
        globalOps := globalOps + 1;
        unmeasured := unmeasured + 1;
        RuledGrows(regions, history, a);
        history := history + [Entry(a, |regions|, Unmeasured)];
      } else {
        var inside := Note(a);
      }
    }

    function Ok(): bool
      reads this
    {
      oobReads == 0 && oobWrites == 0 && unmeasured == 0
    }
  }

  lemma HistoryGrows(h: seq<Entry>, e: Entry)
    ensures Measured(h + [e], true) == Measured(h, true) + if !e.ruling.Unmeasured? && e.access.store then 1 else 0
    ensures Measured(h + [e], false) == Measured(h, false) + if !e.ruling.Unmeasured? && !e.access.store then 1 else 0
    ensures UnmeasuredCount(h + [e]) == UnmeasuredCount(h) + if e.ruling.Unmeasured? then 1 else 0
    ensures Outsiders(h + [e]) == if e.ruling.Outside? then Outsiders(h) + [e.access] else Outsiders(h)
  {
    assert (h + [e])[..|h|] == h;
  }

  lemma OutsidersGrow(os: seq<Access>, a: Access)
    ensures OutsideStores(os + [a]) == OutsideStores(os) + if a.store then 1 else 0
    ensures SitesOf(os + [a]) == SitesOf(os) + [KeyOf(a.site)] && WavesOf(os + [a]) == WavesOf(os) + [a.wave]
    ensures StoreSites(os + [a]) == if a.store then StoreSites(os) + [KeyOf(a.site)] else StoreSites(os)
  {
    assert (os + [a])[..|os|] == os;
  }

  // ---------------- what the verdict means ----------------

  predicate AllInside(h: seq<Entry>) {
    forall i: nat :: i < |h| ==> h[i].ruling.Inside?
  }

  lemma {:induction false} CountsDecide(h: seq<Entry>)
    ensures UnmeasuredCount(h) == 0 && Outsiders(h) == [] <==> AllInside(h)
  {
    if h != [] {
      var rest := h[..|h| - 1];
      CountsDecide(rest);
      assert h[|h| - 1].ruling.Inside? || h[|h| - 1].ruling.Outside? || h[|h| - 1].ruling.Unmeasured?;
      assert forall i: nat :: i < |rest| ==> h[i] == rest[i];
    }
  }

  // The access had a known width and lay wholly inside one of these regions.
  predicate Contained(regions: seq<Region>, a: Access) {
    a.width > 0 && Located(regions, a.addr, a.width)
  }

  /** The gate passes if and only if every access had a known width and lay
      wholly inside one of the regions declared by then, under any cap on
      retained records. */
  lemma {:induction false} OkExactlyWhen(g: Gate)
    requires g.Valid()
    ensures g.Ok() <==> forall i: nat :: i < |g.history| ==>
      g.history[i].nRegions <= |g.regions| && Contained(g.regions[..g.history[i].nRegions], g.history[i].access)
  {
    hide Counts, SitesOf, StoreSites, WavesOf, OutsideStores, Measured, UnmeasuredCount, Outsiders, Located;
    CountsDecide(g.history);
    assert forall i: nat :: i < |g.history| ==> RuledBy(g.regions, g.history[i]);
    if g.Ok() {
      assert forall i: nat :: i < |g.history| ==> g.history[i].ruling.Inside?;
    }
  }

  /** So a passing gate puts every access inside a region of the final list; and
      when all regions are declared first, that is exactly what passing means. */
  lemma {:induction false} OkInFinalRegions(g: Gate)
    requires g.Valid()
    ensures g.Ok() ==> forall i: nat :: i < |g.history| ==> Contained(g.regions, g.history[i].access)
    ensures (forall i: nat :: i < |g.history| ==> g.history[i].nRegions == |g.regions|) ==>
      (g.Ok() <==> forall i: nat :: i < |g.history| ==> Contained(g.regions, g.history[i].access))
  {
    hide Located;
    OkExactlyWhen(g);
    assert g.regions[..|g.regions|] == g.regions;
    forall i: nat | i < |g.history| && g.Ok() ensures Contained(g.regions, g.history[i].access) {
      MoreRegions(g.regions, g.history[i].nRegions, g.history[i].access);
    }
  }

  lemma MoreRegions(regions: seq<Region>, n: nat, a: Access)
    requires n <= |regions| && Contained(regions[..n], a)
    ensures Contained(regions, a)
  {
    var i: nat :| i < n && Holds(regions[..n][i], a.addr, a.width);
    assert Holds(regions[i], a.addr, a.width);
  }

  /** Per-site and per-wave counts add up to the out-of-bounds total, and so do
      retained and dropped records. */
  lemma {:induction false} BreakdownAddsUp(g: Gate)
    requires g.Valid()
    ensures Total(g.bySite) == g.oobReads + g.oobWrites == Total(g.byWave) == |g.retained| + g.dropped
    ensures Total(g.writesBySite) == g.oobWrites
  {
    hide Total, OutsideStores, Measured, UnmeasuredCount, Outsiders, StoreSites;
    StoreSitesCount(Outsiders(g.history));
  }

  lemma {:induction false} StoreSitesCount(os: seq<Access>)
    ensures |StoreSites(os)| == OutsideStores(os)
  {
    if os != [] {
      StoreSitesCount(os[..|os| - 1]);
    }
  }
}
