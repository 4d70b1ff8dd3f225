/** The software matrix fragment: registers spread over 32 lanes, a cross-lane
    gather, and paired dot-product steps.  Operands, accumulators and the dot
    product are parameters: whatever they are, infinities, NaNs and rounding
    included, the wave folds each row and column in order.  Over the real
    numbers with an exact dot product that is C + A * B. */
module SoftWmma {
  import opened Words
  import opened Isa
  import opened CoreSpec

  // ---------------- what the registers hold ----------------

  // Eight registers on each of 32 lanes.
  predicate Wave<T>(w: seq<seq<T>>) {
    |w| == 32 && forall l: nat :: l < 32 ==> |w[l]| == 8
  }

  // The output element that lane `lane` keeps in register r.
  function RowOf(lane: nat, r: nat): nat {
    2 * r + if lane >= 16 then 1 else 0
  }

  function ColumnOf(lane: nat): nat {
    lane % 16
  }

  /** Every output element has exactly one owner. */
  lemma OwnershipIsBijective(row: nat, col: nat)
    requires row < 16 && col < 16
    ensures exists lane: nat, r: nat :: lane < 32 && r < 8 && Owns(lane, r, row, col)
    ensures forall lane: nat, r: nat, lane2: nat, r2: nat ::
      lane < 32 && r < 8 && lane2 < 32 && r2 < 8 && Owns(lane, r, row, col) && Owns(lane2, r2, row, col)
      ==> lane == lane2 && r == r2
  {
    assert Owns(col + if row % 2 == 1 then 16 else 0, row / 2, row, col);
  }

  predicate Owns(lane: nat, r: nat, row: nat, col: nat) {
    RowOf(lane, r) == row && ColumnOf(lane) == col
  }

  // Both half-waves hold the same sixteen columns.
  ghost predicate Replicated<P>(b: seq<seq<P>>)
    requires Wave(b)
  {
    forall l: nat :: l < 16 ==> b[l] == b[l + 16]
  }

  // ---------------- the fragment ----------------

  // n steps in order, along a row and a column.
  function Steps<P, A>(dot2: (P, P, A) -> A, a: seq<P>, b: seq<P>, acc: A, n: nat): A
    requires n <= |a| && n <= |b|
  {
    if n == 0 then acc else dot2(a[n - 1], b[n - 1], Steps(dot2, a, b, acc, n - 1))
  }

  // The value lane `source` holds: see ShuffleIsPermute.
  function Shuffle<P>(a: seq<seq<P>>, k: nat, source: nat): P
    requires Wave(a) && k < 8 && source < 32
  {
    a[source][k]
  }

  // Eight registers of every lane from `first` on, each word read as a pair.
  function Registers<P>(v: VFile, first: nat, unpack: Word -> P): (w: seq<seq<P>>)
    requires first + 8 <= 192
    ensures Wave(w)
  {
    seq(32, l requires 0 <= l < 32 => seq(8, k requires 0 <= k < 8 => unpack(v[l][first + k])))
  }

  /** The gather is the interpreter's ds_bpermute, with four times the source
      lane in the lane's address register. */
  lemma {:induction false} ShuffleIsPermute<P>(v: VFile, first: nat, unpack: Word -> P, addr: VIdx, lane: nat, k: nat, source: nat)
    requires first + 8 <= 192 && lane < LANES && k < 8 && source < 32
    requires v[lane][addr] == Idx(source) << 2
    ensures unpack(PermuteLane(FromReg(addr), FromReg(first + k), v, lane)) == Shuffle(Registers(v, first, unpack), k, source)
  {
    hide Idx;
    LaneAddress(Idx(source));
    IdxIs(source);
  }

  lemma LaneAddress(s: Word)
    requires s < 32
    ensures ((s << 2) >> 2) & 31 == s
  {
  }

  /** One lane of the fragment: gather a row, accumulate eight paired steps. */
  method FragmentLane<P, A>(dot2: (P, P, A) -> A, a: seq<seq<P>>, b: seq<P>, c: seq<A>, lane: nat) returns (d: seq<A>)
    requires Wave(a) && |b| == 8 && |c| == 8 && lane < 32
    ensures |d| == 8 && forall r: nat :: r < 8 ==> d[r] == Steps(dot2, a[RowOf(lane, r)], b, c[r], 8)
  {
    d := [];
    var parity := if lane >= 16 then 1 else 0;
    for r := 0 to 8
      invariant |d| == r && forall q: nat :: q < r ==> d[q] == Steps(dot2, a[RowOf(lane, q)], b, c[q], 8)
    {
      var source := 2 * r + parity;
      var acc := c[r];
      var k := 0;
      while k < 16
        invariant k <= 16 && k % 2 == 0 && acc == Steps(dot2, a[source], b, c[r], k / 2)
      {
        acc := dot2(Shuffle(a, k / 2, source), b[k / 2], acc);
        k := k + 2;
      }
      d := d + [acc];
    }
  }

  /** Every element is its row and its lane's column folded in order. */
  ghost predicate IsFold<P(!new), A(!new)>(dot2: (P, P, A) -> A, a: seq<seq<P>>, b: seq<seq<P>>, c: seq<seq<A>>, d: seq<seq<A>>)
    requires Wave(a) && Wave(b) && Wave(c) && Wave(d)
  {
    forall lane: nat, r: nat :: lane < 32 && r < 8 ==> d[lane][r] == Steps(dot2, a[RowOf(lane, r)], b[lane], c[lane][r], 8)
  }

  /** The whole wave. */
  method Fragment<P, A>(dot2: (P, P, A) -> A, a: seq<seq<P>>, b: seq<seq<P>>, c: seq<seq<A>>) returns (d: seq<seq<A>>)
    requires Wave(a) && Wave(b) && Wave(c)
    ensures Wave(d)
    ensures forall lane: nat, r: nat :: lane < 32 && r < 8 ==>
      d[lane][r] == Steps(dot2, a[RowOf(lane, r)], b[lane], c[lane][r], 8)
  {
    hide Steps;
    d := [];
    for lane := 0 to 32
      invariant |d| == lane && forall l: nat :: l < lane ==> |d[l]| == 8
      invariant forall l: nat, r: nat :: l < lane && r < 8 ==> d[l][r] == Steps(dot2, a[RowOf(l, r)], b[l], c[l][r], 8)
    {
      var row := FragmentLane(dot2, a, b[lane], c[lane], lane);
      d := d + [row];
    }
  }

  // ---------------- the chain ----------------

  predicate Waves<T>(ws: seq<seq<seq<T>>>) {
    forall s: nat :: s < |ws| ==> Wave(ws[s])
  }

  // The element after the first n fragments, each starting from the one before.
  function ChainSteps<P, A>(dot2: (P, P, A) -> A, a: seq<seq<seq<P>>>, b: seq<seq<seq<P>>>, seed: seq<seq<A>>,
                            lane: nat, r: nat, n: nat): A
    requires Waves(a) && Waves(b) && Wave(seed) && n <= |a| == |b| && lane < 32 && r < 8
  {
    if n == 0 then seed[lane][r]
    else Steps(dot2, a[n - 1][RowOf(lane, r)], b[n - 1][lane], ChainSteps(dot2, a, b, seed, lane, r, n - 1), 8)
  }

  /** Chained fragments, each feeding its D to the next one's C: one long fold
      per element. */
  method Chain<P, A>(dot2: (P, P, A) -> A, a: seq<seq<seq<P>>>, b: seq<seq<seq<P>>>, seed: seq<seq<A>>) returns (d: seq<seq<A>>)
    requires Waves(a) && Waves(b) && Wave(seed) && |a| == |b|
    ensures Wave(d)
    ensures forall lane: nat, r: nat :: lane < 32 && r < 8 ==> d[lane][r] == ChainSteps(dot2, a, b, seed, lane, r, |a|)
  {
    hide Steps, RowOf;
    d := seed;
    for s := 0 to |a|
      invariant Wave(d)
      invariant forall lane: nat, r: nat :: lane < 32 && r < 8 ==> d[lane][r] == ChainSteps(dot2, a, b, seed, lane, r, s)
    {
      d := Fragment(dot2, a[s], b[s], d);
    }
  }

  // ---------------- exact arithmetic ----------------

  // Two packed halves, as real numbers.
  datatype Pair = Pair(lo: real, hi: real)

  function Dot2(a: Pair, b: Pair, acc: real): real {
    acc + a.lo * b.lo + a.hi * b.hi
  }

  ghost predicate Exact(dot2: (Pair, Pair, real) -> real) {
    forall p: Pair, q: Pair, x: real :: dot2(p, q, x) == Dot2(p, q, x)
  }

  // Element k of the sixteen values in eight packed registers.
  function Element(r: seq<Pair>, k: nat): real
    requires |r| == 8 && k < 16
  {
    if k % 2 == 0 then r[k / 2].lo else r[k / 2].hi
  }

  // The first n terms of row . column.
  function Dot(a: seq<Pair>, b: seq<Pair>, n: nat): real
    requires |a| == 8 && |b| == 8 && n <= 16
  {
    if n == 0 then 0.0 else Dot(a, b, n - 1) + Element(a, n - 1) * Element(b, n - 1)
  }

  // One paired step is two terms of the sum.
  lemma DotTwice(a: seq<Pair>, b: seq<Pair>, k: nat)
    requires |a| == 8 && |b| == 8 && k < 16 && k % 2 == 0
    ensures Dot(a, b, k + 2) == Dot(a, b, k) + a[k / 2].lo * b[k / 2].lo + a[k / 2].hi * b[k / 2].hi
  {
    assert Dot(a, b, k + 1) == Dot(a, b, k) + Element(a, k) * Element(b, k);
    assert Element(a, k + 1) == a[k / 2].hi && Element(b, k + 1) == b[k / 2].hi;
  }

  lemma {:induction false} ExactSteps(dot2: (Pair, Pair, real) -> real, a: seq<Pair>, b: seq<Pair>, acc: real, n: nat)
    requires Exact(dot2) && |a| == 8 && |b| == 8 && n <= 8
    ensures Steps(dot2, a, b, acc, n) == acc + Dot(a, b, 2 * n)
  {
    if n > 0 {
      ExactSteps(dot2, a, b, acc, n - 1);
      DotTwice(a, b, 2 * n - 2);
    }
  }

  lemma SameColumn<P>(b: seq<seq<P>>, lane: nat)
    requires Wave(b) && Replicated(b) && lane < 32
    ensures b[lane] == b[ColumnOf(lane)]
  {
    if lane >= 16 {
      assert b[lane - 16] == b[lane - 16 + 16];
    }
  }

  /** D = C + A * B: row m of A is lane m's, column n of B is lane n's. */
  predicate IsProduct(a: seq<seq<Pair>>, b: seq<seq<Pair>>, c: seq<seq<real>>, d: seq<seq<real>>)
    requires Wave(a) && Wave(b) && Wave(c) && Wave(d)
  {
    forall lane: nat, r: nat :: lane < 32 && r < 8 ==>
      d[lane][r] == c[lane][r] + Dot(a[RowOf(lane, r)], b[ColumnOf(lane)], 16)
  }

  /** What the wave computes is the matrix product. */
  lemma {:induction false} FragmentIsProduct(dot2: (Pair, Pair, real) -> real, a: seq<seq<Pair>>, b: seq<seq<Pair>>,
                                             c: seq<seq<real>>, d: seq<seq<real>>)
    requires Wave(a) && Wave(b) && Wave(c) && Wave(d) && Exact(dot2) && Replicated(b)
    requires IsFold(dot2, a, b, c, d)
    ensures IsProduct(a, b, c, d)
  {
    hide Dot, Steps, Exact, Replicated;
    forall lane: nat, r: nat | lane < 32 && r < 8
      ensures d[lane][r] == c[lane][r] + Dot(a[RowOf(lane, r)], b[ColumnOf(lane)], 16)
    {
      SameColumn(b, lane);
      ExactSteps(dot2, a[RowOf(lane, r)], b[lane], c[lane][r], 8);
    }
  }

  // The sum of the first n products.
  function ChainSum(a: seq<seq<seq<Pair>>>, b: seq<seq<seq<Pair>>>, lane: nat, r: nat, n: nat): real
    requires Waves(a) && Waves(b) && n <= |a| == |b| && lane < 32 && r < 8
  {
    if n == 0 then 0.0
    else ChainSum(a, b, lane, r, n - 1) + Dot(a[n - 1][RowOf(lane, r)], b[n - 1][ColumnOf(lane)], 16)
  }

  /** What the chain computes is the sum of the products on the seed. */
  lemma {:induction false} ChainIsSum(dot2: (Pair, Pair, real) -> real, a: seq<seq<seq<Pair>>>, b: seq<seq<seq<Pair>>>,
                                      seed: seq<seq<real>>, lane: nat, r: nat, n: nat)
    requires Waves(a) && Waves(b) && Wave(seed) && n <= |a| == |b| && lane < 32 && r < 8
    requires Exact(dot2) && forall s: nat :: s < |b| ==> Replicated(b[s])
    ensures ChainSteps(dot2, a, b, seed, lane, r, n) == seed[lane][r] + ChainSum(a, b, lane, r, n)
  {
    hide Dot, Steps, Exact, Replicated;
    if n > 0 {
      ChainIsSum(dot2, a, b, seed, lane, r, n - 1);
      SameColumn(b[n - 1], lane);
      ExactSteps(dot2, a[n - 1][RowOf(lane, r)], b[n - 1][lane], ChainSteps(dot2, a, b, seed, lane, r, n - 1), 8);
    }
  }

  // ---------------- the staged tile ----------------

  // The tile as it is staged: each element converted to a half.
  function Halved<F, H>(half: F -> H, t: seq<F>): (h: seq<H>)
    ensures |h| == |t|
  {
    seq(|t|, i requires 0 <= i < |t| => half(t[i]))
  }

  // n paired steps of an element of two row-major tiles.
  function CellSteps<H, A>(dot2: (H, H, H, H, A) -> A, zero: A, a: seq<H>, b: seq<H>, row: nat, col: nat, n: nat): A
    requires |a| == 256 && |b| == 256 && row < 16 && col < 16 && n <= 8
  {
    if n == 0 then zero
    else
      var k := 2 * n - 2;
      dot2(a[row * 16 + k], a[row * 16 + k + 1], b[k * 16 + col], b[(k + 1) * 16 + col],
           CellSteps(dot2, zero, a, b, row, col, n - 1))
  }

  // Every lane takes part, in any order.
  predicate AllLanes(order: seq<nat>) {
    (forall k: nat :: k < |order| ==> order[k] < 32) && (forall l: nat :: l < 32 ==> l in order)
  }

  /** One lane's share of the staging: every 32nd cell from its own on. */
  method StageLane<F, H>(half: F -> H, source: seq<F>, shared: array<H>, lane: nat)
    requires |source| == 256 && shared.Length == 256 && lane < 32
    modifies shared
    ensures forall i: nat :: i < 256 ==> shared[i] == if i % 32 == lane then half(source[i]) else old(shared[i])
  {
    var i := lane;
    while i < 256
      invariant i % 32 == lane && lane <= i <= 256 + lane
      invariant forall j: nat :: j < 256 ==> shared[j] == if j % 32 == lane && j < i then half(source[j]) else old(shared[j])
    {
      shared[i] := half(source[i]);
      i := i + 32;
    }
  }

  /** Staging by all lanes, in any order, converts the tile: the lanes' cells
      partition it, so each of the 256 cells is written by exactly one lane. */
  method Stage<F, H>(half: F -> H, source: seq<F>, shared: array<H>, order: seq<nat>)
    requires |source| == 256 && shared.Length == 256 && AllLanes(order)
    modifies shared
    ensures shared[..] == Halved(half, source)
  {
    for k := 0 to |order|
      invariant forall i: nat :: i < 256 && i % 32 in order[..k] ==> shared[i] == half(source[i])
    {
      StageLane(half, source, shared, order[k]);
      assert order[..k + 1] == order[..k] + [order[k]];
    }
    assert order[..|order|] == order;
  }

  // The cell is in one of the lane's rows and in its column.
  predicate OwnsCell(lane: nat, i: nat) {
    i % 16 == lane % 16 && lane / 16 * 8 <= i / 16 < lane / 16 * 8 + 8
  }

  lemma CellIndex(row: nat, col: nat)
    requires row < 16 && col < 16
    ensures (row * 16 + col) / 16 == row && (row * 16 + col) % 16 == col
  {
  }

  // One lane: eight accumulators, one row each, then eight output cells.
  method TileLane<H, A>(dot2: (H, H, H, H, A) -> A, zero: A, a: seq<H>, b: seq<H>, c: array<A>, lane: nat)
    requires |a| == 256 && |b| == 256 && c.Length == 256 && lane < 32
    modifies c
    ensures forall i: nat :: i < 256 ==>
      c[i] == if OwnsCell(lane, i) then CellSteps(dot2, zero, a, b, i / 16, i % 16, 8) else old(c[i])
  {
    hide CellSteps;
    var col, base := lane % 16, lane / 16 * 8;
    var acc := new A[8](i => zero);
    for r := 0 to 8
      invariant forall q: nat :: q < r ==> acc[q] == CellSteps(dot2, zero, a, b, base + q, col, 8)
      invariant c[..] == old(c[..])
    {
      acc[r] := Accumulate(dot2, zero, a, b, base + r, col);
    }
    for r := 0 to 8
      invariant forall q: nat :: q < 8 ==> acc[q] == CellSteps(dot2, zero, a, b, base + q, col, 8)
      invariant forall i: nat :: i < 256 ==>
        c[i] == if OwnsCell(lane, i) && i / 16 < base + r then CellSteps(dot2, zero, a, b, i / 16, i % 16, 8) else old(c[i])
    {
      CellIndex(base + r, col);
      c[(base + r) * 16 + col] := acc[r];
    }
  }

  method Accumulate<H, A>(dot2: (H, H, H, H, A) -> A, zero: A, a: seq<H>, b: seq<H>, row: nat, col: nat) returns (acc: A)
    requires |a| == 256 && |b| == 256 && row < 16 && col < 16
    ensures acc == CellSteps(dot2, zero, a, b, row, col, 8)
  {
    acc := zero;
    var k := 0;
    while k < 16
      invariant k <= 16 && k % 2 == 0 && acc == CellSteps(dot2, zero, a, b, row, col, k / 2)
    {
      acc := dot2(a[row * 16 + k], a[row * 16 + k + 1], b[k * 16 + col], b[(k + 1) * 16 + col], acc);
      k := k + 2;
    }
  }

  /** Every cell of the output has exactly one owning lane. */
  lemma OneOwner(i: nat)
    requires i < 256
    ensures exists lane: nat :: lane < 32 && OwnsCell(lane, i)
    ensures forall l: nat, m: nat :: l < 32 && m < 32 && OwnsCell(l, i) && OwnsCell(m, i) ==> l == m
  {
    hide OwnsCell;
    var owner := i % 16 + if i >= 128 then 16 else 0;
    forall l: nat | l < 32 ensures OwnsCell(l, i) <==> l == owner { OwnerIs(l, i); }
    assert OwnsCell(owner, i);
  }

  lemma OwnerIs(lane: nat, i: nat)
    requires lane < 32 && i < 256
    ensures OwnsCell(lane, i) <==> lane == i % 16 + if i >= 128 then 16 else 0
  {
    assert lane / 16 == if lane >= 16 then 1 else 0;
    assert i / 16 < 8 <==> i < 128;
  }

  /** The tile kernel, its lanes in any order before and after the barrier: each
      cell is its row and column of the staged tiles folded in order. */
  method TileKernel<F, H(0), A(0)>(dot2: (H, H, H, H, A) -> A, zero: A, half: F -> H, a: seq<F>, b: seq<F>,
                                   order: seq<nat>, order2: seq<nat>) returns (c: array<A>)
    requires |a| == 256 && |b| == 256 && AllLanes(order) && AllLanes(order2)
    ensures fresh(c) && c.Length == 256
    ensures forall i: nat :: i < 256 ==>
      c[i] == CellSteps(dot2, zero, Halved(half, a), Halved(half, b), i / 16, i % 16, 8)
  {
    hide CellSteps, Halved;
    var sa, sb := new H[256], new H[256];
    Stage(half, a, sa, order);
    Stage(half, b, sb, order);
    ghost var ha, hb := Halved(half, a), Halved(half, b);
    c := new A[256];
    for k := 0 to |order2|
      invariant sa[..] == ha && sb[..] == hb
      invariant forall i: nat, l: nat :: i < 256 && l in order2[..k] && OwnsCell(l, i) ==>
        c[i] == CellSteps(dot2, zero, ha, hb, i / 16, i % 16, 8)
    {
      TileLane(dot2, zero, sa[..], sb[..], c, order2[k]);
      assert order2[..k + 1] == order2[..k] + [order2[k]];
    }
    assert order2[..|order2|] == order2;
    forall i: nat | i < 256 ensures c[i] == CellSteps(dot2, zero, ha, hb, i / 16, i % 16, 8) {
      OneOwner(i);
    }
  }

  // n single steps of an element, as the host reference takes them.
  function HostSteps<F, A>(mac: (F, F, A) -> A, zero: A, a: seq<F>, b: seq<F>, row: nat, col: nat, n: nat): A
    requires |a| == 256 && |b| == 256 && row < 16 && col < 16 && n <= 16
  {
    if n == 0 then zero
    else mac(a[row * 16 + n - 1], b[(n - 1) * 16 + col], HostSteps(mac, zero, a, b, row, col, n - 1))
  }

  /** The host reference, whatever its multiply and add round to. */
  method Reference<F, A(0)>(mac: (F, F, A) -> A, zero: A, a: seq<F>, b: seq<F>) returns (c: array<A>)
    requires |a| == 256 && |b| == 256
    ensures fresh(c) && c.Length == 256
    ensures forall i: nat :: i < 256 ==> c[i] == HostSteps(mac, zero, a, b, i / 16, i % 16, 16)
  {
    c := new A[256];
    for r := 0 to 16
      invariant forall i: nat :: i < r * 16 ==> c[i] == HostSteps(mac, zero, a, b, i / 16, i % 16, 16)
    {
      for col := 0 to 16
        invariant forall i: nat :: i < r * 16 + col ==> c[i] == HostSteps(mac, zero, a, b, i / 16, i % 16, 16)
      {
        var s := zero;
        for k := 0 to 16
          invariant s == HostSteps(mac, zero, a, b, r, col, k)
          invariant forall i: nat :: i < r * 16 + col ==> c[i] == HostSteps(mac, zero, a, b, i / 16, i % 16, 16)
        {
          s := mac(a[r * 16 + k], b[k * 16 + col], s);
        }
        CellIndex(r, col);
        c[r * 16 + col] := s;
      }
    }
  }

  // ---------------- the tile in exact arithmetic ----------------

  // Element (row, col) of the product of two row-major tiles, n terms of it.
  function Cell(a: seq<real>, b: seq<real>, row: nat, col: nat, n: nat): real
    requires |a| == 256 && |b| == 256 && row < 16 && col < 16 && n <= 16
  {
    if n == 0 then 0.0 else Cell(a, b, row, col, n - 1) + a[row * 16 + n - 1] * b[(n - 1) * 16 + col]
  }

  ghost predicate ExactFour(dot2: (real, real, real, real, real) -> real) {
    forall p: real, q: real, r: real, s: real, x: real :: dot2(p, q, r, s, x) == x + p * r + q * s
  }

  ghost predicate ExactMac(mac: (real, real, real) -> real) {
    forall p: real, q: real, x: real :: mac(p, q, x) == x + p * q
  }

  /** A cell of the kernel is a cell of the product ... */
  lemma {:induction false} TileIsProduct(dot2: (real, real, real, real, real) -> real, a: seq<real>, b: seq<real>,
                                         row: nat, col: nat, n: nat)
    requires ExactFour(dot2) && |a| == 256 && |b| == 256 && row < 16 && col < 16 && n <= 8
    ensures CellSteps(dot2, 0.0, a, b, row, col, n) == Cell(a, b, row, col, 2 * n)
  {
    if n > 0 {
      TileIsProduct(dot2, a, b, row, col, n - 1);
      var k := 2 * n - 2;
      assert Cell(a, b, row, col, k + 1) == Cell(a, b, row, col, k) + a[row * 16 + k] * b[k * 16 + col];
    }
  }

  /** ... and so is a cell of the host reference. */
  lemma {:induction false} HostIsProduct(mac: (real, real, real) -> real, a: seq<real>, b: seq<real>, row: nat, col: nat, n: nat)
    requires ExactMac(mac) && |a| == 256 && |b| == 256 && row < 16 && col < 16 && n <= 16
    ensures HostSteps(mac, 0.0, a, b, row, col, n) == Cell(a, b, row, col, n)
  {
    if n > 0 {
      HostIsProduct(mac, a, b, row, col, n - 1);
    }
  }
}
