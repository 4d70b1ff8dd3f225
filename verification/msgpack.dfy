/** The MessagePack decoder of the metadata tools, and the encodings of the
    Formats section of the MessagePack specification. */
module MsgPack {
  import opened Powers

  type Octet = n: nat | n < 0x100

  // The bytes of a float, big endian; only its comparison as a key looks inside.
  datatype Value =
    | Nil
    | Bool(b: bool)
    | Int(i: int)
    | Float(raw: seq<Octet>)
    | Str(raw: seq<Octet>)      // before UTF-8 decoding
    | Bin(raw: seq<Octet>)
    | Arr(items: seq<Value>)
    | Map(pairs: seq<Pair>)     // in insertion order

  datatype Pair = Pair(key: Value, val: Value)

  datatype Error = Truncated | Unsupported | IndexFault | StructFault | UnhashableKey

  datatype Read<T> = Ok(value: T, next: nat) | Fail(error: Error)

  // ---------------- big-endian integers ----------------

  function Num(s: seq<Octet>): nat {
    if s == [] then 0 else 0x100 * Num(s[..|s| - 1]) + s[|s| - 1]
  }

  function BigEndian(x: nat, n: nat): (s: seq<Octet>)
    ensures |s| == n
  {
    if n == 0 then [] else BigEndian(x / 0x100, n - 1) + [x % 0x100]
  }

  function Pow256(n: nat): (p: nat)
    ensures p > 0
  {
    if n == 0 then 1 else 0x100 * Pow256(n - 1)
  }

  lemma {:induction false} NumOfBigEndian(x: nat, n: nat)
    requires x < Pow256(n)
    ensures Num(BigEndian(x, n)) == x
  {
    if n > 0 {
      NumOfBigEndian(x / 0x100, n - 1);
    }
  }

  // Two's complement.
  function Signed(x: nat, n: nat): int {
    if 2 * x >= Pow256(n) then x - Pow256(n) else x
  }

  // ---------------- keys ----------------

  datatype Number = NotANumber | Infinite(negative: bool) | Finite(scaled: int) // in units of 2^-1074

  // The value of a float with `e` exponent bits of the given bias and m fraction bits.
  function FloatNumber(x: nat, ebits: nat, mbits: nat, bias: nat): Number {
    var negative := x / Pow2(ebits + mbits) % 2 == 1;
    var e, m := x / Pow2(mbits) % Pow2(ebits), x % Pow2(mbits);
    if e == Pow2(ebits) - 1 then if m == 0 then Infinite(negative) else NotANumber
    else
      var shift := (if e == 0 then 1 else e) + 1074 - bias - mbits;
      var units: int := (if e == 0 then m else m + Pow2(mbits)) * Pow2(if shift < 0 then 0 else shift);
      Finite(if negative then -units else units)
  }

  // Numbers compare across types: True == 1 == 1.0.
  function NumberOf(v: Value): Number {
    match v
    case Bool(b) => Finite(if b then Pow2(1074) else 0)
    case Int(i) => Finite(i * Pow2(1074))
    case Float(raw) =>
      if |raw| == 4 then FloatNumber(Num(raw), 8, 23, 127) else FloatNumber(Num(raw), 11, 52, 1023)
    case _ => NotANumber
  }

  // Lists and dictionaries cannot be keys.
  predicate Hashable(v: Value) {
    !v.Arr? && !v.Map?
  }

  predicate SameKey(a: Value, b: Value) {
    match a
    case Nil => b.Nil?
    case Str(r) => b == Str(r)
    case Bin(r) => b == Bin(r)
    case Arr(_) => false
    case Map(_) => false
    case _ => !NumberOf(a).NotANumber? && NumberOf(a) == NumberOf(b)
  }

  // out[k] = v: an equal key keeps its place and its first spelling.
  function Put(pairs: seq<Pair>, k: Value, v: Value): seq<Pair> {
    if pairs == [] then [Pair(k, v)]
    else if SameKey(pairs[0].key, k) then [Pair(pairs[0].key, v)] + pairs[1..]
    else [pairs[0]] + Put(pairs[1..], k, v)
  }

  // ---------------- the first byte ----------------

  datatype Head =
    | FixInt(i: int)
    | FixMap(n: nat)
    | FixArr(n: nat)
    | FixStr(n: nat)
    | NilHead
    | BoolHead(b: bool)
    | BinHead(w: nat)
    | FloatHead(w: nat)
    | UIntHead(w: nat)
    | IntHead(w: nat)
    | StrHead(w: nat)
    | ArrHead(w: nat)
    | MapHead(w: nat)
    | NoHead

  function HeadOf(c: Octet): Head {
    if c <= 0x7F then FixInt(c)
    else if c >= 0xE0 then FixInt(c - 0x100)
    else if 0x80 <= c <= 0x8F then FixMap(c - 0x80)
    else if 0x90 <= c <= 0x9F then FixArr(c - 0x90)
    else if 0xA0 <= c <= 0xBF then FixStr(c - 0xA0)
    else if c == 0xC0 then NilHead
    else if c == 0xC2 then BoolHead(false)
    else if c == 0xC3 then BoolHead(true)
    else if c == 0xC4 then BinHead(1)
    else if c == 0xC5 then BinHead(2)
    else if c == 0xC6 then BinHead(4)
    else if c == 0xCA then FloatHead(4)
    else if c == 0xCB then FloatHead(8)
    else if c == 0xCC then UIntHead(1)
    else if c == 0xCD then UIntHead(2)
    else if c == 0xCE then UIntHead(4)
    else if c == 0xCF then UIntHead(8)
    else if c == 0xD0 then IntHead(1)
    else if c == 0xD1 then IntHead(2)
    else if c == 0xD2 then IntHead(4)
    else if c == 0xD3 then IntHead(8)
    else if c == 0xD9 then StrHead(1)
    else if c == 0xDA then StrHead(2)
    else if c == 0xDB then StrHead(4)
    else if c == 0xDC then ArrHead(2)
    else if c == 0xDD then ArrHead(4)
    else if c == 0xDE then MapHead(2)
    else if c == 0xDF then MapHead(4)
    else NoHead
  }

  // ---------------- decoding ----------------

  // b[i:j] clips at the end of the buffer.
  function Slice(b: seq<Octet>, i: nat, n: nat): seq<Octet> {
    if i >= |b| then [] else if i + n >= |b| then b[i..] else b[i..i + n]
  }

  // Bytes left from i on.
  function Rest(b: seq<Octet>, i: nat): nat {
    if i < |b| then |b| - i else 0
  }

  // What follows a first byte that introduces no nested value.
  function Scalar(b: seq<Octet>, i: nat, h: Head): (r: Read<Value>)
    requires !h.FixMap? && !h.FixArr? && !h.ArrHead? && !h.MapHead?
    ensures r.Ok? ==> r.next >= i
  {
    match h
    case FixInt(v) => Ok(Int(v), i)
    case FixStr(n) => Ok(Str(Slice(b, i, n)), i + n)
    case NilHead => Ok(Nil, i)
    case BoolHead(v) => Ok(Bool(v), i)
    case BinHead(w) => var n := Num(Slice(b, i, w)); Ok(Bin(Slice(b, i + w, n)), i + w + n)
    case StrHead(w) => var n := Num(Slice(b, i, w)); Ok(Str(Slice(b, i + w, n)), i + w + n)
    case FloatHead(w) => if i + w > |b| then Fail(StructFault) else Ok(Float(b[i..i + w]), i + w)
    case UIntHead(w) =>
      if w == 1 && i >= |b| then Fail(IndexFault) else Ok(Int(Num(Slice(b, i, w))), i + w)
    case IntHead(w) => if i + w > |b| then Fail(StructFault) else Ok(Int(Signed(Num(b[i..i + w]), w)), i + w)
    case NoHead => Fail(Unsupported)
  }

  /** unpack(b, i): the value and the offset after it. */
  function Unpack(b: seq<Octet>, i: nat): (r: Read<Value>)
    ensures r.Ok? ==> r.next > i
    decreases Rest(b, i), 0, 0
  {
    if i >= |b| then Fail(Truncated)
    else
      var h, j := HeadOf(b[i]), i + 1;
      match h
      case FixArr(n) => WrapArr(UnpackArr(b, j, n))
      case ArrHead(w) => WrapArr(UnpackArr(b, j + w, Num(Slice(b, j, w))))
      case FixMap(n) => WrapMap(UnpackMap(b, j, n))
      case MapHead(w) => WrapMap(UnpackMap(b, j + w, Num(Slice(b, j, w))))
      case _ => Scalar(b, j, h)
  }

  function WrapArr(r: Read<seq<Value>>): Read<Value> {
    match r case Ok(items, next) => Ok(Arr(items), next) case Fail(e) => Fail(e)
  }

  function WrapMap(r: Read<seq<Pair>>): Read<Value> {
    match r case Ok(pairs, next) => Ok(Map(pairs), next) case Fail(e) => Fail(e)
  }

  // n values, in order.
  function UnpackArr(b: seq<Octet>, i: nat, n: nat): (r: Read<seq<Value>>)
    ensures r.Ok? ==> r.next >= i
    decreases Rest(b, i), 1, n
  {
    if n == 0 then Ok([], i)
    else
      match Unpack(b, i)
      case Fail(e) => Fail(e)
      case Ok(v, j) =>
        match UnpackArr(b, j, n - 1)
        case Fail(e) => Fail(e)
        case Ok(vs, k) => Ok([v] + vs, k)
  }

  // The dictionary after n more pairs.
  function UnpackInto(b: seq<Octet>, i: nat, n: nat, pairs: seq<Pair>): (r: Read<seq<Pair>>)
    ensures r.Ok? ==> r.next >= i
    decreases Rest(b, i), 1, n
  {
    if n == 0 then Ok(pairs, i)
    else
      match Unpack(b, i)
      case Fail(e) => Fail(e)
      case Ok(k, j) =>
        match Unpack(b, j)
        case Fail(e) => Fail(e)
        case Ok(v, j') =>
          if !Hashable(k) then Fail(UnhashableKey) else UnpackInto(b, j', n - 1, Put(pairs, k, v))
  }

  function UnpackMap(b: seq<Octet>, i: nat, n: nat): (r: Read<seq<Pair>>)
    ensures r.Ok? ==> r.next >= i
    decreases Rest(b, i), 2, n
  {
    UnpackInto(b, i, n, [])
  }

  // ---------------- encodings ----------------

  // How a length is written: in the first byte, or in 1, 2 or 4 bytes after it.
  datatype Width = Fix | W1 | W2 | W4 | W8

  function Size(w: Width): nat {
    match w case Fix => 0 case W1 => 1 case W2 => 2 case W4 => 4 case W8 => 8
  }

  /** A value with every format choice made. */
  datatype Coded =
    | CNil
    | CBool(b: bool)
    | CUnsigned(w: Width, u: nat)   // positive fixint or uint
    | CSigned(w: Width, s: int)     // negative fixint or int
    | CFloat(raw: seq<Octet>)
    | CStr(w: Width, raw: seq<Octet>)
    | CBin(w: Width, raw: seq<Octet>)
    | CArr(w: Width, items: seq<Coded>)
    | CMap(w: Width, pairs: seq<CodedPair>)

  datatype CodedPair = CodedPair(key: Coded, val: Coded)

  // The first byte and the length or number behind it.
  function Lead(fixed: nat, coded: nat, w: Width, n: nat): seq<Octet> {
    if w.Fix? then [(fixed + n) % 0x100] else [coded % 0x100] + BigEndian(n, Size(w))
  }

  function CodeOf(w: Width, c1: nat, c2: nat, c4: nat, c8: nat): nat {
    match w case Fix => 0 case W1 => c1 case W2 => c2 case W4 => c4 case W8 => c8
  }

  // The pattern of a negative number in two's complement.
  function Pattern(s: int, n: nat): nat
    requires 0 <= s + Pow256(n)
  {
    if s < 0 then s + Pow256(n) else s
  }

  predicate FitsSigned(s: int, n: nat) {
    0 <= 2 * s + Pow256(n) && 2 * s < Pow256(n)
  }

  /** Every legal choice of the Formats section, keys hashable and distinct. */
  predicate Legal(e: Coded) {
    match e
    case CNil => true
    case CBool(_) => true
    case CUnsigned(w, u) => if w.Fix? then u < 0x80 else u < Pow256(Size(w))
    case CSigned(w, s) => if w.Fix? then -0x20 <= s < 0 else FitsSigned(s, Size(w))
    case CFloat(raw) => |raw| == 4 || |raw| == 8
    case CStr(w, raw) => if w.Fix? then |raw| < 0x20 else !w.W8? && |raw| < Pow256(Size(w))
    case CBin(w, raw) => !w.Fix? && !w.W8? && |raw| < Pow256(Size(w))
    case CArr(w, items) => LegalCount(w, |items|) && forall i :: 0 <= i < |items| ==> Legal(items[i])
    case CMap(w, pairs) =>
      && LegalCount(w, |pairs|)
      && (forall i :: 0 <= i < |pairs| ==> LegalPair(pairs[i]))
      && DistinctKeys(Pairs(pairs))
  }

  predicate LegalCount(w: Width, n: nat) {
    if w.Fix? then n < 0x10 else (w.W2? || w.W4?) && n < Pow256(Size(w))
  }

  predicate DistinctKeys(ps: seq<Pair>) {
    && (forall i: nat :: i < |ps| ==> Hashable(ps[i].key))
    && (forall i: nat, j: nat :: i < j < |ps| ==> !SameKey(ps[i].key, ps[j].key))
  }

  function ValueOf(e: Coded): Value {
    match e
    case CNil => Nil
    case CBool(b) => Bool(b)
    case CUnsigned(_, u) => Int(u)
    case CSigned(_, s) => Int(s)
    case CFloat(raw) => Float(raw)
    case CStr(_, raw) => Str(raw)
    case CBin(_, raw) => Bin(raw)
    case CArr(_, items) => Arr(Values(items))
    case CMap(_, pairs) => Map(Pairs(pairs))
  }

  function Values(es: seq<Coded>): (vs: seq<Value>)
    ensures |vs| == |es|
  {
    if es == [] then [] else [ValueOf(es[0])] + Values(es[1..])
  }

  function Pairs(ps: seq<CodedPair>): (vs: seq<Pair>)
    ensures |vs| == |ps|
  {
    if ps == [] then [] else [PairOf(ps[0])] + Pairs(ps[1..])
  }

  function PairOf(p: CodedPair): Pair {
    Pair(ValueOf(p.key), ValueOf(p.val))
  }

  predicate LegalPair(p: CodedPair) {
    Legal(p.key) && Legal(p.val)
  }

  function Bytes(e: Coded): seq<Octet>
    requires Legal(e)
  {
    match e
    case CNil => [0xC0]
    case CBool(b) => [if b then 0xC3 else 0xC2]
    case CUnsigned(w, u) => Lead(0, CodeOf(w, 0xCC, 0xCD, 0xCE, 0xCF), w, u)
    case CSigned(w, s) =>
      if w.Fix? then [s + 0x100] else [CodeOf(w, 0xD0, 0xD1, 0xD2, 0xD3)] + BigEndian(Pattern(s, Size(w)), Size(w))
    case CFloat(raw) => [if |raw| == 4 then 0xCA else 0xCB] + raw
    case CStr(w, raw) => Lead(0xA0, CodeOf(w, 0xD9, 0xDA, 0xDB, 0), w, |raw|) + raw
    case CBin(w, raw) => Lead(0, CodeOf(w, 0xC4, 0xC5, 0xC6, 0), w, |raw|) + raw
    case CArr(w, items) => Lead(0x90, CodeOf(w, 0, 0xDC, 0xDD, 0), w, |items|) + AllBytes(items)
    case CMap(w, pairs) => Lead(0x80, CodeOf(w, 0, 0xDE, 0xDF, 0), w, |pairs|) + PairBytes(pairs)
  }

  function AllBytes(es: seq<Coded>): seq<Octet>
    requires forall i :: 0 <= i < |es| ==> Legal(es[i])
  {
    if es == [] then [] else Bytes(es[0]) + AllBytes(es[1..])
  }

  function PairBytes(ps: seq<CodedPair>): seq<Octet>
    requires forall i :: 0 <= i < |ps| ==> LegalPair(ps[i])
  {
    if ps == [] then [] else BothBytes(ps[0]) + PairBytes(ps[1..])
  }

  function BothBytes(p: CodedPair): seq<Octet>
    requires LegalPair(p)
  {
    Bytes(p.key) + Bytes(p.val)
  }

  // ---------------- round trip ----------------

  // s stands in the buffer at i.
  predicate At(b: seq<Octet>, i: nat, s: seq<Octet>) {
    i + |s| <= |b| && b[i..i + |s|] == s
  }

  lemma AtSplit(b: seq<Octet>, i: nat, s: seq<Octet>, t: seq<Octet>)
    requires At(b, i, s + t)
    ensures At(b, i, s) && At(b, i + |s|, t)
  {
    assert b[i..i + |s|] == b[i..i + |s + t|][..|s|];
    assert b[i + |s|..i + |s| + |t|] == b[i..i + |s + t|][|s|..];
  }

  lemma SliceAt(b: seq<Octet>, i: nat, s: seq<Octet>)
    requires At(b, i, s)
    ensures Slice(b, i, |s|) == s
  {
  }

  // A number behind the first byte.
  lemma NumberAt(b: seq<Octet>, i: nat, x: nat, n: nat)
    requires x < Pow256(n) && At(b, i, BigEndian(x, n))
    ensures Num(Slice(b, i, n)) == x && i + n <= |b| && Num(b[i..i + n]) == x
  {
    hide BigEndian, Num, Pow256;
    SliceAt(b, i, BigEndian(x, n));
    NumOfBigEndian(x, n);
  }

  lemma UnpackIs(b: seq<Octet>, i: nat)
    requires i < |b|
    ensures var h, j := HeadOf(b[i]), i + 1;
      match h
      case FixArr(n) => Unpack(b, i) == WrapArr(UnpackArr(b, j, n))
      case ArrHead(w) => Unpack(b, i) == WrapArr(UnpackArr(b, j + w, Num(Slice(b, j, w))))
      case FixMap(n) => Unpack(b, i) == WrapMap(UnpackInto(b, j, n, []))
      case MapHead(w) => Unpack(b, i) == WrapMap(UnpackInto(b, j + w, Num(Slice(b, j, w)), []))
      case _ => Unpack(b, i) == Scalar(b, j, h)
  {
    hide HeadOf, Scalar, Num, Slice;
  }

  // A length or number and its first byte, read back.
  lemma LeadAt(b: seq<Octet>, i: nat, fixed: nat, coded: nat, w: Width, n: nat)
    requires At(b, i, Lead(fixed, coded, w, n)) && coded < 0x100
    requires if w.Fix? then fixed + n < 0x100 else n < Pow256(Size(w))
    ensures i < |b| && |Lead(fixed, coded, w, n)| == 1 + Size(w)
    ensures w.Fix? ==> b[i] == fixed + n
    ensures !w.Fix? ==> b[i] == coded && i + 1 + Size(w) <= |b|
    ensures !w.Fix? ==> Num(Slice(b, i + 1, Size(w))) == n
  {
    hide BigEndian, Num, Pow256, Slice;
    var s := Lead(fixed, coded, w, n);
    assert b[i] == s[0];
    if !w.Fix? {
      AtSplit(b, i, [coded], BigEndian(n, Size(w)));
      NumberAt(b, i + 1, n, Size(w));
    }
  }

  lemma {:induction false} UnsignedBack(b: seq<Octet>, i: nat, e: Coded)
    requires e.CUnsigned? && Legal(e) && At(b, i, Bytes(e))
    ensures Unpack(b, i) == Ok(ValueOf(e), i + |Bytes(e)|)
  {
    hide Lead, Num, Slice, Pow256, Unpack, At, BigEndian;
    LeadAt(b, i, 0, CodeOf(e.w, 0xCC, 0xCD, 0xCE, 0xCF), e.w, e.u);
    UnpackIs(b, i);
  }

  lemma {:induction false} SignedBack2(s: int, n: nat)
    requires FitsSigned(s, n)
    ensures 0 <= s + Pow256(n) && Pattern(s, n) < Pow256(n) && Signed(Pattern(s, n), n) == s
  {
    hide Pow256;
  }

  lemma {:induction false} SignedBack(b: seq<Octet>, i: nat, e: Coded)
    requires e.CSigned? && Legal(e) && At(b, i, Bytes(e))
    ensures Unpack(b, i) == Ok(ValueOf(e), i + |Bytes(e)|)
  {
    hide Num, Slice, Pow256, Unpack, BigEndian, Signed, Pattern;
    assert b[i] == Bytes(e)[0];
    UnpackIs(b, i);
    if !e.w.Fix? {
      var n := Size(e.w);
      SignedBack2(e.s, n);
      AtSplit(b, i, [CodeOf(e.w, 0xD0, 0xD1, 0xD2, 0xD3)], BigEndian(Pattern(e.s, n), n));
      NumberAt(b, i + 1, Pattern(e.s, n), n);
    }
  }

  lemma {:induction false} FloatBack(b: seq<Octet>, i: nat, e: Coded)
    requires e.CFloat? && Legal(e) && At(b, i, Bytes(e))
    ensures Unpack(b, i) == Ok(ValueOf(e), i + |Bytes(e)|)
  {
    hide Unpack;
    assert b[i] == Bytes(e)[0];
    UnpackIs(b, i);
    AtSplit(b, i, [if |e.raw| == 4 then 0xCA else 0xCB], e.raw);
  }

  lemma {:induction false} TextBack(b: seq<Octet>, i: nat, e: Coded)
    requires (e.CStr? || e.CBin?) && Legal(e) && At(b, i, Bytes(e))
    ensures Unpack(b, i) == Ok(ValueOf(e), i + |Bytes(e)|)
  {
    hide Lead, Num, Slice, Pow256, Unpack, At, BigEndian;
    var fixed := if e.CStr? then 0xA0 else 0;
    var coded := if e.CStr? then CodeOf(e.w, 0xD9, 0xDA, 0xDB, 0) else CodeOf(e.w, 0xC4, 0xC5, 0xC6, 0);
    var lead := Lead(fixed, coded, e.w, |e.raw|);
    AtSplit(b, i, lead, e.raw);
    LeadAt(b, i, fixed, coded, e.w, |e.raw|);
    SliceAt(b, i + |lead|, e.raw);
    UnpackIs(b, i);
  }

  lemma {:induction false} PutNew(ps: seq<Pair>, k: Value, v: Value)
    requires forall i: nat :: i < |ps| ==> !SameKey(ps[i].key, k)
    ensures Put(ps, k, v) == ps + [Pair(k, v)]
  {
    hide SameKey;
    if ps != [] {
      PutNew(ps[1..], k, v);
    }
  }

  /** Decoding inverts every legal encoding, with any bytes before and after it. */
  lemma {:induction false} RoundTrip(b: seq<Octet>, i: nat, e: Coded)
    requires Legal(e) && At(b, i, Bytes(e))
    ensures Unpack(b, i) == Ok(ValueOf(e), i + |Bytes(e)|)
    decreases e, 0
  {
    hide Lead, Num, Slice, Pow256, Unpack, UnpackArr, UnpackInto, At;
    match e
    case CUnsigned(_, _) => UnsignedBack(b, i, e);
    case CSigned(_, _) => SignedBack(b, i, e);
    case CFloat(_) => FloatBack(b, i, e);
    case CStr(_, _) => TextBack(b, i, e);
    case CBin(_, _) => TextBack(b, i, e);
    case CArr(w, items) => ArrBack(b, i, e);
    case CMap(w, pairs) => MapBack(b, i, e);
    case CNil => OneByte(b, i, 0xC0); UnpackIs(b, i);
    case CBool(v) => OneByte(b, i, if v then 0xC3 else 0xC2); UnpackIs(b, i);
  }

  lemma OneByte(b: seq<Octet>, i: nat, c: Octet)
    requires At(b, i, [c])
    ensures i < |b| && b[i] == c
  {
    assert b[i] == b[i..i + 1][0];
  }

  lemma {:induction false} ArrBack(b: seq<Octet>, i: nat, e: Coded)
    requires e.CArr? && Legal(e) && At(b, i, Bytes(e))
    ensures Unpack(b, i) == Ok(ValueOf(e), i + |Bytes(e)|)
    decreases e.items, 1
  {
    hide Lead, Num, Slice, Pow256, Unpack, UnpackArr, UnpackInto, At, BigEndian, Legal, AllBytes;
    var coded := CodeOf(e.w, 0, 0xDC, 0xDD, 0);
    CountIsLegal(e);
    var lead := Lead(0x90, coded, e.w, |e.items|);
    AtSplit(b, i, lead, AllBytes(e.items));
    LeadAt(b, i, 0x90, coded, e.w, |e.items|);
    UnpackIs(b, i);
    ItemsRoundTrip(b, i + |lead|, e.items);
  }

  lemma CountIsLegal(e: Coded)
    requires (e.CArr? || e.CMap?) && Legal(e)
    ensures e.CArr? ==> LegalCount(e.w, |e.items|) && forall k :: 0 <= k < |e.items| ==> Legal(e.items[k])
    ensures e.CMap? ==>
      LegalCount(e.w, |e.pairs|) && DistinctKeys(Pairs(e.pairs)) && forall k :: 0 <= k < |e.pairs| ==> LegalPair(e.pairs[k])
  {
    hide DistinctKeys, Pairs, LegalCount;
  }

  lemma {:induction false} ItemsRoundTrip(b: seq<Octet>, i: nat, es: seq<Coded>)
    requires (forall k :: 0 <= k < |es| ==> Legal(es[k])) && At(b, i, AllBytes(es))
    ensures UnpackArr(b, i, |es|) == Ok(Values(es), i + |AllBytes(es)|)
    decreases es, 0
  {
    hide Legal, Bytes, Unpack, ValueOf, At;
    if es != [] {
      AtSplit(b, i, Bytes(es[0]), AllBytes(es[1..]));
      RoundTrip(b, i, es[0]);
      ItemsRoundTrip(b, i + |Bytes(es[0])|, es[1..]);
    }
  }

  lemma {:induction false} MapBack(b: seq<Octet>, i: nat, e: Coded)
    requires e.CMap? && Legal(e) && At(b, i, Bytes(e))
    ensures Unpack(b, i) == Ok(ValueOf(e), i + |Bytes(e)|)
    decreases e.pairs, 1
  {
    hide Lead, Num, Slice, Pow256, Unpack, UnpackArr, UnpackInto, At, BigEndian, Legal, PairBytes;
    var coded := CodeOf(e.w, 0, 0xDE, 0xDF, 0);
    CountIsLegal(e);
    var lead := Lead(0x80, coded, e.w, |e.pairs|);
    AtSplit(b, i, lead, PairBytes(e.pairs));
    LeadAt(b, i, 0x80, coded, e.w, |e.pairs|);
    UnpackIs(b, i);
    assert [] + Pairs(e.pairs) == Pairs(e.pairs);
    PairsRoundTrip(b, i + |lead|, e.pairs, []);
  }

  lemma {:induction false} PairsRoundTrip(b: seq<Octet>, i: nat, ps: seq<CodedPair>, before: seq<Pair>)
    requires (forall k :: 0 <= k < |ps| ==> LegalPair(ps[k])) && At(b, i, PairBytes(ps))
    requires DistinctKeys(before + Pairs(ps))
    ensures UnpackInto(b, i, |ps|, before) == Ok(before + Pairs(ps), i + |PairBytes(ps)|)
    decreases ps, 0
  {
    hide LegalPair, BothBytes, Unpack, At, PairOf, DistinctKeys;
    if ps != [] {
      AtSplit(b, i, BothBytes(ps[0]), PairBytes(ps[1..]));
      var p := PairOf(ps[0]);
      assert Pairs(ps) == [p] + Pairs(ps[1..]);
      assert before + ([p] + Pairs(ps[1..])) == before + [p] + Pairs(ps[1..]);
      assert Pair(p.key, p.val) == p;
      NewKey(before, p, Pairs(ps[1..]));
      PairRoundTrip(b, i, ps[0]);
      PutNew(before, p.key, p.val);
      PairsRoundTrip(b, i + |BothBytes(ps[0])|, ps[1..], before + [p]);
    } else {
      assert before + Pairs(ps) == before;
    }
  }

  lemma NewKey(before: seq<Pair>, p: Pair, after: seq<Pair>)
    requires DistinctKeys(before + [p] + after)
    ensures Hashable(p.key) && forall i: nat :: i < |before| ==> !SameKey(before[i].key, p.key)
  {
    hide SameKey, Hashable;
    var all := before + [p] + after;
    assert all[|before|] == p;
    forall i: nat | i < |before| ensures !SameKey(before[i].key, p.key) {
      assert all[i] == before[i];
    }
  }

  lemma {:induction false} PairRoundTrip(b: seq<Octet>, i: nat, p: CodedPair)
    requires LegalPair(p) && At(b, i, BothBytes(p))
    ensures Unpack(b, i) == Ok(PairOf(p).key, i + |Bytes(p.key)|)
    ensures Unpack(b, i + |Bytes(p.key)|) == Ok(PairOf(p).val, i + |BothBytes(p)|)
    decreases p
  {
    hide Legal, Bytes, Unpack, ValueOf, At;
    AtSplit(b, i, Bytes(p.key), Bytes(p.val));
    RoundTrip(b, i, p.key);
    RoundTrip(b, i + |Bytes(p.key)|, p.val);
  }

  // ---------------- every value can be written ----------------

  /** The subset the decoder supports: 64-bit integers, 32-bit lengths. */
  predicate Supported(v: Value) {
    match v
    case Nil => true
    case Bool(_) => true
    case Int(i) => 0 <= 2 * i + Pow256(8) && i < Pow256(8)
    case Float(raw) => |raw| == 4 || |raw| == 8
    case Str(raw) => |raw| < Pow256(4)
    case Bin(raw) => |raw| < Pow256(4)
    case Arr(items) => |items| < Pow256(4) && forall i :: 0 <= i < |items| ==> Supported(items[i])
    case Map(pairs) =>
      |pairs| < Pow256(4) && DistinctKeys(pairs) && forall i :: 0 <= i < |pairs| ==> SupportedPair(pairs[i])
  }

  predicate SupportedPair(p: Pair) {
    Supported(p.key) && Supported(p.val)
  }

  // A width that always fits: the widest.
  function Widest(v: Value): Coded {
    match v
    case Nil => CNil
    case Bool(b) => CBool(b)
    case Int(i) => if i >= 0 then CUnsigned(W8, i) else CSigned(W8, i)
    case Float(raw) => CFloat(raw)
    case Str(raw) => CStr(W4, raw)
    case Bin(raw) => CBin(W4, raw)
    case Arr(items) => CArr(W4, WidestAll(items))
    case Map(pairs) => CMap(W4, WidestPairs(pairs))
  }

  function WidestAll(vs: seq<Value>): (es: seq<Coded>)
    ensures |es| == |vs|
  {
    if vs == [] then [] else [Widest(vs[0])] + WidestAll(vs[1..])
  }

  function WidestPairs(ps: seq<Pair>): (es: seq<CodedPair>)
    ensures |es| == |ps|
  {
    if ps == [] then [] else [WidestPair(ps[0])] + WidestPairs(ps[1..])
  }

  function WidestPair(p: Pair): CodedPair {
    CodedPair(Widest(p.key), Widest(p.val))
  }

  /** Every supported value has a legal encoding, so decoding reaches it. */
  lemma {:induction false} EveryValueIsWritten(v: Value)
    requires Supported(v)
    ensures Legal(Widest(v)) && ValueOf(Widest(v)) == v
    decreases v, 0
  {
    hide Pow256, DistinctKeys;
    match v
    case Arr(items) => AllAreWritten(items);
    case Map(pairs) => PairsAreWritten(pairs);
    case _ =>
  }

  lemma {:induction false} AllAreWritten(vs: seq<Value>)
    requires forall i :: 0 <= i < |vs| ==> Supported(vs[i])
    ensures forall i :: 0 <= i < |vs| ==> Legal(WidestAll(vs)[i])
    ensures Values(WidestAll(vs)) == vs
    decreases vs
  {
    hide Supported, Legal, ValueOf, Widest;
    if vs != [] {
      EveryValueIsWritten(vs[0]);
      AllAreWritten(vs[1..]);
    }
  }

  lemma {:induction false} PairsAreWritten(ps: seq<Pair>)
    requires forall i :: 0 <= i < |ps| ==> SupportedPair(ps[i])
    ensures forall i :: 0 <= i < |ps| ==> LegalPair(WidestPairs(ps)[i])
    ensures Pairs(WidestPairs(ps)) == ps
    decreases ps
  {
    hide SupportedPair, LegalPair, PairOf, WidestPair;
    if ps != [] {
      PairIsWritten(ps[0]);
      PairsAreWritten(ps[1..]);
    }
  }

  lemma {:induction false} PairIsWritten(p: Pair)
    requires SupportedPair(p)
    ensures LegalPair(WidestPair(p)) && PairOf(WidestPair(p)) == p
    decreases p
  {
    hide Supported, Legal, ValueOf, Widest;
    EveryValueIsWritten(p.key);
    EveryValueIsWritten(p.val);
  }

  // ---------------- the decoder as it runs ----------------

  /** unpack, with its two loops below. */
  method Decode(b: seq<Octet>, i: nat) returns (r: Read<Value>)
    ensures r == Unpack(b, i)
    decreases Rest(b, i), 0, 0
  {
    hide Scalar, HeadOf, UnpackArr, UnpackInto, Num, Slice;
    if i >= |b| {
      return Fail(Truncated);
    }
    UnpackIs(b, i);
    var h, j := HeadOf(b[i]), i + 1;
    match h {
      case FixArr(n) => var a := DecodeArr(b, j, n); r := WrapArr(a);
      case ArrHead(w) => var a := DecodeArr(b, j + w, Num(Slice(b, j, w))); r := WrapArr(a);
      case FixMap(n) => var m := DecodeMap(b, j, n); r := WrapMap(m);
      case MapHead(w) => var m := DecodeMap(b, j + w, Num(Slice(b, j, w))); r := WrapMap(m);
      case _ => r := Scalar(b, j, h);
    }
  }

  function Prepend(out: seq<Value>, r: Read<seq<Value>>): Read<seq<Value>> {
    match r case Ok(vs, next) => Ok(out + vs, next) case Fail(e) => Fail(e)
  }

  method DecodeArr(b: seq<Octet>, i: nat, n: nat) returns (r: Read<seq<Value>>)
    ensures r == UnpackArr(b, i, n)
    decreases Rest(b, i), 1, n
  {
    hide Unpack;
    var out: seq<Value>, j := [], i;
    PrependNothing(UnpackArr(b, i, n));
    for k := 0 to n
      invariant j >= i && UnpackArr(b, i, n) == Prepend(out, UnpackArr(b, j, n - k))
    {
      var v := Decode(b, j);
      if v.Fail? {
        return Fail(v.error);
      }
      PrependMore(out, v.value, UnpackArr(b, v.next, n - k - 1));
      out := out + [v.value];
      j := v.next;
    }
    assert out + [] == out;
    r := Ok(out, j);
  }

  lemma PrependNothing(r: Read<seq<Value>>)
    ensures Prepend([], r) == r
  {
    if r.Ok? {
      assert [] + r.value == r.value;
    }
  }

  lemma PrependMore(out: seq<Value>, v: Value, r: Read<seq<Value>>)
    ensures Prepend(out, Prepend([v], r)) == Prepend(out + [v], r)
  {
    if r.Ok? {
      assert out + ([v] + r.value) == out + [v] + r.value;
    }
  }

  method DecodeMap(b: seq<Octet>, i: nat, n: nat) returns (r: Read<seq<Pair>>)
    ensures r == UnpackInto(b, i, n, [])
    decreases Rest(b, i), 1, n
  {
    hide Unpack, Put, Hashable;
    var out: seq<Pair>, j := [], i;
    for k := 0 to n
      invariant j >= i && UnpackInto(b, i, n, []) == UnpackInto(b, j, n - k, out)
    {
      var key := Decode(b, j);
      if key.Fail? {
        return Fail(key.error);
      }
      var val := Decode(b, key.next);
      if val.Fail? {
        return Fail(val.error);
      }
      if !Hashable(key.value) {
        return Fail(UnhashableKey);
      }
      out := Put(out, key.value, val.value);
      j := val.next;
    }
    r := Ok(out, j);
  }
}

/** The note list of an ELF note section. */
module ElfNotes {
  import opened MsgPack

  datatype Note = Note(name: seq<Octet>, kind: nat, desc: seq<Octet>)

  // ---------------- little-endian words and padding ----------------

  function Little(x: nat, n: nat): (s: seq<Octet>)
    ensures |s| == n
  {
    if n == 0 then [] else [x % 0x100] + Little(x / 0x100, n - 1)
  }

  function Word(s: seq<Octet>): nat {
    if s == [] then 0 else s[0] + 0x100 * Word(s[1..])
  }

  lemma {:induction false} WordOfLittle(x: nat, n: nat)
    requires x < Pow256(n)
    ensures Word(Little(x, n)) == x
  {
    if n > 0 {
      WordOfLittle(x / 0x100, n - 1);
      assert Little(x, n)[1..] == Little(x / 0x100, n - 1);
    }
  }

  // (n + 3) & ~3
  function Padded(n: nat): (m: nat)
    ensures n <= m < n + 4 && m % 4 == 0
  {
    4 * ((n + 3) / 4)
  }

  function Zeros(n: nat): (z: seq<Octet>)
    ensures |z| == n && forall i :: 0 <= i < n ==> z[i] == 0
  {
    seq(n, i => 0)
  }

  // rstrip(b"\0")
  function Stripped(s: seq<Octet>): seq<Octet> {
    if s != [] && s[|s| - 1] == 0 then Stripped(s[..|s| - 1]) else s
  }

  // ---------------- parsing ----------------

  function NoteAt(b: seq<Octet>, i: nat): Note
    requires i + 12 <= |b|
  {
    var namesz, descsz := Word(b[i..i + 4]), Word(b[i + 4..i + 8]);
    Note(Stripped(Slice(b, i + 12, namesz)), Word(b[i + 8..i + 12]), Slice(b, i + 12 + Padded(namesz), descsz))
  }

  function After(b: seq<Octet>, i: nat): (j: nat)
    requires i + 12 <= |b|
    ensures j >= i + 12
  {
    i + 12 + Padded(Word(b[i..i + 4])) + Padded(Word(b[i + 4..i + 8]))
  }

  // The notes from offset i on.
  function Notes(b: seq<Octet>, i: nat): seq<Note>
    decreases Rest(b, i)
  {
    if i + 12 > |b| then [] else [NoteAt(b, i)] + Notes(b, After(b, i))
  }

  /** parse_note: the loop over the section. */
  method ParseNotes(b: seq<Octet>) returns (out: seq<Note>)
    ensures out == Notes(b, 0)
  {
    hide NoteAt, After;
    out := [];
    var i: nat := 0;
    while i + 12 <= |b|
      invariant Notes(b, 0) == out + Notes(b, i)
      decreases Rest(b, i)
    {
      assert out + ([NoteAt(b, i)] + Notes(b, After(b, i))) == out + [NoteAt(b, i)] + Notes(b, After(b, i));
      out := out + [NoteAt(b, i)];
      i := After(b, i);
    }
  }

  // ---------------- writing ----------------

  // A note and the NUL bytes its name is stored with.
  datatype Stored = Stored(note: Note, nuls: nat)

  predicate Writable(s: Stored) {
    && (s.note.name == [] || s.note.name[|s.note.name| - 1] != 0)
    && |s.note.name| + s.nuls < Pow256(4) && |s.note.desc| < Pow256(4) && s.note.kind < Pow256(4)
  }

  // The stored name, then zeros to the next multiple of four; the descriptor likewise.
  function Written(s: Stored): seq<Octet> {
    var n, d := |s.note.name| + s.nuls, |s.note.desc|;
    Little(n, 4) + Little(d, 4) + Little(s.note.kind, 4)
    + (s.note.name + Zeros(s.nuls)) + Zeros(Padded(n) - n) + s.note.desc + Zeros(Padded(d) - d)
  }

  function AllWritten(ss: seq<Stored>): seq<Octet> {
    if ss == [] then [] else Written(ss[0]) + AllWritten(ss[1..])
  }

  function NotesOf(ss: seq<Stored>): seq<Note> {
    if ss == [] then [] else [ss[0].note] + NotesOf(ss[1..])
  }

  lemma {:induction false} StrippedName(name: seq<Octet>, z: nat)
    requires name == [] || name[|name| - 1] != 0
    ensures Stripped(name + Zeros(z)) == name
  {
    if z > 0 {
      assert (name + Zeros(z))[..|name| + z - 1] == name + Zeros(z - 1);
      StrippedName(name, z - 1);
    } else {
      assert name + Zeros(0) == name;
    }
  }

  lemma WordAt(b: seq<Octet>, i: nat, x: nat)
    requires x < Pow256(4) && At(b, i, Little(x, 4))
    ensures i + 4 <= |b| && Word(b[i..i + 4]) == x
  {
    hide Pow256, Little, Word;
    WordOfLittle(x, 4);
  }

  lemma Header(b: seq<Octet>, i: nat, n: nat, d: nat, k: nat, rest: seq<Octet>)
    requires n < Pow256(4) && d < Pow256(4) && k < Pow256(4)
    requires At(b, i, Little(n, 4) + Little(d, 4) + Little(k, 4) + rest)
    ensures i + 12 <= |b| && Word(b[i..i + 4]) == n && Word(b[i + 4..i + 8]) == d && Word(b[i + 8..i + 12]) == k
    ensures At(b, i + 12, rest)
  {
    hide Pow256, Little, Word, At;
    AtSplit(b, i, Little(n, 4) + Little(d, 4) + Little(k, 4), rest);
    AtSplit(b, i, Little(n, 4) + Little(d, 4), Little(k, 4));
    AtSplit(b, i, Little(n, 4), Little(d, 4));
    WordAt(b, i, n);
    WordAt(b, i + 4, d);
    WordAt(b, i + 8, k);
  }

  lemma {:induction false} OneNote(b: seq<Octet>, i: nat, s: Stored)
    requires Writable(s) && At(b, i, Written(s))
    ensures i + 12 <= |b| && NoteAt(b, i) == s.note && After(b, i) == i + |Written(s)|
  {
    hide Pow256, Little, Word, Stripped, Slice, At;
    var n, d := |s.note.name| + s.nuls, |s.note.desc|;
    var name, pad, dpad := s.note.name + Zeros(s.nuls), Zeros(Padded(n) - n), Zeros(Padded(d) - d);
    var head := Little(n, 4) + Little(d, 4) + Little(s.note.kind, 4);
    assert Written(s) == head + (name + (pad + (s.note.desc + dpad)));
    Header(b, i, n, d, s.note.kind, name + (pad + (s.note.desc + dpad)));
    AtSplit(b, i + 12, name, pad + (s.note.desc + dpad));
    AtSplit(b, i + 12 + n, pad, s.note.desc + dpad);
    AtSplit(b, i + 12 + Padded(n), s.note.desc, dpad);
    SliceAt(b, i + 12, name);
    SliceAt(b, i + 12 + Padded(n), s.note.desc);
    StrippedName(s.note.name, s.nuls);
  }

  /** Parsing inverts writing any list of padded notes; fewer than twelve
      bytes after the last one are ignored. */
  lemma {:induction false} NotesRoundTrip(b: seq<Octet>, i: nat, ss: seq<Stored>)
    requires (forall k :: 0 <= k < |ss| ==> Writable(ss[k])) && At(b, i, AllWritten(ss))
    requires |b| < i + |AllWritten(ss)| + 12
    ensures Notes(b, i) == NotesOf(ss)
    decreases |ss|
  {
    hide Written, Writable, NoteAt, After, At;
    if ss != [] {
      AtSplit(b, i, Written(ss[0]), AllWritten(ss[1..]));
      OneNote(b, i, ss[0]);
      NotesRoundTrip(b, i + |Written(ss[0])|, ss[1..]);
    }
  }
}
