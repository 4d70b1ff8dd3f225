/** Recognising the one upstream offload bundle: a bounded parse of its entry
    table and a hash of its content. */
module BundleIdentity {
  import opened Words
  import opened Isa
  import opened Hexadecimal
  import Sha256
  import Sha256Code

  const VERSION: nat := 5
  const MAX_SPAN: nat := 16 * 1024 * 1024
  const MAX_ENTRIES: nat := 16
  const EXPECTED_DIGEST: string := "13018cbe95e2652fcccf1b958c0bf09e54172d03fa262a0c86539b8351300a54"
  const MAGIC: string := "__CLANG_OFFLOAD_BUNDLE__"
  const HOST: string := "host-"
  const TARGET: string := "hipv4-amdgcn-amd-amdhsa--"
  const ARCHS: seq<string> := ["gfx1100", "gfx1101", "gfx1102", "gfx1201"]

  // ---------------- bytes and text ----------------

  function Code(b: Byte): char {
    (b as int) as char
  }

  function Text(bytes: seq<Byte>): (s: string)
    ensures |s| == |bytes|
  {
    seq(|bytes|, i requires 0 <= i < |bytes| => Code(bytes[i]))
  }

  // A C string ends before its first NUL.
  function CString(s: string): string {
    if s == [] || s[0] == '\0' then [] else [s[0]] + CString(s[1..])
  }

  // Eight bytes, little endian.
  function U64(p: seq<Byte>, at: nat): nat
    requires at + 8 <= |p|
  {
    Value(p[at]) + 0x100 * (Value(p[at + 1]) + 0x100 * (Value(p[at + 2]) + 0x100 * (Value(p[at + 3]) + 0x100 * (
      Value(p[at + 4]) + 0x100 * (Value(p[at + 5]) + 0x100 * (Value(p[at + 6]) + 0x100 * Value(p[at + 7])))))))
  }

  function Value(b: Byte): nat {
    b as nat
  }

  // ---------------- the entry table ----------------

  datatype Entry = Entry(off: nat, size: nat, id: string)

  datatype Kind = Host | Arch(k: nat) | Other

  function ArchOf(name: string, k: nat): Kind
    requires k <= |ARCHS|
    decreases |ARCHS| - k
  {
    if k == |ARCHS| then Other else if ARCHS[k] == name then Arch(k) else ArchOf(name, k + 1)
  }

  // Host entries by prefix; device entries by the C string after the target prefix.
  function KindOf(id: string): Kind {
    if HOST <= id then Host
    else if TARGET <= id then ArchOf(CString(id[|TARGET|..]), 0)
    else Other
  }

  /** The table from `pos` up to its terminator: at most n entries, everything
      below the cap.  None when it is malformed. */
  function Entries(p: seq<Byte>, pos: nat, n: nat): Option<seq<Entry>>
    requires |p| >= MAX_SPAN
    decreases n
  {
    if pos + 24 > MAX_SPAN then None
    else
      var off, size, len := U64(p, pos), U64(p, pos + 8), U64(p, pos + 16);
      if off == 0 && size == 0 && len == 0 then Some([])
      else if n == 0 || len == 0 || len > 256 || pos + 24 + len > MAX_SPAN then None
      else
        match Entries(p, pos + 24 + len, n - 1)
        case None => None
        case Some(rest) => Some([Entry(off, size, Text(p[pos + 24..pos + 24 + len]))] + rest)
  }

  // Every entry is a host or a known device entry, with its span inside the cap; host entries are empty.
  predicate WellFormed(es: seq<Entry>) {
    forall i: nat :: i < |es| ==> WellFormedEntry(es[i])
  }

  predicate WellFormedEntry(e: Entry) {
    && e.off + e.size <= MAX_SPAN
    && !KindOf(e.id).Other?
    && (KindOf(e.id).Host? ==> e.size == 0)
  }

  // No two entries are of the same kind.
  predicate NoRepeats(es: seq<Entry>) {
    forall i: nat, j: nat :: i < j < |es| ==> KindOf(es[i].id) != KindOf(es[j].id)
  }

  predicate Present(es: seq<Entry>, kind: Kind) {
    exists i: nat :: i < |es| && KindOf(es[i].id) == kind
  }

  // The end of the longest span.
  function SpanEnd(es: seq<Entry>): (end: nat)
    ensures forall i: nat :: i < |es| ==> es[i].off + es[i].size <= end
  {
    if es == [] then 0
    else
      var last := es[|es| - 1];
      var before := SpanEnd(es[..|es| - 1]);
      if last.off + last.size > before then last.off + last.size else before
  }

  /** The upstream bundle: one empty host entry and each device architecture
      exactly once, in any order, with the expected content hash. */
  predicate Recognised(p: seq<Byte>)
    requires |p| >= MAX_SPAN
  {
    && Text(p[..24]) == MAGIC && U64(p, 24) == VERSION
    && Entries(p, 32, MAX_ENTRIES).Some?
    && var es := Entries(p, 32, MAX_ENTRIES).value;
       && WellFormed(es) && NoRepeats(es)
       && Present(es, Host) && (forall k: nat :: k < 4 ==> Present(es, Arch(k)))
       && 0 < SpanEnd(es) <= MAX_SPAN
       && HexOf(Sha256.Digest(p[..SpanEnd(es)])) == EXPECTED_DIGEST
  }

  // ---------------- the hash comparison ----------------

  // The characters of a C string and its terminator; nothing beyond may be read.
  function CharAt(s: string, i: nat): char
    requires i <= |s|
  {
    if i < |s| then s[i] else '\0'
  }

  lemma HexIsText(b: Byte)
    ensures High(b) != '\0' && Low(b) != '\0'
  {
  }

  /** Compares without ever reading past the terminator of the text. */
  method HexEq(digest: seq<Byte>, hex: string) returns (same: bool)
    requires |digest| == 32 && (|hex| > 64 ==> hex[64] != '\0')
    ensures same <==> hex == HexOf(digest)
  {
    hide High, Low, HexOf;
    for i := 0 to 32
      invariant 2 * i <= |hex|
      invariant forall j: nat :: j < 2 * i ==> hex[j] == HexOf(digest)[j]
    {
      HexAt(digest, i);
      HexIsText(digest[i]);
      if CharAt(hex, 2 * i) != High(digest[i]) || CharAt(hex, 2 * i + 1) != Low(digest[i]) {
        return false;
      }
    }
    same := CharAt(hex, 64) == '\0';
    if same {
      assert |hex| == 64;
    }
  }

  // ---------------- the decision ----------------

  datatype Identity = NotOurs(why: string) | Match

  // The table read so far, and what is left of it.
  ghost predicate ReadUpTo(p: seq<Byte>, done: seq<Entry>, pos: nat)
    requires |p| >= MAX_SPAN
  {
    && |done| <= MAX_ENTRIES
    && Entries(p, 32, MAX_ENTRIES) == match Entries(p, pos, MAX_ENTRIES - |done|)
         case None => None
         case Some(rest) => Some(done + rest)
  }

  // The flags say which architectures have been seen.
  predicate Flags(seen: seq<bool>, es: seq<Entry>) {
    |seen| == 4 && forall k: nat :: k < 4 ==> seen[k] == Present(es, Arch(k))
  }

  /** The device architecture a name denotes, found by a search of the list. */
  method FindArch(name: string) returns (k: nat)
    ensures k <= 4
    ensures k < 4 ==> ArchOf(name, 0) == Arch(k)
    ensures k == 4 ==> ArchOf(name, 0) == Other
  {
    k := 0;
    while k < 4
      invariant k <= 4 && ArchOf(name, 0) == ArchOf(name, k)
    {
      if ARCHS[k] == name {
        return;
      }
      k := k + 1;
    }
  }

  // What the loop knows after reading some entries without failing.
  ghost predicate Accepted(es: seq<Entry>, hosts: nat, seen: seq<bool>, end: nat) {
    && WellFormed(es) && end == SpanEnd(es) <= MAX_SPAN
    && Flags(seen, es)
    && (hosts == 0 <==> !Present(es, Host))
    && (hosts <= 1 <==> NoRepeats(es))
  }

  lemma NothingAccepted()
    ensures Accepted([], 0, [false, false, false, false], 0)
  {
  }

  lemma {:induction false} EntryAccepted(es: seq<Entry>, e: Entry, hosts: nat, seen: seq<bool>, end: nat)
    requires Accepted(es, hosts, seen, end) && WellFormedEntry(e)
    requires var kind := KindOf(e.id); kind.Arch? ==> kind.k < 4 && !seen[kind.k]
    ensures var kind, more := KindOf(e.id), es + [e];
      Accepted(more, if kind.Host? then hosts + 1 else hosts, if kind.Arch? then seen[kind.k := true] else seen,
               if e.off + e.size > end then e.off + e.size else end)
  {
    hide KindOf;
    var kind, more := KindOf(e.id), es + [e];
    assert more[..|more| - 1] == es;
    assert more[|es|] == e;
    assert forall i: nat :: i < |es| ==> more[i] == es[i];
    PresentGrows(es, e, Host);
    forall k: nat | k < 4 ensures Present(more, Arch(k)) <==> (Present(es, Arch(k)) || kind == Arch(k)) {
      PresentGrows(es, e, Arch(k));
    }
    RepeatsGrow(es, e);
  }

  lemma {:induction false} PresentGrows(es: seq<Entry>, e: Entry, kind: Kind)
    ensures Present(es + [e], kind) <==> (Present(es, kind) || KindOf(e.id) == kind)
  {
    hide KindOf;
    var more := es + [e];
    if Present(es, kind) {
      var i: nat :| i < |es| && KindOf(es[i].id) == kind;
      assert more[i] == es[i];
    }
    assert more[|es|] == e;
  }

  lemma {:induction false} RepeatsGrow(es: seq<Entry>, e: Entry)
    ensures NoRepeats(es + [e]) <==> NoRepeats(es) && !Present(es, KindOf(e.id))
  {
    hide KindOf;
    var more := es + [e];
    assert more[|es|] == e && forall i: nat :: i < |es| ==> more[i] == es[i];
    if NoRepeats(more) {
      forall i: nat, j: nat | i < j < |es| ensures KindOf(es[i].id) != KindOf(es[j].id) {
        assert more[i] == es[i] && more[j] == es[j];
      }
      forall i: nat | i < |es| ensures KindOf(es[i].id) != KindOf(e.id) {
        assert more[i] == es[i];
      }
    }
  }

  lemma ArchBounded(name: string, k: nat)
    requires k <= |ARCHS|
    ensures ArchOf(name, k).Other? || (ArchOf(name, k).Arch? && ArchOf(name, k).k < 4)
    decreases |ARCHS| - k
  {
    if k < |ARCHS| {
      ArchBounded(name, k + 1);
    }
  }

  /** A recognised bundle has exactly five entries. */
  lemma {:induction false} FiveEntries(es: seq<Entry>)
    requires WellFormed(es) && NoRepeats(es) && Present(es, Host) && forall k: nat :: k < 4 ==> Present(es, Arch(k))
    ensures |es| == 5
  {
    hide KindOf, WellFormedEntry;
    var kinds := Kinds(es);
    var five: set<Kind> := {Host, Arch(0), Arch(1), Arch(2), Arch(3)};
    forall x | x in five ensures x in kinds {
      assert Present(es, x);
      var i: nat :| i < |es| && KindOf(es[i].id) == x;
      assert kinds[i] == x;
    }
    KindsAreKnown(es);
    Distinct(kinds);
    assert (set x | x in kinds) == five;
  }

  lemma {:induction false} RecognisedHasFiveEntries(p: seq<Byte>)
    requires |p| >= MAX_SPAN && Recognised(p)
    ensures |Entries(p, 32, MAX_ENTRIES).value| == 5
  {
    hide WellFormed, NoRepeats, Present, Entries, HexOf, Text, U64;
    FiveEntries(Entries(p, 32, MAX_ENTRIES).value);
  }

  function Kinds(es: seq<Entry>): seq<Kind> {
    seq(|es|, i requires 0 <= i < |es| => KindOf(es[i].id))
  }

  lemma KindsAreKnown(es: seq<Entry>)
    requires WellFormed(es)
    ensures forall x :: x in Kinds(es) ==> x in {Host, Arch(0), Arch(1), Arch(2), Arch(3)}
  {
    hide KindOf;
    forall x | x in Kinds(es) ensures x in {Host, Arch(0), Arch(1), Arch(2), Arch(3)} {
      var i :| 0 <= i < |es| && Kinds(es)[i] == x;
      assert WellFormedEntry(es[i]);
      KindIsKnown(es[i].id);
    }
  }

  lemma KindIsKnown(id: string)
    requires !KindOf(id).Other?
    ensures KindOf(id) in {Host, Arch(0), Arch(1), Arch(2), Arch(3)}
  {
    if !(HOST <= id) && TARGET <= id {
      ArchBounded(CString(id[|TARGET|..]), 0);
    }
  }

  lemma {:induction false} Distinct<T>(s: seq<T>)
    requires forall i: nat, j: nat :: i < j < |s| ==> s[i] != s[j]
    ensures |set x | x in s| == |s|
  {
    if s != [] {
      var rest := s[..|s| - 1];
      Distinct(rest);
      assert (set x | x in s) == (set x | x in rest) + {s[|s| - 1]};
    }
  }

  // The entry at pos, when its header is neither a terminator nor out of bounds.
  predicate HasEntry(p: seq<Byte>, pos: nat)
    requires |p| >= MAX_SPAN
  {
    && pos + 24 <= MAX_SPAN
    && var len := U64(p, pos + 16); 0 < len <= 256 && pos + 24 + len <= MAX_SPAN
  }

  function EntryAt(p: seq<Byte>, pos: nat): Entry
    requires |p| >= MAX_SPAN && HasEntry(p, pos)
  {
    Entry(U64(p, pos), U64(p, pos + 8), Text(p[pos + 24..pos + 24 + U64(p, pos + 16)]))
  }

  /** Reading one more entry: it is the next one of whatever table there is. */
  lemma {:induction false} NextEntry(p: seq<Byte>, done: seq<Entry>, pos: nat)
    requires |p| >= MAX_SPAN && ReadUpTo(p, done, pos) && |done| < MAX_ENTRIES && HasEntry(p, pos)
    ensures ReadUpTo(p, done + [EntryAt(p, pos)], pos + 24 + U64(p, pos + 16))
    ensures var all := Entries(p, 32, MAX_ENTRIES);
      all.Some? ==> |all.value| > |done| && all.value[..|done|] == done && all.value[|done|] == EntryAt(p, pos)
  {
    hide U64, Text, Entries;
    var e, next := EntryAt(p, pos), pos + 24 + U64(p, pos + 16);
    var n := MAX_ENTRIES - |done|;
    TableStep(p, pos, n);
    match Entries(p, next, n - 1)
    case None =>
    case Some(rest) => assert done + ([e] + rest) == done + [e] + rest;
  }

  lemma {:induction false} TableStep(p: seq<Byte>, pos: nat, n: nat)
    requires |p| >= MAX_SPAN && n > 0 && HasEntry(p, pos)
    ensures var next := Entries(p, pos + 24 + U64(p, pos + 16), n - 1);
      Entries(p, pos, n) == if next.None? then None else Some([EntryAt(p, pos)] + next.value)
  {
    hide U64, Text;
  }

  // A table that is malformed here is no table at all.
  lemma {:induction false} Malformed(p: seq<Byte>, done: seq<Entry>, pos: nat)
    requires |p| >= MAX_SPAN && ReadUpTo(p, done, pos)
    requires pos + 24 > MAX_SPAN
      || (!(U64(p, pos) == 0 && U64(p, pos + 8) == 0 && U64(p, pos + 16) == 0)
          && (|done| == MAX_ENTRIES || !HasEntry(p, pos)))
    ensures !Recognised(p)
  {
    hide U64, Text, HexOf;
  }

  lemma {:induction false} BadEntry(p: seq<Byte>, done: seq<Entry>, e: Entry)
    requires |p| >= MAX_SPAN
    requires var all := Entries(p, 32, MAX_ENTRIES);
      all.Some? ==> |all.value| > |done| && all.value[..|done|] == done && all.value[|done|] == e
    requires !WellFormedEntry(e) || Present(done, KindOf(e.id))
    ensures !Recognised(p)
  {
    hide KindOf, U64, Text, HexOf, Entries;
    var all := Entries(p, 32, MAX_ENTRIES);
    if all.Some? && WellFormedEntry(e) {
      var i: nat :| i < |done| && KindOf(done[i].id) == KindOf(e.id);
      assert all.value[..|done|][i] == all.value[i];
    }
  }

  lemma TableEnds(p: seq<Byte>, done: seq<Entry>, pos: nat)
    requires |p| >= MAX_SPAN && ReadUpTo(p, done, pos) && pos + 24 <= MAX_SPAN
    requires U64(p, pos) == 0 && U64(p, pos + 8) == 0 && U64(p, pos + 16) == 0
    ensures Entries(p, 32, MAX_ENTRIES) == Some(done)
  {
    hide U64;
    assert done + [] == done;
  }

  /** The decision: a match if and only if the payload is the upstream bundle.
      Every index stays below the cap and the loop ends. */
  method Identify(data: Option<seq<Byte>>) returns (r: Identity)
    requires data.Some? ==> |data.value| >= MAX_SPAN
    ensures r.Match? <==> data.Some? && Recognised(data.value)
  {
    hide Entries, U64, Text, KindOf, HexOf, Accepted, ReadUpTo, WellFormedEntry, WellFormed, NoRepeats, Present, SpanEnd;
    if data.None? {
      return NotOurs("null payload");
    }
    var p := data.value;
    if Text(p[..24]) != MAGIC {
      return NotOurs("bundle magic mismatch");
    }
    if U64(p, 24) != VERSION {
      return NotOurs("bundle version mismatch");
    }
    var verdict, seenHost, archSeen, spanEnd, es := ReadTable(p);
    if verdict != "" {
      return NotOurs(verdict);
    }
    Conclusion(es, seenHost, archSeen, spanEnd);
    if seenHost != 1 {
      return NotOurs("host entry count != 1");
    }
    for i := 0 to 4
      invariant forall k: nat :: k < i ==> archSeen[k]
    {
      if !archSeen[i] {
        return NotOurs("missing expected arch entry");
      }
    }
    if spanEnd == 0 || spanEnd > MAX_SPAN {
      return NotOurs("bad content span");
    }
    var digest := Sha256Code.OneShot(p[..spanEnd]);
    var same := HexEq(digest, EXPECTED_DIGEST);
    if !same {
      return NotOurs("content hash mismatch");
    }
    return Match;
  }

  lemma {:induction false} Conclusion(es: seq<Entry>, hosts: nat, seen: seq<bool>, end: nat)
    requires Accepted(es, hosts, seen, end)
    ensures |seen| == 4 && end == SpanEnd(es) <= MAX_SPAN && WellFormed(es)
    ensures hosts == 1 <==> NoRepeats(es) && Present(es, Host)
    ensures forall k: nat :: k < 4 ==> (seen[k] <==> Present(es, Arch(k)))
  {
    hide WellFormed, NoRepeats, Present, SpanEnd;
  }

  /** The table loop.  An empty verdict means the terminator was reached. */
  method ReadTable(p: seq<Byte>) returns (verdict: string, seenHost: nat, archSeen: seq<bool>, spanEnd: nat, ghost es: seq<Entry>)
    requires |p| >= MAX_SPAN
    ensures verdict != "" ==> !Recognised(p)
    ensures verdict == "" ==> Entries(p, 32, MAX_ENTRIES) == Some(es) && Accepted(es, seenHost, archSeen, spanEnd)
  {
    hide Entries, U64, Text, KindOf, HexOf, Accepted, ReadUpTo, WellFormed, NoRepeats, Present, SpanEnd, Recognised;
    verdict, seenHost, archSeen, spanEnd, es := "", 0, [false, false, false, false], 0, [];
    NothingAccepted();
    NothingRead(p);
    var pos: nat, entries: nat := 32, 0;
    while true
      invariant ReadUpTo(p, es, pos) && Accepted(es, seenHost, archSeen, spanEnd)
      invariant |es| == entries <= MAX_ENTRIES && verdict == ""
      decreases MAX_ENTRIES - entries
    {
      if pos + 24 > MAX_SPAN {
        Malformed(p, es, pos);
        verdict := "entry table overrun cap";
        return;
      }
      var off, size, idLen := U64(p, pos), U64(p, pos + 8), U64(p, pos + 16);
      if off == 0 && size == 0 && idLen == 0 {
        TableEnds(p, es, pos);
        return;
      }
      entries := entries + 1;
      if entries > MAX_ENTRIES {
        Malformed(p, es, pos);
        verdict := "too many entries";
        return;
      }
      if idLen == 0 || idLen > 256 || pos + 24 + idLen > MAX_SPAN {
        Malformed(p, es, pos);
        verdict := "entry id length out of bounds";
        return;
      }
      NextEntry(p, es, pos);
      Conclusion(es, seenHost, archSeen, spanEnd);
      ghost var e := EntryAt(p, pos);
      if off > MAX_SPAN || size > MAX_SPAN || off + size > MAX_SPAN {
        BadEntry(p, es, e);
        verdict := "entry span out of bounds";
        return;
      }
      var id := Text(p[pos + 24..pos + 24 + idLen]);
      var fault, kind := Classify(id, size, archSeen);
      if fault != "" {
        Rejected(es, e, seenHost, archSeen, spanEnd);
        BadEntry(p, es, e);
        verdict := fault;
        return;
      }
      assert e == Entry(off, size, id);
      EntryAccepted(es, e, seenHost, archSeen, spanEnd);
      es := es + [e];
      if off + size > spanEnd {
        spanEnd := off + size;
      }
      match kind {
        case Host => seenHost := seenHost + 1;
        case Arch(k) => archSeen := archSeen[k := true];
      }
      pos := pos + 24 + idLen;
    }
  }

  predicate Usable(kind: Kind, size: nat, archSeen: seq<bool>)
    requires |archSeen| == 4
  {
    match kind
    case Host => size == 0
    case Arch(k) => k < 4 && !archSeen[k]
    case Other => false
  }

  // What an entry id stands for, or why it is refused.
  method Classify(id: string, size: nat, archSeen: seq<bool>) returns (fault: string, kind: Kind)
    requires |archSeen| == 4
    ensures fault == "" ==> kind == KindOf(id) && Usable(kind, size, archSeen)
    ensures fault != "" ==> !Usable(KindOf(id), size, archSeen)
  {
    fault, kind := "", Other;
    if HOST <= id {
      kind := Host;
      if size != 0 {
        fault := "host entry non-empty";
      }
    } else if TARGET <= id {
      var k := FindArch(CString(id[|TARGET|..]));
      if k == 4 {
        fault := "unknown arch entry";
      } else if archSeen[k] {
        fault := "duplicate arch entry";
      } else {
        kind := Arch(k);
      }
    } else {
      fault := "unexpected entry id";
    }
  }

  lemma NothingRead(p: seq<Byte>)
    requires |p| >= MAX_SPAN
    ensures ReadUpTo(p, [], 32)
  {
    hide Entries;
    if Entries(p, 32, MAX_ENTRIES).Some? {
      assert [] + Entries(p, 32, MAX_ENTRIES).value == Entries(p, 32, MAX_ENTRIES).value;
    }
  }

  lemma {:induction false} Rejected(es: seq<Entry>, e: Entry, hosts: nat, seen: seq<bool>, end: nat)
    requires Accepted(es, hosts, seen, end) && |seen| == 4 && !Usable(KindOf(e.id), e.size, seen)
    ensures !WellFormedEntry(e) || Present(es, KindOf(e.id))
  {
    hide KindOf, Present, WellFormed, NoRepeats;
    if !KindOf(e.id).Other? {
      KindIsKnown(e.id);
    }
  }
}
