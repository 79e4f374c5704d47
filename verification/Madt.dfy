/**
  The walk over the Multiple APIC Description Table (section 5.2.12 of the ACPI
  specification): a header, then length-prefixed entries, some of which are collected into
  arrays of fixed size.
 */
module Madt {

  type Byte = b: nat | b < 256

  /** Physical memory from the start of the table on.  It may continue past the table. */
  type Memory = seq<Byte>

  function Load(mem: Memory, at: nat): Byte {
    if at < |mem| then mem[at] else 0
  }

  const SDT_HEADER: nat := 36
  const MADT_HEADER: nat := 44          // SDT_HEADER, then two 32-bit fields
  const ENTRY_HEADER: nat := 2
  const MAX_IOAPICS: nat := 8
  const MAX_OVERRIDES: nat := 32
  const KIND_IOAPIC: nat := 1
  const KIND_OVERRIDE: nat := 2

  function Word16(mem: Memory, at: nat): nat {
    Load(mem, at) + 0x100 * Load(mem, at + 1)
  }

  function Join32(b0: nat, b1: nat, b2: nat, b3: nat): nat {
    b0 + 0x100 * b1 + 0x1_0000 * b2 + 0x100_0000 * b3
  }

  function Word32(mem: Memory, at: nat): nat {
    Join32(Load(mem, at), Load(mem, at + 1), Load(mem, at + 2), Load(mem, at + 3))
  }

  datatype IOAPICInfo = IOAPICInfo(ID: nat, Phys: nat, GSIBase: nat)
  datatype ISOInfo = ISOInfo(IRQ: nat, GSI: nat, Flags: nat)

  class ParsedMADT {
    var LocalAPICBase: nat
    var BSP_APIC_ID: nat
    const IOAPICs: array<IOAPICInfo>
    var IOAPICCount: nat
    const ISOs: array<ISOInfo>
    var ISOCount: nat

    ghost predicate Valid()
      reads this
    {
      && IOAPICs.Length == MAX_IOAPICS && IOAPICCount <= MAX_IOAPICS
      && ISOs.Length == MAX_OVERRIDES && ISOCount <= MAX_OVERRIDES
    }

    constructor ()
      ensures Valid() && IOAPICCount == 0 && ISOCount == 0 && fresh(IOAPICs) && fresh(ISOs)
      ensures LocalAPICBase == 0 && BSP_APIC_ID == 0xFF
    {
      LocalAPICBase, BSP_APIC_ID, IOAPICCount, ISOCount := 0, 0xFF, 0, 0;
      IOAPICs := new IOAPICInfo[MAX_IOAPICS](_ => IOAPICInfo(0, 0, 0));
      ISOs := new ISOInfo[MAX_OVERRIDES](_ => ISOInfo(0, 0, 0));
    }
  }

  // ---------------------------------------------------------- entries of a table

  datatype Entry = Entry(kind: Byte, length: Byte, at: nat)

  function EntryAt(mem: Memory, p: nat): Entry {
    Entry(Load(mem, p), Load(mem, p + 1), p)
  }

  /** The entries from address p on: the walk stops at a zero length or at the end of the table. */
  function Entries(mem: Memory, p: nat, end: nat): seq<Entry>
    decreases end - p
  {
    if p + ENTRY_HEADER > end || Load(mem, p + 1) == 0 then []
    else [EntryAt(mem, p)] + Entries(mem, p + Load(mem, p + 1), end)
  }

  /** The I/O APIC an entry describes, decoded; none for entries of another kind or too short. */
  function IOAPICOf(mem: Memory, e: Entry): seq<IOAPICInfo> {
    if e.kind == KIND_IOAPIC && e.length >= 12
    then [IOAPICInfo(Load(mem, e.at + 2), Word32(mem, e.at + 4), Word32(mem, e.at + 8))]
    else []
  }

  function OverrideAt(mem: Memory, at: nat): ISOInfo {
    ISOInfo(Load(mem, at + 45), Word32(mem, at + 46), Word16(mem, at + 50))
  }

  /** The override an entry describes, read the way the code reads it: behind the size of the table's header, not the entry's. */
  function OverrideOf(mem: Memory, e: Entry): seq<ISOInfo> {
    if e.kind == KIND_OVERRIDE && e.length >= 10
    then [OverrideAt(mem, e.at)]
    else []
  }

  function IOAPICsOf(mem: Memory, es: seq<Entry>): seq<IOAPICInfo> {
    if es == [] then [] else IOAPICOf(mem, es[0]) + IOAPICsOf(mem, es[1..])
  }

  function OverridesOf(mem: Memory, es: seq<Entry>): seq<ISOInfo> {
    if es == [] then [] else OverrideOf(mem, es[0]) + OverridesOf(mem, es[1..])
  }

  function FirstOf<T>(s: seq<T>, n: nat): (r: seq<T>)
    ensures r <= s && |r| == if |s| <= n then |s| else n
  {
    if |s| <= n then s else s[..n]
  }

  lemma FirstOfAppend<T>(s: seq<T>, x: T, n: nat)
    ensures FirstOf(s + [x], n) == if |FirstOf(s, n)| < n then FirstOf(s, n) + [x] else FirstOf(s, n)
  {
  }

  lemma Unfold(mem: Memory, p: nat, end: nat)
    requires p + ENTRY_HEADER <= end && Load(mem, p + 1) != 0
    ensures
      var e, rest := EntryAt(mem, p), Entries(mem, p + Load(mem, p + 1), end);
      && Entries(mem, p, end) == [e] + rest
      && IOAPICsOf(mem, Entries(mem, p, end)) == IOAPICOf(mem, e) + IOAPICsOf(mem, rest)
      && OverridesOf(mem, Entries(mem, p, end)) == OverrideOf(mem, e) + OverridesOf(mem, rest)
  {
    var es, rest := Entries(mem, p, end), Entries(mem, p + Load(mem, p + 1), end);
    assert es[1..] == rest;
  }

  /** The arrays hold as many of the given items as there is room for. */
  ghost predicate Holds(out: ParsedMADT, ioapics: seq<IOAPICInfo>, isos: seq<ISOInfo>)
    reads out, out.IOAPICs, out.ISOs
  {
    && out.Valid()
    && out.IOAPICs[..out.IOAPICCount] == FirstOf(ioapics, MAX_IOAPICS)
    && out.ISOs[..out.ISOCount] == FirstOf(isos, MAX_OVERRIDES)
  }

  method TakeIOAPIC(mem: Memory, p: nat, out: ParsedMADT, ghost ioapics: seq<IOAPICInfo>, ghost isos: seq<ISOInfo>)
    requires Holds(out, ioapics, isos)
    modifies out`IOAPICCount, out.IOAPICs
    ensures Holds(out, ioapics + [IOAPICInfo(Load(mem, p + 2), Word32(mem, p + 4), Word32(mem, p + 8))], isos)
  {
    var ioa := p + ENTRY_HEADER;
    var info := IOAPICInfo(Load(mem, ioa), Word32(mem, ioa + 2), Word32(mem, ioa + 6));
    FirstOfAppend(ioapics, info, MAX_IOAPICS);
    if out.IOAPICCount < MAX_IOAPICS {
      out.IOAPICs[out.IOAPICCount] := info;
      out.IOAPICCount := out.IOAPICCount + 1;
    }
  }

  method TakeOverride(mem: Memory, p: nat, out: ParsedMADT, ghost ioapics: seq<IOAPICInfo>, ghost isos: seq<ISOInfo>)
    requires Holds(out, ioapics, isos)
    modifies out`ISOCount, out.ISOs
    ensures Holds(out, ioapics, isos + [OverrideAt(mem, p)])
  {
    var iso := p + MADT_HEADER;
    var info := ISOInfo(Load(mem, iso + 1), Word32(mem, iso + 2), Word16(mem, iso + 6));
    FirstOfAppend(isos, info, MAX_OVERRIDES);
    if out.ISOCount < MAX_OVERRIDES {
      out.ISOs[out.ISOCount] := info;
      out.ISOCount := out.ISOCount + 1;
    }
  }

  /** One entry of the walk. */
  method Visit(mem: Memory, p: nat, out: ParsedMADT, ghost ioapics: seq<IOAPICInfo>, ghost isos: seq<ISOInfo>)
    requires Holds(out, ioapics, isos)
    modifies out`IOAPICCount, out`ISOCount, out.IOAPICs, out.ISOs
    ensures
      var e := EntryAt(mem, p);
      Holds(out, ioapics + IOAPICOf(mem, e), isos + OverrideOf(mem, e))
  {
    assert ioapics + [] == ioapics && isos + [] == isos;
    match Load(mem, p)
    case 1 =>
      if Load(mem, p + 1) >= ENTRY_HEADER + 10 {
        TakeIOAPIC(mem, p, out, ioapics, isos);
      }
    case 2 =>
      if Load(mem, p + 1) >= ENTRY_HEADER + 8 {
        TakeOverride(mem, p, out, ioapics, isos);
      }
    case _ =>
  }

  /** What is still to come at address p, behind what has been seen. */
  ghost predicate Ahead(mem: Memory, p: nat, end: nat, ioapics: seq<IOAPICInfo>, isos: seq<ISOInfo>,
                        allIoapics: seq<IOAPICInfo>, allIsos: seq<ISOInfo>) {
    && ioapics + IOAPICsOf(mem, Entries(mem, p, end)) == allIoapics
    && isos + OverridesOf(mem, Entries(mem, p, end)) == allIsos
  }

  lemma Advance(mem: Memory, p: nat, end: nat, ioapics: seq<IOAPICInfo>, isos: seq<ISOInfo>,
                allIoapics: seq<IOAPICInfo>, allIsos: seq<ISOInfo>)
    requires p + ENTRY_HEADER <= end && Load(mem, p + 1) != 0
    requires Ahead(mem, p, end, ioapics, isos, allIoapics, allIsos)
    ensures
      var e := EntryAt(mem, p);
      Ahead(mem, p + e.length, end, ioapics + IOAPICOf(mem, e), isos + OverrideOf(mem, e), allIoapics, allIsos)
  {
    Unfold(mem, p, end);
    var e, rest := EntryAt(mem, p), Entries(mem, p + Load(mem, p + 1), end);
    Regroup(ioapics, IOAPICOf(mem, e), IOAPICsOf(mem, rest));
    Regroup(isos, OverrideOf(mem, e), OverridesOf(mem, rest));
  }

  lemma Regroup<T>(a: seq<T>, b: seq<T>, c: seq<T>)
    ensures a + (b + c) == (a + b) + c
  {
  }

  lemma Finished(mem: Memory, p: nat, end: nat, ioapics: seq<IOAPICInfo>, isos: seq<ISOInfo>,
                 allIoapics: seq<IOAPICInfo>, allIsos: seq<ISOInfo>)
    requires p + ENTRY_HEADER > end || Load(mem, p + 1) == 0
    requires Ahead(mem, p, end, ioapics, isos, allIoapics, allIsos)
    ensures ioapics == allIoapics && isos == allIsos
  {
  }

  lemma FewEnough(out: ParsedMADT)
    requires out.Valid()
    ensures Holds(out, out.IOAPICs[..out.IOAPICCount], out.ISOs[..out.ISOCount])
  {
  }

  /** One turn of the loop: the entry at p is taken and the walk moves behind it. */
  method VisitNext(mem: Memory, p: nat, end: nat, out: ParsedMADT, ghost seen: (seq<IOAPICInfo>, seq<ISOInfo>),
                   ghost all: (seq<IOAPICInfo>, seq<ISOInfo>))
    returns (next: nat, ghost seen': (seq<IOAPICInfo>, seq<ISOInfo>))
    requires p + ENTRY_HEADER <= end && Load(mem, p + 1) != 0
    requires Holds(out, seen.0, seen.1) && Ahead(mem, p, end, seen.0, seen.1, all.0, all.1)
    modifies out`IOAPICCount, out`ISOCount, out.IOAPICs, out.ISOs
    ensures next == p + Load(mem, p + 1)
    ensures Holds(out, seen'.0, seen'.1) && Ahead(mem, next, end, seen'.0, seen'.1, all.0, all.1)
  {
    Advance(mem, p, end, seen.0, seen.1, all.0, all.1);
    Visit(mem, p, out, seen.0, seen.1);
    ghost var e := EntryAt(mem, p);
    return p + Load(mem, p + 1), (seen.0 + IOAPICOf(mem, e), seen.1 + OverrideOf(mem, e));
  }

  /** The loop over the entries from address `begin` to the end of the table. */
  method Walk(mem: Memory, begin: nat, end: nat, out: ParsedMADT)
    requires out.Valid()
    modifies out`IOAPICCount, out`ISOCount, out.IOAPICs, out.ISOs
    ensures
      var es := Entries(mem, begin, end);
      Holds(out, old(out.IOAPICs[..out.IOAPICCount]) + IOAPICsOf(mem, es), old(out.ISOs[..out.ISOCount]) + OverridesOf(mem, es))
  {
    ghost var seen := (out.IOAPICs[..out.IOAPICCount], out.ISOs[..out.ISOCount]);
    ghost var es := Entries(mem, begin, end);
    ghost var all := (seen.0 + IOAPICsOf(mem, es), seen.1 + OverridesOf(mem, es));
    FewEnough(out);
    var p := begin;
    while p + ENTRY_HEADER <= end && Load(mem, p + 1) != 0
      invariant Holds(out, seen.0, seen.1) && Ahead(mem, p, end, seen.0, seen.1, all.0, all.1)
      decreases end - p
    {
      p, seen := VisitNext(mem, p, end, out, seen, all);
    }
    Finished(mem, p, end, seen.0, seen.1, all.0, all.1);
  }

  /** What the search for the table by its signature comes up with. */
  datatype Found = Missing | Table(mem: Memory)

  /** ParseMADT: what the arrays held before, then the table's entries in order, as long as there is room. */
  method ParseMADT(found: Found, out: ParsedMADT) returns (ok: bool)
    requires out.Valid()
    modifies out`LocalAPICBase, out`IOAPICCount, out`ISOCount, out.IOAPICs, out.ISOs
    ensures ok == found.Table?
    ensures !ok ==> unchanged(out, out.IOAPICs, out.ISOs)
    ensures ok ==> out.LocalAPICBase == Word32(found.mem, SDT_HEADER)
    ensures ok ==>
              var es := Entries(found.mem, MADT_HEADER, Word32(found.mem, 4));
              Holds(out, old(out.IOAPICs[..out.IOAPICCount]) + IOAPICsOf(found.mem, es),
                    old(out.ISOs[..out.ISOCount]) + OverridesOf(found.mem, es))
  {
    if found.Missing? {
      return false;
    }
    out.LocalAPICBase := Word32(found.mem, SDT_HEADER);
    Walk(found.mem, MADT_HEADER, Word32(found.mem, 4), out);
    return true;
  }

  // -------------------------------------------------------- well-formed tables

  /**
    Table entries as the ACPI specification defines them, possibly longer than it says.
    Other stands for every further kind, and for entries of kind 1 or 2 that are too short.
   */
  datatype Record =
    | IOAPIC(id: Byte, address: nat, gsiBase: nat, tail: seq<Byte>)
    | Override(bus: Byte, irq: Byte, gsi: nat, flags: nat, tail: seq<Byte>)
    | Other(kind: Byte, body: seq<Byte>)

  function RecordLength(r: Record): nat {
    match r
    case IOAPIC(_, _, _, tail) => 12 + |tail|
    case Override(_, _, _, _, tail) => 10 + |tail|
    case Other(_, body) => ENTRY_HEADER + |body|
  }

  predicate WellFormed(r: Record) {
    && RecordLength(r) < 256
    && match r
       case IOAPIC(_, address, gsiBase, _) => address < 0x1_0000_0000 && gsiBase < 0x1_0000_0000
       case Override(_, _, gsi, flags, _) => gsi < 0x1_0000_0000 && flags < 0x1_0000
       case Other(kind, _) => !(kind == KIND_IOAPIC && RecordLength(r) >= 12) && !(kind == KIND_OVERRIDE && RecordLength(r) >= 10)
  }

  /** These bytes lie in memory from address p on. */
  predicate BytesAt(mem: Memory, p: nat, bytes: seq<Byte>) {
    forall i :: 0 <= i < |bytes| ==> Load(mem, p + i) == bytes[i]
  }

  /** The entry lies in memory at address p, in the layout of section 5.2.12. */
  predicate LaidOut(mem: Memory, p: nat, r: Record) {
    && Load(mem, p + 1) == RecordLength(r)
    && match r
       case IOAPIC(id, address, gsiBase, tail) =>
         Load(mem, p) == KIND_IOAPIC && Load(mem, p + 2) == id
         && Word32(mem, p + 4) == address && Word32(mem, p + 8) == gsiBase && BytesAt(mem, p + 12, tail)
       case Override(bus, irq, gsi, flags, tail) =>
         Load(mem, p) == KIND_OVERRIDE && Load(mem, p + 2) == bus && Load(mem, p + 3) == irq
         && Word32(mem, p + 4) == gsi && Word16(mem, p + 8) == flags && BytesAt(mem, p + 10, tail)
       case Other(kind, body) =>
         Load(mem, p) == kind && BytesAt(mem, p + ENTRY_HEADER, body)
  }

  predicate AllWellFormed(rs: seq<Record>) {
    forall i :: 0 <= i < |rs| ==> WellFormed(rs[i])
  }

  function TotalLength(rs: seq<Record>): nat {
    if rs == [] then 0 else RecordLength(rs[0]) + TotalLength(rs[1..])
  }

  /** The entries follow one another from address p on. */
  predicate AllLaidOut(mem: Memory, p: nat, rs: seq<Record>)
    decreases |rs|
  {
    rs == [] || (LaidOut(mem, p, rs[0]) && AllLaidOut(mem, p + RecordLength(rs[0]), rs[1..]))
  }

  function IOAPICOfRecord(r: Record): seq<IOAPICInfo> {
    if r.IOAPIC? then [IOAPICInfo(r.id, r.address, r.gsiBase)] else []
  }

  function IOAPICRecords(rs: seq<Record>): seq<IOAPICInfo> {
    if rs == [] then [] else IOAPICOfRecord(rs[0]) + IOAPICRecords(rs[1..])
  }

  function OverrideCount(rs: seq<Record>): nat {
    if rs == [] then 0 else (if rs[0].Override? then 1 else 0) + OverrideCount(rs[1..])
  }

  lemma {:induction false} WalkStep(mem: Memory, p: nat, end: nat, r: Record)
    requires WellFormed(r) && LaidOut(mem, p, r) && p + RecordLength(r) <= end
    ensures
      var es, rest := Entries(mem, p, end), Entries(mem, p + RecordLength(r), end);
      && |es| == 1 + |rest|
      && IOAPICsOf(mem, es) == IOAPICOfRecord(r) + IOAPICsOf(mem, rest)
      && |OverridesOf(mem, es)| == (if r.Override? then 1 else 0) + |OverridesOf(mem, rest)|
  {
    Unfold(mem, p, end);
  }

  /** The entries are exactly these records. */
  ghost predicate Finds(mem: Memory, es: seq<Entry>, rs: seq<Record>) {
    && |es| == |rs|
    && IOAPICsOf(mem, es) == IOAPICRecords(rs)
    && |OverridesOf(mem, es)| == OverrideCount(rs)
  }

  lemma {:induction false} FindsOneMore(mem: Memory, es: seq<Entry>, rest: seq<Entry>, rs: seq<Record>)
    requires rs != [] && Finds(mem, rest, rs[1..])
    requires |es| == 1 + |rest| && IOAPICsOf(mem, es) == IOAPICOfRecord(rs[0]) + IOAPICsOf(mem, rest)
    requires |OverridesOf(mem, es)| == (if rs[0].Override? then 1 else 0) + |OverridesOf(mem, rest)|
    ensures Finds(mem, es, rs)
  {
  }

  /** Walking any list of well-formed entries finds each of them, decodes the I/O APICs and counts the overrides. */
  lemma {:induction false} WalkFindsAll(mem: Memory, p: nat, rs: seq<Record>)
    requires AllWellFormed(rs) && AllLaidOut(mem, p, rs)
    ensures Finds(mem, Entries(mem, p, p + TotalLength(rs)), rs)
    decreases |rs|
  {
    if rs != [] {
      var end, q := p + TotalLength(rs), p + RecordLength(rs[0]);
      WalkFindsAll(mem, q, rs[1..]);
      assert q + TotalLength(rs[1..]) == end;
      WalkStep(mem, p, end, rs[0]);
      FindsOneMore(mem, Entries(mem, p, end), Entries(mem, q, end), rs);
    }
  }

  /** For a well-formed table: the first 8 I/O APICs of the table, decoded, and as many overrides as fit 32 places. */
  lemma {:induction false} ParsedTable(mem: Memory, rs: seq<Record>)
    requires AllWellFormed(rs) && AllLaidOut(mem, MADT_HEADER, rs)
    requires Word32(mem, 4) == MADT_HEADER + TotalLength(rs)
    ensures
      var es := Entries(mem, MADT_HEADER, Word32(mem, 4));
      && FirstOf(IOAPICsOf(mem, es), MAX_IOAPICS) == FirstOf(IOAPICRecords(rs), MAX_IOAPICS)
      && |FirstOf(OverridesOf(mem, es), MAX_OVERRIDES)| ==
         if OverrideCount(rs) < MAX_OVERRIDES then OverrideCount(rs) else MAX_OVERRIDES
  {
    WalkFindsAll(mem, MADT_HEADER, rs);
  }

  // ------------------------------------------------------- payload of overrides

  lemma {:induction false} DigitsApart(a: Byte, x: nat, b: Byte, y: nat)
    ensures a + 0x100 * x == b + 0x100 * y <==> a == b && x == y
  {
  }

  lemma {:induction false} JoinInjective(a0: Byte, a1: Byte, a2: Byte, a3: Byte, b0: Byte, b1: Byte, b2: Byte, b3: Byte)
    ensures Join32(a0, a1, a2, a3) == Join32(b0, b1, b2, b3) <==> a0 == b0 && a1 == b1 && a2 == b2 && a3 == b3
  {
    DigitsApart(a0, a1 + 0x100 * (a2 + 0x100 * a3), b0, b1 + 0x100 * (b2 + 0x100 * b3));
    DigitsApart(a1, a2 + 0x100 * a3, b1, b2 + 0x100 * b3);
    DigitsApart(a2, a3, b2, b3);
  }

  predicate SameByte(mem: Memory, a: nat, b: nat) {
    Load(mem, a) == Load(mem, b)
  }

  /** The seven payload bytes of the override at p recur 42 bytes further on. */
  predicate PayloadRecurs(mem: Memory, p: nat) {
    && SameByte(mem, p + 45, p + 3)
    && SameByte(mem, p + 46, p + 4) && SameByte(mem, p + 47, p + 5) && SameByte(mem, p + 48, p + 6) && SameByte(mem, p + 49, p + 7)
    && SameByte(mem, p + 50, p + 8) && SameByte(mem, p + 51, p + 9)
  }

  /** An override is stored as its entry has it exactly when its payload happens to recur where the code reads it. */
  lemma {:induction false} OverrideExactly(mem: Memory, p: nat, r: Record)
    requires r.Override? && LaidOut(mem, p, r)
    ensures OverrideAt(mem, p) == ISOInfo(r.irq, r.gsi, r.flags) <==> PayloadRecurs(mem, p)
  {
    JoinInjective(Load(mem, p + 46), Load(mem, p + 47), Load(mem, p + 48), Load(mem, p + 49),
                  Load(mem, p + 4), Load(mem, p + 5), Load(mem, p + 6), Load(mem, p + 7));
    DigitsApart(Load(mem, p + 50), Load(mem, p + 51), Load(mem, p + 8), Load(mem, p + 9));
  }

  /** An override of exactly the specified length. */
  predicate Plain(r: Record) {
    WellFormed(r) && r.Override? && r.tail == []
  }

  lemma {:induction false} RowAt(mem: Memory, p: nat, rs: seq<Record>, i: nat)
    requires i < |rs| && AllLaidOut(mem, p, rs) && forall k :: 0 <= k <= i ==> Plain(rs[k])
    ensures LaidOut(mem, p + 10 * i, rs[i])
    decreases i
  {
    if i > 0 {
      assert Plain(rs[0]);
      RowAt(mem, p + 10, rs[1..], i - 1);
    }
  }

  lemma {:induction false} JoinParts(b0: Byte, b1: Byte, b2: Byte, b3: Byte)
    ensures Join32(b0, b1, b2, b3) / 0x100 % 0x100 == b1
    ensures Join32(b0, b1, b2, b3) / 0x1_0000 == b2 + 0x100 * b3
  {
  }

  /** What the entry itself says. */
  function Payload(r: Record): ISOInfo
    requires r.Override?
  {
    ISOInfo(r.irq, r.gsi, r.flags)
  }

  /** Parts of an override's fields, and flags that spell the kind and length of an override. */
  function Mixture(r: Record): ISOInfo
    requires r.Override?
  {
    ISOInfo(r.gsi / 0x100 % 0x100, r.gsi / 0x1_0000 + 0x1_0000 * r.flags, 0x0A02)
  }

  lemma {:induction false} ReadsMixture(mem: Memory, p: nat, fourth: Record, fifth: Record)
    requires Plain(fourth) && Plain(fifth) && LaidOut(mem, p + 40, fourth) && LaidOut(mem, p + 50, fifth)
    ensures OverrideAt(mem, p) == Mixture(fourth)
  {
    JoinParts(Load(mem, p + 44), Load(mem, p + 45), Load(mem, p + 46), Load(mem, p + 47));
  }

  /**
    An override followed by five more is stored as a mixture of the fourth and fifth that
    follow it: it comes out right exactly when its own fields happen to be that mixture, and
    never with flags other than 0x0A02.
   */
  lemma {:induction false} OverrideRowExactly(mem: Memory, p: nat, rs: seq<Record>)
    requires |rs| >= 6 && AllLaidOut(mem, p, rs) && forall k :: 0 <= k < 6 ==> Plain(rs[k])
    ensures Plain(rs[0]) && Plain(rs[4])
    ensures OverrideAt(mem, p) == Payload(rs[0]) <==> Payload(rs[0]) == Mixture(rs[4])
    ensures rs[0].flags != 0x0A02 ==> OverrideAt(mem, p) != Payload(rs[0])
  {
    RowAt(mem, p, rs, 4);
    RowAt(mem, p, rs, 5);
    ReadsMixture(mem, p, rs[4], rs[5]);
  }

  /** An override of IRQ 9 with zeros behind it is stored as one of IRQ 0. */
  lemma {:induction false} OverrideMisread(mem: Memory)
    requires mem == [2, 10, 0, 9, 9, 0, 0, 0, 13, 0] + seq(42, _ => 0)
    ensures LaidOut(mem, 0, Override(0, 9, 9, 13, [])) && OverrideAt(mem, 0) == ISOInfo(0, 0, 0)
  {
    assert mem[0] == 2 && mem[1] == 10 && mem[2] == 0 && mem[3] == 9 && mem[8] == 13 && mem[9] == 0;
    assert mem[4] == 9 && mem[5] == 0 && mem[6] == 0 && mem[7] == 0;
  }
}
