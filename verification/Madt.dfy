/**
 The Multiple APIC Description Table, section 5.2.12 of the ACPI specification: a header and a list of
 structures, each with its type and length in its first two bytes.
 */
module Madt {
  import opened Bytes

  /** The table header, the local APIC address and the flags. */
  const HEADER: nat := 44
  const LENGTH_AT: nat := 4
  const OVERRIDES: nat := 16

  type uint32 = n: nat | n <= ALL_ONES_32
  type uint64 = n: nat | n < 0x1_0000_0000_0000_0000

  datatype Struct =
    | LocalApic(processor: byte, apicId: byte, apicFlags: uint32)
    | IoApic(id: byte, address: uint32, gsiBase: uint32)
    | SourceOverride(source: byte, gsi: uint32, flags: byte)
    | NmiSource(flags: byte, gsi: uint32)
    | LocalApicNmi(processor: byte, flags: byte, lint: byte)
    | AddressOverride(localAddress: uint64)

  function SizeOf(s: Struct): (n: nat)
    ensures 6 <= n <= 12
  {
    match s
    case LocalApic(_, _, _) => 8
    case IoApic(_, _, _) => 12
    case SourceOverride(_, _, _) => 10
    case NmiSource(_, _) => 8
    case LocalApicNmi(_, _, _) => 6
    case AddressOverride(_) => 12
  }

  function TypeOf(s: Struct): byte {
    match s
    case LocalApic(_, _, _) => 0
    case IoApic(_, _, _) => 1
    case SourceOverride(_, _, _) => 2
    case NmiSource(_, _) => 3
    case LocalApicNmi(_, _, _) => 4
    case AddressOverride(_) => 5
  }

  function LowHalf(n: uint64): uint32 { n % 0x1_0000_0000 }

  function HighHalf(n: uint64): uint32 { n / 0x1_0000_0000 }

  /** The bytes of a structure. Flags are 16 bits wide, of which four are used. */
  function Encode(s: Struct): (bytes: seq<byte>)
    ensures |bytes| == SizeOf(s) && bytes[0] == TypeOf(s) && bytes[1] as nat == SizeOf(s)
  {
    match s
    case LocalApic(processor, apicId, flags) => [0, 8, processor, apicId] + ToLe32(flags)
    case IoApic(id, address, gsiBase) => [1, 12, id, 0] + ToLe32(address) + ToLe32(gsiBase)
    case SourceOverride(source, gsi, flags) => [2, 10, 0, source] + ToLe32(gsi) + [flags, 0]
    case NmiSource(flags, gsi) => [3, 8, flags, 0] + ToLe32(gsi)
    case LocalApicNmi(processor, flags, lint) => [4, 6, processor, flags, 0, lint]
    case AddressOverride(address) => [5, 12, 0, 0] + ToLe32(LowHalf(address)) + ToLe32(HighHalf(address))
  }

  // ---- Lists of structures in a table ----

  /** Where structure k starts. */
  function PosOf(structs: seq<Struct>, k: nat): nat
    requires k <= |structs|
  {
    if k == 0 then HEADER else PosOf(structs, k - 1) + SizeOf(structs[k - 1])
  }

  ghost predicate SpanHolds(m: seq<byte>, structs: seq<Struct>, k: nat)
    requires k < |structs|
  {
    && PosOf(structs, k) + SizeOf(structs[k]) <= |m|
    && Sub(m, PosOf(structs, k), SizeOf(structs[k])) == Encode(structs[k])
  }

  ghost predicate HoldsUpTo(m: seq<byte>, structs: seq<Struct>, k: nat) {
    k <= |structs| && PosOf(structs, k) <= |m| && forall i :: 0 <= i < k ==> SpanHolds(m, structs, i)
  }

  /** The table m holds exactly these structures behind its header. */
  ghost predicate Holds(m: seq<byte>, structs: seq<Struct>) {
    HoldsUpTo(m, structs, |structs|) && PosOf(structs, |structs|) == |m|
  }

  lemma {:induction false} PosBefore(structs: seq<Struct>, i: nat, j: nat)
    requires i < j <= |structs|
    ensures HEADER <= PosOf(structs, i) && PosOf(structs, i) + SizeOf(structs[i]) <= PosOf(structs, j)
    decreases j
  {
    if i < j - 1 {
      PosBefore(structs, i, j - 1);
    } else if i > 0 {
      PosBefore(structs, 0, i);
    }
  }

  lemma PosNext(structs: seq<Struct>, k: nat)
    requires k < |structs|
    ensures PosOf(structs, k + 1) == PosOf(structs, k) + SizeOf(structs[k])
  {
  }

  lemma {:induction false} SamePos(structs: seq<Struct>, structs': seq<Struct>, k: nat)
    requires k <= |structs| && k <= |structs'|
    requires forall i :: 0 <= i < k ==> SizeOf(structs'[i]) == SizeOf(structs[i])
    ensures PosOf(structs', k) == PosOf(structs, k)
  {
    if k > 0 {
      SamePos(structs, structs', k - 1);
    }
  }

  /** Lists whose structures have the same sizes lie in a table in the same way. */
  ghost predicate SameShape(structs: seq<Struct>, structs': seq<Struct>) {
    |structs'| == |structs| && forall i :: 0 <= i < |structs| ==> SizeOf(structs'[i]) == SizeOf(structs[i])
  }

  /** Storing structure k changes no other one. */
  lemma StoreKeeps(m: seq<byte>, structs: seq<Struct>, structs': seq<Struct>, k: nat, i: nat)
    requires SameShape(structs, structs') && k < |structs| && i < |structs| && i != k && structs'[i] == structs[i]
    requires SpanHolds(m, structs, i) && PosOf(structs, k) + SizeOf(structs'[k]) <= |m|
    ensures SpanHolds(Patch(m, PosOf(structs, k), Encode(structs'[k])), structs', i)
  {
    hide Encode, SizeOf, Patch, Sub;
    if i < k {
      PosBefore(structs, i, k);
    } else {
      PosBefore(structs, k, i);
    }
    SamePos(structs, structs', i);
    PatchKeeps(m, PosOf(structs, k), Encode(structs'[k]), PosOf(structs, i), SizeOf(structs[i]));
  }

  lemma StoreHolds(m: seq<byte>, structs: seq<Struct>, structs': seq<Struct>, k: nat)
    requires SameShape(structs, structs') && k < |structs| && PosOf(structs, k) + SizeOf(structs'[k]) <= |m|
    ensures SpanHolds(Patch(m, PosOf(structs, k), Encode(structs'[k])), structs', k)
  {
    hide Encode, SizeOf, Patch, Sub;
    SamePos(structs, structs', k);
    PatchReads(m, PosOf(structs, k), Encode(structs'[k]));
  }

  /** Writing the next structure of the list. */
  lemma WriteNext(m: seq<byte>, structs: seq<Struct>, k: nat)
    requires k < |structs| && HoldsUpTo(m, structs, k) && PosOf(structs, k) + SizeOf(structs[k]) <= |m|
    ensures HoldsUpTo(Patch(m, PosOf(structs, k), Encode(structs[k])), structs, k + 1)
  {
    hide Encode, SizeOf, Patch, SpanHolds, PosOf;
    PosNext(structs, k);
    StoreHolds(m, structs, structs, k);
    var m' := Patch(m, PosOf(structs, k), Encode(structs[k]));
    forall i: nat | i < k + 1
      ensures SpanHolds(m', structs, i)
    {
      if i < k {
        StoreKeeps(m, structs, structs, k, i);
      }
    }
  }

  /** Replacing one structure by one of the same size. */
  lemma ReplaceOne(m: seq<byte>, structs: seq<Struct>, structs': seq<Struct>, k: nat)
    requires Holds(m, structs) && k < |structs| && SameShape(structs, structs')
    requires forall i :: 0 <= i < |structs| && i != k ==> structs'[i] == structs[i]
    ensures PosOf(structs, k) + SizeOf(structs'[k]) <= |m|
    ensures Holds(Patch(m, PosOf(structs, k), Encode(structs'[k])), structs')
  {
    hide Encode, SizeOf, Patch;
    assert SpanHolds(m, structs, k);
    hide SpanHolds;
    SamePos(structs, structs', |structs|);
    StoreHolds(m, structs, structs', k);
    forall i: nat | i < |structs'| && i != k
      ensures SpanHolds(Patch(m, PosOf(structs, k), Encode(structs'[k])), structs', i)
    {
      StoreKeeps(m, structs, structs', k, i);
    }
  }

  /** A table holds one list of structures at most. */
  lemma {:induction false} HoldsUnique(m: seq<byte>, structs: seq<Struct>, structs': seq<Struct>, k: nat)
    requires Holds(m, structs) && Holds(m, structs') && k <= |structs| && k <= |structs'|
    ensures structs[..k] == structs'[..k]
    decreases k
  {
    if k > 0 {
      HoldsUnique(m, structs, structs', k - 1);
      var a, b := structs[k - 1], structs'[k - 1];
      SamePosPrefix(structs, structs', k - 1);
      assert SpanHolds(m, structs, k - 1) && SpanHolds(m, structs', k - 1);
      HeadDecides(m, PosOf(structs, k - 1), a, b);
      EncodeInjective(a, b);
      assert structs[..k] == structs[..k - 1] + [a] && structs'[..k] == structs'[..k - 1] + [b];
    }
  }

  lemma SamePosPrefix(structs: seq<Struct>, structs': seq<Struct>, k: nat)
    requires k <= |structs| && k <= |structs'| && structs[..k] == structs'[..k]
    ensures PosOf(structs, k) == PosOf(structs', k)
  {
    forall i | 0 <= i < k
      ensures SizeOf(structs'[i]) == SizeOf(structs[i])
    {
      assert structs[..k][i] == structs'[..k][i];
    }
    SamePos(structs, structs', k);
  }

  /** The length byte fixes where a structure ends. */
  lemma HeadDecides(m: seq<byte>, p: nat, a: Struct, b: Struct)
    requires p + SizeOf(a) <= |m| && p + SizeOf(b) <= |m|
    requires Sub(m, p, SizeOf(a)) == Encode(a) && Sub(m, p, SizeOf(b)) == Encode(b)
    ensures Encode(a) == Encode(b)
  {
    hide Encode, SizeOf;
    assert Sub(m, p, SizeOf(a))[1] == m[p + 1] == Sub(m, p, SizeOf(b))[1];
  }

  /** Encoding loses nothing. */
  lemma EncodeInjective(a: Struct, b: Struct)
    requires Encode(a) == Encode(b)
    ensures a == b
  {
    assert TypeOf(a) == TypeOf(b);
    Fields(a);
    Fields(b);
    hide Encode, ToLe32, Le32;
    if a.AddressOverride? {
      Halves(a.localAddress);
      Halves(b.localAddress);
    }
  }

  lemma Halves(n: uint64)
    ensures n == HighHalf(n) * 0x1_0000_0000 + LowHalf(n)
  {
  }

  /** Every field can be read back from its place. */
  lemma Fields(s: Struct)
    ensures var e := Encode(s);
            match s
            case LocalApic(processor, apicId, flags) => processor == e[2] && apicId == e[3] && flags == Le32(e[4..8])
            case IoApic(id, address, gsiBase) => id == e[2] && address == Le32(e[4..8]) && gsiBase == Le32(e[8..12])
            case SourceOverride(source, gsi, flags) => source == e[3] && gsi == Le32(e[4..8]) && flags == e[8]
            case NmiSource(flags, gsi) => flags == e[2] && gsi == Le32(e[4..8])
            case LocalApicNmi(processor, flags, lint) => processor == e[2] && flags == e[3] && lint == e[5]
            case AddressOverride(address) => LowHalf(address) == Le32(e[4..8]) && HighHalf(address) == Le32(e[8..12])
  {
    hide Le32, ToLe32;
    var e := Encode(s);
    match s
    case LocalApic(processor, apicId, flags) => assert e[4..8] == ToLe32(flags);
    case IoApic(id, address, gsiBase) => assert e[4..8] == ToLe32(address) && e[8..12] == ToLe32(gsiBase);
    case SourceOverride(source, gsi, flags) => assert e[4..8] == ToLe32(gsi);
    case NmiSource(flags, gsi) => assert e[4..8] == ToLe32(gsi);
    case LocalApicNmi(processor, flags, lint) =>
    case AddressOverride(address) =>
      assert e[4..8] == ToLe32(LowHalf(address)) && e[8..12] == ToLe32(HighHalf(address));
  }

  // ---- What the builder has to write ----

  datatype InterruptSetting =
    InterruptSetting(enable: bool, source: byte, polarity: byte, trigger: byte, gsi: uint32)

  /** MADT_CONFIG_DATA. */
  datatype Config = Config(
    interrupts: seq<InterruptSetting>,
    ioApicAddress: uint32, gsiBase: uint32, ioApicId: byte,
    ioNmiEnable: bool, ioNmiSource: byte, ioPolarity: byte, ioTrigger: byte,
    nmiMask: bv8, addressOverrideEnable: bool, localPolarity: byte, localTrigger: byte, lint: byte,
    localAddress: uint32, addressOverride: uint64)
  {
    predicate Valid() { |interrupts| == 16 }
  }

  function FlagBits(trigger: byte, polarity: byte): byte { trigger % 4 * 4 + polarity % 4 }

  /** Bits 1..0 are those of the polarity, bits 3..2 those of the trigger mode, and no other bit is set. */
  ghost predicate FlagsMean(flags: byte, trigger: byte, polarity: byte) {
    flags < 16 && flags % 4 == polarity % 4 && flags / 4 == trigger % 4
  }

  lemma FlagBitsMean(trigger: byte, polarity: byte)
    ensures FlagsMean(FlagBits(trigger, polarity), trigger, polarity)
  {
  }

  /** The mask bits are counted from the lowest, and there are eight. */
  lemma NmiOnMeans(mask: bv8, k: nat)
    requires k < 31
    ensures NmiOn(mask, 0) <==> mask % 2 == 1
    ensures k < 7 ==> (NmiOn(mask, k + 1) <==> NmiOn(mask / 2, k))
    ensures k >= 7 ==> !NmiOn(mask, k + 1)
  {
  }

  /** The mask bit of processor k. */
  predicate NmiOn(mask: bv8, k: nat)
    requires k < 32
  {
    (mask as bv32) & ((1 as bv32) << k) != 0
  }

  function Locals(n: nat): (r: seq<Struct>)
    requires n < 32
    ensures |r| == n
  {
    seq(n, i requires 0 <= i < n => LocalApic((i + 1) as byte, 0xFF, 0))
  }

  function Override(s: InterruptSetting): Struct { SourceOverride(s.source, s.gsi, FlagBits(s.trigger, s.polarity)) }

  /** The overrides for the first k settings. */
  function Overrides(c: Config, k: nat): seq<Struct>
    requires k <= |c.interrupts|
  {
    if k == 0 then []
    else Overrides(c, k - 1) + (if c.interrupts[k - 1].enable then [Override(c.interrupts[k - 1])] else [])
  }

  function IoNmi(c: Config): seq<Struct> {
    if c.ioNmiEnable then [NmiSource(FlagBits(c.ioTrigger, c.ioPolarity), c.ioNmiSource as uint32)] else []
  }

  function LocalNmi(c: Config, k: nat): Struct
    requires k < 32
  {
    LocalApicNmi((k + 1) as byte, FlagBits(c.localTrigger, c.localPolarity), c.lint)
  }

  /** The local NMI sources for the first k processors. */
  function LocalNmis(c: Config, k: nat): seq<Struct>
    requires k <= 32
  {
    if k == 0 then []
    else LocalNmis(c, k - 1) + (if NmiOn(c.nmiMask, k - 1) then [LocalNmi(c, k - 1)] else [])
  }

  function AddressOverrides(c: Config): seq<Struct> {
    if c.addressOverrideEnable then [AddressOverride(c.addressOverride)] else []
  }

  function Io(c: Config): Struct { IoApic(c.ioApicId, c.ioApicAddress, c.gsiBase) }

  /** All structures of the table for n processors. */
  function Structures(c: Config, n: nat): seq<Struct>
    requires c.Valid() && n < 32
  {
    Locals(n) + [Io(c)] + Overrides(c, OVERRIDES) + IoNmi(c) + LocalNmis(c, n) + AddressOverrides(c)
  }

  // ---- The size function ----

  function TotalSize(structs: seq<Struct>): nat {
    if structs == [] then 0 else TotalSize(structs[..|structs| - 1]) + SizeOf(structs[|structs| - 1])
  }

  lemma {:induction false} SizeOfConcat(a: seq<Struct>, b: seq<Struct>)
    ensures TotalSize(a + b) == TotalSize(a) + TotalSize(b)
    decreases |b|
  {
    if b == [] {
      assert a + b == a;
    } else {
      var last := |b| - 1;
      assert (a + b)[..|a + b| - 1] == a + b[..last];
      SizeOfConcat(a, b[..last]);
    }
  }

  lemma SizeOfOne(s: Struct)
    ensures TotalSize([s]) == SizeOf(s)
  {
    assert [s][..0] == [];
  }

  lemma {:induction false} EndPos(structs: seq<Struct>, k: nat)
    requires k <= |structs|
    ensures PosOf(structs, k) == HEADER + TotalSize(structs[..k])
  {
    if k > 0 {
      EndPos(structs, k - 1);
      assert structs[..k][..k - 1] == structs[..k - 1];
    }
  }

  lemma {:induction false} SizeOfLocals(n: nat)
    requires n < 32
    ensures TotalSize(Locals(n)) == 8 * n
  {
    if n > 0 {
      SizeOfLocals(n - 1);
      assert Locals(n)[..n - 1] == Locals(n - 1);
    }
  }

  lemma SizeOfOptional(a: seq<Struct>, on: bool, s: Struct)
    ensures TotalSize(a + (if on then [s] else [])) == TotalSize(a) + (if on then SizeOf(s) else 0)
  {
    SizeOfOne(s);
    SizeOfConcat(a, if on then [s] else []);
  }

  lemma NothingYet(c: Config)
    ensures TotalSize(Overrides(c, 0)) == TotalSize(LocalNmis(c, 0)) == 0
  {
  }

  lemma NextOverride(c: Config, k: nat)
    requires k < |c.interrupts|
    ensures TotalSize(Overrides(c, k + 1)) == TotalSize(Overrides(c, k)) + (if c.interrupts[k].enable then 10 else 0)
  {
    hide TotalSize, SizeOf;
    SizeOfOptional(Overrides(c, k), c.interrupts[k].enable, Override(c.interrupts[k]));
    SizeIs(Override(c.interrupts[k]));
  }

  lemma NextLocalNmi(c: Config, k: nat)
    requires k < 32
    ensures TotalSize(LocalNmis(c, k + 1)) == TotalSize(LocalNmis(c, k)) + (if NmiOn(c.nmiMask, k) then 6 else 0)
  {
    hide TotalSize, SizeOf, NmiOn;
    SizeOfOptional(LocalNmis(c, k), NmiOn(c.nmiMask, k), LocalNmi(c, k));
    SizeIs(LocalNmi(c, k));
  }

  /** GetAcutalMadtTableSize: the size is that of the table the builder writes. */
  method GetActualMadtTableSize(c: Config, n: nat) returns (size: nat)
    requires c.Valid() && n < 32
    ensures size == PosOf(Structures(c, n), |Structures(c, n)|)
    ensures size < 0x1000
  {
    hide NmiOn, TotalSize, Overrides, LocalNmis, Structures, PosOf;
    NothingYet(c);
    size := HEADER + 8 * n + 12 + (if c.addressOverrideEnable then 12 else 0);
    ghost var fixed: nat := size;
    for k := 0 to OVERRIDES
      invariant size == fixed + TotalSize(Overrides(c, k)) && size <= 400 + 10 * k
    {
      NextOverride(c, k);
      if c.interrupts[k].enable {
        size := size + 10;
      }
    }
    fixed := size;
    for k := 0 to n
      invariant size == fixed + TotalSize(LocalNmis(c, k)) && size <= 600 + 6 * k
    {
      NextLocalNmi(c, k);
      if NmiOn(c.nmiMask, k) {
        size := size + 6;
      }
    }
    if c.ioNmiEnable {
      size := size + 8;
    }
    SizeOfParts(c, n);
  }

  lemma SizeIs(s: Struct)
    ensures SizeOf(s) == match s
                         case LocalApic(_, _, _) => 8
                         case IoApic(_, _, _) => 12
                         case SourceOverride(_, _, _) => 10
                         case NmiSource(_, _) => 8
                         case LocalApicNmi(_, _, _) => 6
                         case AddressOverride(_) => 12
  {
  }

  lemma SizeOfParts(c: Config, n: nat)
    requires c.Valid() && n < 32
    ensures PosOf(Structures(c, n), |Structures(c, n)|)
         == HEADER + 8 * n + 12 + TotalSize(Overrides(c, OVERRIDES)) + (if c.ioNmiEnable then 8 else 0)
            + TotalSize(LocalNmis(c, n)) + (if c.addressOverrideEnable then 12 else 0)
  {
    hide Overrides, LocalNmis, Locals;
    var all := Structures(c, n);
    EndPos(all, |all|);
    assert all[..|all|] == all;
    SizeOfLocals(n);
    var s1 := Locals(n) + [Io(c)];
    SizeOfOptional(Locals(n), true, Io(c));
    var s2 := s1 + Overrides(c, OVERRIDES);
    SizeOfConcat(s1, Overrides(c, OVERRIDES));
    SizeOfOptional(s2, c.ioNmiEnable, NmiSource(FlagBits(c.ioTrigger, c.ioPolarity), c.ioNmiSource as uint32));
    var s3 := s2 + IoNmi(c);
    SizeOfConcat(s3, LocalNmis(c, n));
    SizeOfOptional(s3 + LocalNmis(c, n), c.addressOverrideEnable, AddressOverride(c.addressOverride));
  }

  // ---- The builder ----

  /** The header fields that do not depend on the processors. */
  datatype Identity = Identity(signature: seq<byte>, revision: byte, oemId: seq<byte>, oemTableId: seq<byte>,
                               oemRevision: uint32, creatorId: uint32, flags: uint32)
  {
    predicate Valid() { |signature| == 4 && |oemId| == 6 && |oemTableId| == 8 }
  }

  function HeaderBytes(identity: Identity, length: uint32, localAddress: uint32): (h: seq<byte>)
    requires identity.Valid()
    ensures |h| == HEADER
  {
    identity.signature + ToLe32(length) + [identity.revision, 0] + identity.oemId + identity.oemTableId
    + ToLe32(identity.oemRevision) + ToLe32(identity.creatorId) + [0, 0, 0, 0] + ToLe32(localAddress) + ToLe32(identity.flags)
  }

  /** Where the fields of the header are, by section 5.2.12 of the ACPI specification. */
  lemma HeaderFields(identity: Identity, length: uint32, localAddress: uint32)
    requires identity.Valid()
    ensures var h := HeaderBytes(identity, length, localAddress);
            && |h| == 44 && h[0..4] == identity.signature && Le32(h[4..8]) == length as nat
            && h[8] == identity.revision && h[9] == 0 && h[10..16] == identity.oemId && h[16..24] == identity.oemTableId
            && Le32(h[24..28]) == identity.oemRevision as nat && Le32(h[28..32]) == identity.creatorId as nat
            && Le32(h[36..40]) == localAddress as nat && Le32(h[40..44]) == identity.flags as nat
  {
    hide ToLe32, Le32;
    var h := HeaderBytes(identity, length, localAddress);
    assert h[4..8] == ToLe32(length) && h[24..28] == ToLe32(identity.oemRevision) && h[28..32] == ToLe32(identity.creatorId);
    assert h[36..40] == ToLe32(localAddress) && h[40..44] == ToLe32(identity.flags);
  }

  /** The length field of the header. */
  function LengthField(m: seq<byte>): uint32
    requires |m| >= HEADER
  {
    Le32(Sub(m, LENGTH_AT, 4))
  }

  lemma LengthReadsBack(m: seq<byte>, identity: Identity, length: uint32, localAddress: uint32)
    requires identity.Valid() && |m| >= HEADER && Sub(m, 0, HEADER) == HeaderBytes(identity, length, localAddress)
    ensures LengthField(m) == length
  {
    hide ToLe32, Le32;
    assert Sub(m, LENGTH_AT, 4) == Sub(m, 0, HEADER)[LENGTH_AT..LENGTH_AT + 4];
    assert HeaderBytes(identity, length, localAddress)[LENGTH_AT..LENGTH_AT + 4] == ToLe32(length);
  }

  lemma PatchTwice(m: seq<byte>, at: nat, a: seq<byte>, b: seq<byte>)
    requires at + |a| + |b| <= |m|
    ensures Patch(Patch(m, at, a), at + |a|, b) == Patch(m, at, a + b)
  {
  }

  /** Memory that is zero already need not be written. */
  lemma PatchZeros(m: seq<byte>, at: nat, a: seq<byte>, zeros: seq<byte>)
    requires at + |a| + |zeros| <= |m| && Sub(m, at + |a|, |zeros|) == zeros
    ensures Patch(m, at, a) == Patch(m, at, a + zeros)
  {
    var l, r := Patch(m, at, a), Patch(m, at, a + zeros);
    forall i | 0 <= i < |m|
      ensures l[i] == r[i]
    {
      if at + |a| <= i < at + |a| + |zeros| {
        assert r[i] == zeros[i - at - |a|] == Sub(m, at + |a|, |zeros|)[i - at - |a|];
      }
    }
  }

  ghost predicate ZeroFrom(m: seq<byte>, p: nat) { forall i :: p <= i < |m| ==> m[i] == 0 }

  /** Stores the fields of a structure; reserved bytes are left as the pool had them. */
  method Store(table: array<byte>, at: nat, s: Struct)
    requires at + SizeOf(s) <= table.Length && ZeroFrom(table[..], at)
    modifies table
    ensures table[..] == Patch(old(table[..]), at, Encode(s))
  {
    hide Patch, ToLe32, ZeroFrom, Sub;
    ghost var m := table[..];
    match s {
      case LocalApic(processor, apicId, flags) =>
        Put(table, at, [0, 8, processor, apicId]);
        Put(table, at + 4, ToLe32(flags));
        PatchTwice(m, at, [0, 8, processor, apicId], ToLe32(flags));
      case IoApic(id, address, gsiBase) =>
        Put(table, at, [1, 12, id]);
        Put(table, at + 4, ToLe32(address));
        Put(table, at + 8, ToLe32(gsiBase));
        ZeroSpan(m, at + 3, [0]);
        PatchZeros(m, at, [1, 12, id], [0]);
        PatchTwice(m, at, [1, 12, id] + [0], ToLe32(address));
        PatchTwice(m, at, [1, 12, id] + [0] + ToLe32(address), ToLe32(gsiBase));
        assert [1, 12, id, 0] == [1, 12, id] + [0];
      case SourceOverride(source, gsi, flags) =>
        Put(table, at, [2, 10, 0, source]);
        Put(table, at + 4, ToLe32(gsi));
        Put(table, at + 8, [flags, 0]);
        PatchTwice(m, at, [2, 10, 0, source], ToLe32(gsi));
        PatchTwice(m, at, [2, 10, 0, source] + ToLe32(gsi), [flags, 0]);
      case NmiSource(flags, gsi) =>
        Put(table, at, [3, 8, flags, 0]);
        Put(table, at + 4, ToLe32(gsi));
        PatchTwice(m, at, [3, 8, flags, 0], ToLe32(gsi));
      case LocalApicNmi(processor, flags, lint) =>
        Put(table, at, [4, 6, processor, flags, 0, lint]);
      case AddressOverride(address) =>
        Put(table, at, [5, 12]);
        Put(table, at + 4, ToLe32(LowHalf(address)));
        Put(table, at + 8, ToLe32(HighHalf(address)));
        ZeroSpan(m, at + 2, [0, 0]);
        PatchZeros(m, at, [5, 12], [0, 0]);
        PatchTwice(m, at, [5, 12] + [0, 0], ToLe32(LowHalf(address)));
        PatchTwice(m, at, [5, 12] + [0, 0] + ToLe32(LowHalf(address)), ToLe32(HighHalf(address)));
        assert [5, 12, 0, 0] == [5, 12] + [0, 0];
    }
  }

  lemma ZeroSpan(m: seq<byte>, at: nat, zeros: seq<byte>)
    requires at + |zeros| <= |m| && (exists p: nat :: p <= at && ZeroFrom(m, p)) && forall i :: 0 <= i < |zeros| ==> zeros[i] == 0
    ensures Sub(m, at, |zeros|) == zeros
  {
  }

  /** The table with the first k structures written, the write pointer at p, and zeros behind it. */
  ghost predicate Building(m: seq<byte>, header: seq<byte>, all: seq<Struct>, k: nat, p: nat) {
    && |m| >= HEADER == |header| && Sub(m, 0, HEADER) == header
    && HoldsUpTo(m, all, k) && PosOf(all, |all|) == |m| && p == PosOf(all, k) && ZeroFrom(m, p)
  }

  /** Writes the next structure of the list and moves the pointer behind it. */
  method Append(table: array<byte>, p: nat, s: Struct, ghost header: seq<byte>, ghost all: seq<Struct>, ghost k: nat)
    returns (next: nat)
    requires Building(table[..], header, all, k, p) && k < |all| && all[k] == s
    modifies table
    ensures Building(table[..], header, all, k + 1, next)
  {
    hide Encode, Patch, SizeOf, SpanHolds, Sub;
    ghost var m := table[..];
    PosBefore(all, k, |all|);
    PosBefore(all, k, k + 1);
    Store(table, p, s);
    WriteNext(m, all, k);
    PatchKeeps(m, p, Encode(s), 0, HEADER);
    ZeroBehind(m, p, Encode(s));
    next := p + SizeOf(s);
  }

  lemma ZeroBehind(m: seq<byte>, p: nat, s: seq<byte>)
    requires p + |s| <= |m| && ZeroFrom(m, p)
    ensures ZeroFrom(Patch(m, p, s), p + |s|)
  {
  }

  lemma {:induction false} OverridesGrow(c: Config, k: nat, n: nat)
    requires k <= n <= |c.interrupts|
    ensures Overrides(c, k) <= Overrides(c, n)
    decreases n
  {
    if k < n {
      OverridesGrow(c, k, n - 1);
    }
  }

  lemma {:induction false} LocalNmisGrow(c: Config, k: nat, n: nat)
    requires k <= n <= 32
    ensures LocalNmis(c, k) <= LocalNmis(c, n)
    decreases n
  {
    if k < n {
      LocalNmisGrow(c, k, n - 1);
    }
  }

  /** Which structure comes after the first k overrides. */
  lemma OverrideAt(c: Config, n: nat, k: nat)
    requires c.Valid() && n < 32 && k < OVERRIDES && c.interrupts[k].enable
    ensures var i, s := n + 1 + |Overrides(c, k)|, c.interrupts[k];
            && i < |Structures(c, n)| && Structures(c, n)[i] == Override(s) && Structures(c, n)[i].SourceOverride?
            && Structures(c, n)[i].source == s.source && Structures(c, n)[i].gsi == s.gsi
            && FlagsMean(Structures(c, n)[i].flags, s.trigger, s.polarity)
  {
    FlagBitsMean(c.interrupts[k].trigger, c.interrupts[k].polarity);
    OverridesGrow(c, k + 1, OVERRIDES);
    assert Overrides(c, k + 1)[|Overrides(c, k)|] == Override(c.interrupts[k]);
    hide Overrides, LocalNmis, Locals;
    PartAt(Locals(n) + [Io(c)], Overrides(c, OVERRIDES), IoNmi(c), LocalNmis(c, n), AddressOverrides(c), |Overrides(c, k)|);
  }

  /** Which structure comes after the first k local NMI sources. */
  lemma LocalNmiAt(c: Config, n: nat, k: nat)
    requires c.Valid() && n < 32 && k < n && NmiOn(c.nmiMask, k)
    ensures var i := n + 1 + |Overrides(c, OVERRIDES)| + |IoNmi(c)| + |LocalNmis(c, k)|;
            && i < |Structures(c, n)| && Structures(c, n)[i] == LocalNmi(c, k) && Structures(c, n)[i].LocalApicNmi?
            && Structures(c, n)[i].processor as nat == k + 1 && Structures(c, n)[i].lint == c.lint
            && FlagsMean(Structures(c, n)[i].flags, c.localTrigger, c.localPolarity)
  {
    FlagBitsMean(c.localTrigger, c.localPolarity);
    hide NmiOn;
    LocalNmisGrow(c, k + 1, n);
    assert LocalNmis(c, k + 1)[|LocalNmis(c, k)|] == LocalNmi(c, k);
    hide Overrides, LocalNmis, Locals;
    var before := Locals(n) + [Io(c)] + Overrides(c, OVERRIDES) + IoNmi(c);
    assert Structures(c, n) == before + LocalNmis(c, n) + AddressOverrides(c);
  }

  lemma PartAt(a: seq<Struct>, b: seq<Struct>, d: seq<Struct>, e: seq<Struct>, f: seq<Struct>, i: nat)
    requires i < |b|
    ensures (a + b + d + e + f)[|a| + i] == b[i]
  {
  }

  /** The structures that stand alone, and the number of all. */
  lemma FixedAt(c: Config, n: nat)
    requires c.Valid() && n < 32
    ensures var all := Structures(c, n);
            var i := n + 1 + |Overrides(c, OVERRIDES)|;
            var j := i + |IoNmi(c)| + |LocalNmis(c, n)|;
            && |all| == j + |AddressOverrides(c)|
            && all[n] == Io(c) == IoApic(c.ioApicId, c.ioApicAddress, c.gsiBase)
            && (c.ioNmiEnable ==>
                  && all[i] == NmiSource(FlagBits(c.ioTrigger, c.ioPolarity), c.ioNmiSource as uint32)
                  && all[i].NmiSource? && all[i].gsi as nat == c.ioNmiSource as nat
                  && FlagsMean(all[i].flags, c.ioTrigger, c.ioPolarity))
            && (c.addressOverrideEnable ==> all[j] == AddressOverride(c.addressOverride))
  {
    FlagBitsMean(c.ioTrigger, c.ioPolarity);
    hide Overrides, LocalNmis, Locals, FlagBits, FlagsMean;
  }

  lemma LocalAt(c: Config, n: nat, i: nat)
    requires c.Valid() && n < 32 && i < n
    ensures i < |Structures(c, n)| && Structures(c, n)[i] == LocalApic((i + 1) as byte, 0xFF, 0)
  {
    assert Locals(n)[i] == LocalApic((i + 1) as byte, 0xFF, 0);
    hide Overrides, LocalNmis, Locals, IoNmi, AddressOverrides;
    FirstPart(Locals(n), [Io(c)], Overrides(c, OVERRIDES), IoNmi(c), LocalNmis(c, n) , AddressOverrides(c), i);
  }

  lemma FirstPart(a: seq<Struct>, b: seq<Struct>, d: seq<Struct>, e: seq<Struct>, f: seq<Struct>, g: seq<Struct>, i: nat)
    requires i < |a|
    ensures (a + b + d + e + f + g)[i] == a[i]
  {
  }

  /** MadtTableInitialize: the table is as long as its length field says and holds exactly the structures
      of the configuration. */
  method MadtTableInitialize(c: Config, n: nat, identity: Identity) returns (table: array<byte>)
    requires c.Valid() && n < 32 && identity.Valid()
    ensures fresh(table) && Holds(table[..], Structures(c, n))
    ensures HEADER <= table.Length < 0x1000
    ensures Sub(table[..], 0, HEADER) == HeaderBytes(identity, table.Length, c.localAddress)
  {
    hide Overrides, LocalNmis, Locals, IoNmi, AddressOverrides, NmiOn, Structures, Building, Sub, HeaderBytes, Override, Io;
    ghost var all := Structures(c, n);
    var size := GetActualMadtTableSize(c, n);
    StartOfList(all);
    table := new byte[size](_ => 0);
    var header := HeaderBytes(identity, size, c.localAddress);
    HeaderWritten(table[..], header, all);
    Put(table, 0, header);
    var p := HEADER;
    FixedAt(c, n);
    for i := 0 to n
      invariant Building(table[..], header, all, i, p)
    {
      LocalAt(c, n, i);
      p := Append(table, p, LocalApic((i + 1) as byte, 0xFF, 0), header, all, i);
    }
    p := Append(table, p, Io(c), header, all, n);
    p := AppendOverrides(table, p, c, n, header);
    ghost var k := n + 1 + |Overrides(c, OVERRIDES)|;
    NmiCount(c);
    if c.ioNmiEnable {
      p := Append(table, p, NmiSource(FlagBits(c.ioTrigger, c.ioPolarity), c.ioNmiSource as uint32), header, all, k);
    }
    p := AppendLocalNmis(table, p, c, n, header);
    k := k + |IoNmi(c)| + |LocalNmis(c, n)|;
    if c.addressOverrideEnable {
      p := Append(table, p, AddressOverride(c.addressOverride), header, all, k);
    }
    WholeBuilt(table[..], header, all, p);
  }

  lemma NmiCount(c: Config)
    ensures |IoNmi(c)| == (if c.ioNmiEnable then 1 else 0)
    ensures |AddressOverrides(c)| == (if c.addressOverrideEnable then 1 else 0)
  {
  }

  lemma WholeBuilt(m: seq<byte>, header: seq<byte>, all: seq<Struct>, p: nat)
    requires Building(m, header, all, |all|, p)
    ensures Holds(m, all) && |m| >= HEADER && Sub(m, 0, HEADER) == header
  {
  }

  lemma StartOfList(all: seq<Struct>)
    ensures PosOf(all, |all|) >= HEADER
  {
    if |all| > 0 {
      PosBefore(all, 0, |all|);
    }
  }

  lemma HeaderWritten(m: seq<byte>, header: seq<byte>, all: seq<Struct>)
    requires |header| == HEADER <= |m| == PosOf(all, |all|) && ZeroFrom(m, 0)
    ensures Building(Patch(m, 0, header), header, all, 0, HEADER)
  {
    PatchReads(m, 0, header);
  }

  method AppendOverrides(table: array<byte>, p: nat, c: Config, n: nat, ghost header: seq<byte>) returns (next: nat)
    requires c.Valid() && n < 32 && Building(table[..], header, Structures(c, n), n + 1, p)
    modifies table
    ensures Building(table[..], header, Structures(c, n), n + 1 + |Overrides(c, OVERRIDES)|, next)
  {
    hide LocalNmis, Locals, IoNmi, AddressOverrides, Structures, Building, Override;
    next := p;
    for k := 0 to OVERRIDES
      invariant Building(table[..], header, Structures(c, n), n + 1 + |Overrides(c, k)|, next)
    {
      if c.interrupts[k].enable {
        OverrideAt(c, n, k);
        next := Append(table, next, Override(c.interrupts[k]), header, Structures(c, n), n + 1 + |Overrides(c, k)|);
      }
    }
  }

  method AppendLocalNmis(table: array<byte>, p: nat, c: Config, n: nat, ghost header: seq<byte>) returns (next: nat)
    requires c.Valid() && n < 32
    requires Building(table[..], header, Structures(c, n), n + 1 + |Overrides(c, OVERRIDES)| + |IoNmi(c)|, p)
    modifies table
    ensures Building(table[..], header, Structures(c, n),
                     n + 1 + |Overrides(c, OVERRIDES)| + |IoNmi(c)| + |LocalNmis(c, n)|, next)
  {
    hide Overrides, Locals, IoNmi, AddressOverrides, Structures, Building, NmiOn, LocalNmi;
    ghost var base := n + 1 + |Overrides(c, OVERRIDES)| + |IoNmi(c)|;
    next := p;
    for k := 0 to n
      invariant Building(table[..], header, Structures(c, n), base + |LocalNmis(c, k)|, next)
    {
      if NmiOn(c.nmiMask, k) {
        LocalNmiAt(c, n, k);
        next := Append(table, next, LocalNmi(c, k), header, Structures(c, n), base + |LocalNmis(c, k)|);
      }
    }
  }
}
