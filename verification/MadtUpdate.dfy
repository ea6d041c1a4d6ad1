/**
 The walk that patches the built Multiple APIC Description Table with what the processors report.
 */
module MadtUpdate {
  import opened Bytes
  import opened Madt

  const ENABLED: uint32 := 1

  /** The answer of GetProcessorInfo. */
  datatype Info = NoInfo | Info(id: nat, enabled: bool)

  /** The multi-processor services, if they are there. */
  datatype MpServices = NoServices | Processors(infos: seq<Info>)

  /** What the walk patches in: the processors and the settings of the IO APIC. */
  datatype Update = Update(infos: seq<Info>, ioApicId: byte, ioApicAddress: uint32)

  function InfoOf(u: Update, k: nat): Info { if k < |u.infos| then u.infos[k] else NoInfo }

  function ApicIdOf(info: Info): byte { if info.Info? then (info.id % 0x100) as byte else 0 }

  function ApicFlagsOf(info: Info): uint32 { if info.Info? && info.enabled then ENABLED else 0 }

  /** The Local APIC structures among the first k. */
  function LocalCount(structs: seq<Struct>, k: nat): nat
    requires k <= |structs|
  {
    if k == 0 then 0 else LocalCount(structs, k - 1) + (if structs[k - 1].LocalApic? then 1 else 0)
  }

  /** The IO APIC structures among the first k. */
  function IoCount(structs: seq<Struct>, k: nat): nat
    requires k <= |structs|
  {
    if k == 0 then 0 else IoCount(structs, k - 1) + (if structs[k - 1].IoApic? then 1 else 0)
  }

  /** Structure k after the walk. The counters are 8 bits wide. */
  function UpdatedAt(structs: seq<Struct>, u: Update, k: nat): (s: Struct)
    requires k < |structs|
    ensures SizeOf(s) == SizeOf(structs[k]) && TypeOf(s) == TypeOf(structs[k])
  {
    match structs[k]
    case LocalApic(processor, _, _) =>
      var info := InfoOf(u, LocalCount(structs, k) % 0x100);
      LocalApic(processor, ApicIdOf(info), ApicFlagsOf(info))
    case IoApic(_, _, _) =>
      if IoCount(structs, k) % 0x100 == 0 then IoApic(u.ioApicId, u.ioApicAddress, 0) else structs[k]
    case _ => structs[k]
  }

  /** The list with its first k structures patched. */
  function UpdatedTo(structs: seq<Struct>, u: Update, k: nat): (r: seq<Struct>)
    requires k <= |structs|
    ensures |r| == |structs|
  {
    seq(|structs|, i requires 0 <= i < |structs| => if i < k then UpdatedAt(structs, u, i) else structs[i])
  }

  function Updated(structs: seq<Struct>, u: Update): seq<Struct> { UpdatedTo(structs, u, |structs|) }

  lemma UpdatedShape(structs: seq<Struct>, u: Update, k: nat)
    requires k <= |structs|
    ensures SameShape(structs, UpdatedTo(structs, u, k))
    ensures PosOf(UpdatedTo(structs, u, k), k) == PosOf(structs, k)
    ensures PosOf(UpdatedTo(structs, u, k), |structs|) == PosOf(structs, |structs|)
  {
    hide SizeOf, UpdatedAt;
    SamePos(structs, UpdatedTo(structs, u, k), k);
    SamePos(structs, UpdatedTo(structs, u, k), |structs|);
  }

  /** The first two bytes of a structure in a table. */
  lemma HeadOf(m: seq<byte>, structs: seq<Struct>, k: nat)
    requires Holds(m, structs) && k < |structs|
    ensures PosOf(structs, k) + SizeOf(structs[k]) <= |m|
    ensures Sub(m, PosOf(structs, k), SizeOf(structs[k])) == Encode(structs[k])
    ensures m[PosOf(structs, k)] == TypeOf(structs[k])
    ensures m[PosOf(structs, k) + 1] as nat == SizeOf(structs[k])
  {
    hide Encode, SizeOf, PosOf;
    assert SpanHolds(m, structs, k);
    var s := Sub(m, PosOf(structs, k), SizeOf(structs[k]));
    assert s[0] == m[PosOf(structs, k)] && s[1] == m[PosOf(structs, k) + 1];
  }

  lemma PatchSame(m: seq<byte>, at: nat, a: seq<byte>, b: seq<byte>)
    requires at + |a| <= |m| && |a| == |b|
    ensures Patch(Patch(m, at, a), at, b) == Patch(m, at, b)
  {
  }

  lemma PatchSwap(m: seq<byte>, at: nat, a: seq<byte>, at': nat, b: seq<byte>)
    requires at + |a| <= at' && at' + |b| <= |m|
    ensures Patch(Patch(m, at, a), at', b) == Patch(Patch(m, at', b), at, a)
  {
  }

  /** Storing bytes over themselves in front of a patch widens it. */
  lemma PatchInFront(m: seq<byte>, at: nat, a: seq<byte>, b: seq<byte>)
    requires at + |a| + |b| <= |m| && Sub(m, at, |a|) == a
    ensures Patch(m, at + |a|, b) == Patch(m, at, a + b)
  {
    assert Patch(m, at, a) == m;
    PatchTwice(m, at, a, b);
  }

  /** The patch of a Local APIC: both fields cleared, then set from the processor's information. */
  method UpdateLocal(table: array<byte>, p: nat, info: Info, ghost s: Struct)
    requires s.LocalApic? && p + 8 <= table.Length && Sub(table[..], p, 8) == Encode(s)
    modifies table
    ensures table[..] == Patch(old(table[..]), p, Encode(LocalApic(s.processor, ApicIdOf(info), ApicFlagsOf(info))))
  {
    hide Patch, ToLe32;
    ghost var m := table[..];
    ghost var clear, flags, id := ToLe32(0), ToLe32(ApicFlagsOf(info)), [ApicIdOf(info)];
    Put(table, p + 4, ToLe32(0));
    Put(table, p + 3, [0]);
    if info.Info? {
      if info.enabled {
        PatchSwap(Patch(m, p + 4, clear), p + 3, [0], p + 4, ToLe32(ENABLED));
        Put(table, p + 4, ToLe32(ENABLED));
        PatchSame(m, p + 4, clear, ToLe32(ENABLED));
      }
      Put(table, p + 3, [(info.id % 0x100) as byte]);
      PatchSame(Patch(m, p + 4, flags), p + 3, [0], id);
    }
    PatchSwap(m, p + 3, id, p + 4, flags);
    PatchTwice(m, p + 3, id, flags);
    LocalHead(m, p, s);
    PatchInFront(m, p, [0, 8, s.processor], id + flags);
    assert [0, 8, s.processor] + (id + flags) == [0, 8, s.processor, ApicIdOf(info)] + flags;
  }

  lemma LocalHead(m: seq<byte>, p: nat, s: Struct)
    requires s.LocalApic? && p + 8 <= |m| && Sub(m, p, 8) == Encode(s)
    ensures Sub(m, p, 3) == [0, 8, s.processor]
  {
    assert Sub(m, p, 3) == Sub(m, p, 8)[..3];
  }

  lemma IoHead(m: seq<byte>, p: nat, s: Struct)
    requires s.IoApic? && p + 12 <= |m| && Sub(m, p, 12) == Encode(s)
    ensures Sub(m, p, 2) == [1, 12] && Sub(m, p + 3, 1) == [0]
  {
    var e := Sub(m, p, 12);
    assert Sub(m, p, 2) == e[..2];
    assert Sub(m, p + 3, 1)[0] == e[3];
  }

  /** The patch of the IO APIC: identifier, address and interrupt base. */
  method UpdateIo(table: array<byte>, p: nat, id: byte, address: uint32, ghost s: Struct)
    requires s.IoApic? && p + 12 <= table.Length && Sub(table[..], p, 12) == Encode(s)
    modifies table
    ensures table[..] == Patch(old(table[..]), p, Encode(IoApic(id, address, 0)))
  {
    hide Patch, ToLe32;
    ghost var m := table[..];
    Put(table, p + 2, [id]);
    Put(table, p + 4, ToLe32(address));
    Put(table, p + 8, ToLe32(0));
    IoHead(m, p, s);
    PatchZeros(m, p + 2, [id], [0]);
    PatchTwice(m, p + 2, [id] + [0], ToLe32(address));
    PatchTwice(m, p + 2, [id] + [0] + ToLe32(address), ToLe32(0));
    PatchInFront(m, p, [1, 12], [id] + [0] + ToLe32(address) + ToLe32(0));
    assert [1, 12] + ([id] + [0] + ToLe32(address) + ToLe32(0)) == [1, 12, id, 0] + ToLe32(address) + ToLe32(0);
  }

  /** One turn of the walk: after it one more structure is patched. */
  lemma OneMore(m: seq<byte>, m': seq<byte>, structs: seq<Struct>, u: Update, k: nat)
    requires k < |structs| && Holds(m, UpdatedTo(structs, u, k))
    requires PosOf(structs, k) + SizeOf(structs[k]) <= |m|
    requires m' == Patch(m, PosOf(structs, k), Encode(UpdatedAt(structs, u, k)))
    ensures Holds(m', UpdatedTo(structs, u, k + 1))
    ensures |m| >= HEADER && Sub(m', 0, HEADER) == Sub(m, 0, HEADER)
  {
    hide SizeOf, Encode, UpdatedAt, Holds, PosOf, Patch;
    var now, next := UpdatedTo(structs, u, k), UpdatedTo(structs, u, k + 1);
    UpdatedShape(structs, u, k);
    ReplaceOne(m, now, next, k);
    AtLeastHeader(structs, k);
    PatchKeeps(m, PosOf(structs, k), Encode(UpdatedAt(structs, u, k)), 0, HEADER);
  }

  lemma AtLeastHeader(structs: seq<Struct>, k: nat)
    requires k <= |structs|
    ensures PosOf(structs, k) >= HEADER
  {
    if k > 0 {
      PosBefore(structs, 0, k);
    }
  }

  /** A structure that the walk leaves alone. */
  lemma NothingToStore(m: seq<byte>, p: nat, s: Struct)
    requires p + SizeOf(s) <= |m| && Sub(m, p, SizeOf(s)) == Encode(s)
    ensures Patch(m, p, Encode(s)) == m
  {
    hide Encode, SizeOf;
  }

  lemma StartOfWalk(m: seq<byte>, structs: seq<Struct>, u: Update)
    requires Holds(m, structs)
    ensures Holds(m, UpdatedTo(structs, u, 0)) && PosOf(structs, |structs|) == |m|
    ensures PosOf(structs, 0) == HEADER && LocalCount(structs, 0) == IoCount(structs, 0) == 0
  {
    assert UpdatedTo(structs, u, 0) == structs;
  }

  /** What the walk sees at its pointer before the end, and how its counters go on. */
  lemma WalkTurn(m: seq<byte>, structs: seq<Struct>, u: Update, k: nat)
    requires k <= |structs| && Holds(m, UpdatedTo(structs, u, k)) && PosOf(structs, k) < PosOf(structs, |structs|)
    ensures k < |structs|
    ensures var p := PosOf(structs, k);
            && p + SizeOf(structs[k]) <= |m| && Sub(m, p, SizeOf(structs[k])) == Encode(structs[k])
            && (m[p] == 0 <==> structs[k].LocalApic?) && (m[p] == 1 <==> structs[k].IoApic?)
            && (structs[k].LocalApic? ==> SizeOf(structs[k]) == 8) && (structs[k].IoApic? ==> SizeOf(structs[k]) == 12)
            && SizeOf(structs[k]) > 0
    ensures PosOf(structs, k + 1) == PosOf(structs, k) + SizeOf(structs[k])
    ensures LocalCount(structs, k + 1) == LocalCount(structs, k) + (if structs[k].LocalApic? then 1 else 0)
    ensures IoCount(structs, k + 1) == IoCount(structs, k) + (if structs[k].IoApic? then 1 else 0)
  {
    hide Encode, Holds, Sub, UpdatedAt;
    UpdatedShape(structs, u, k);
    if k < |structs| {
      HeadOf(m, UpdatedTo(structs, u, k), k);
    }
  }

  lemma EndOfWalk(structs: seq<Struct>, k: nat)
    requires k <= |structs| && PosOf(structs, k) == PosOf(structs, |structs|)
    ensures k == |structs|
  {
    hide PosOf, SizeOf;
    if k < |structs| {
      PosBefore(structs, k, |structs|);
    }
  }

  lemma PatchedTurn(m: seq<byte>, m': seq<byte>, structs: seq<Struct>, u: Update, k: nat)
    requires k < |structs| && Holds(m, UpdatedTo(structs, u, k))
    requires PosOf(structs, k) + SizeOf(structs[k]) <= |m|
    requires m' == Patch(m, PosOf(structs, k), Encode(UpdatedAt(structs, u, k)))
    ensures Holds(m', UpdatedTo(structs, u, k + 1))
    ensures |m| >= HEADER && Sub(m', 0, HEADER) == Sub(m, 0, HEADER)
    ensures PosOf(structs, k) + 1 < |m'| && m'[PosOf(structs, k) + 1] as nat == SizeOf(structs[k])
    ensures PosOf(structs, k + 1) <= PosOf(structs, |structs|)
  {
    hide Encode, SizeOf, Patch, Sub, UpdatedAt;
    OneMore(m, m', structs, u, k);
    UpdatedShape(structs, u, k + 1);
    SamePos(structs, UpdatedTo(structs, u, k + 1), k);
    HeadOf(m', UpdatedTo(structs, u, k + 1), k);
    if k + 1 < |structs| {
      PosBefore(structs, k + 1, |structs|);
    }
  }

  lemma UpdatedCases(structs: seq<Struct>, u: Update, k: nat)
    requires k < |structs|
    ensures var s, info := structs[k], InfoOf(u, LocalCount(structs, k) % 0x100);
            UpdatedAt(structs, u, k)
            == if s.LocalApic? then LocalApic(s.processor, ApicIdOf(info), ApicFlagsOf(info))
               else if s.IoApic? && IoCount(structs, k) % 0x100 == 0 then IoApic(u.ioApicId, u.ioApicAddress, 0)
               else s
  {
    hide LocalCount, IoCount, ApicIdOf, ApicFlagsOf, InfoOf;
  }

  /** One turn of the walk, at structure k: next is where the pointer goes, and the counters count. */
  method UpdateOne(table: array<byte>, p: nat, u: Update, processor: nat, io: nat, ghost structs: seq<Struct>, ghost k: nat)
    returns (next: nat, processor': nat, io': nat)
    requires k < |structs| && p == PosOf(structs, k) < PosOf(structs, |structs|)
    requires Holds(table[..], UpdatedTo(structs, u, k))
    requires processor == LocalCount(structs, k) % 0x100 && io == IoCount(structs, k) % 0x100
    modifies table
    ensures Holds(table[..], UpdatedTo(structs, u, k + 1))
    ensures next == PosOf(structs, k + 1) <= PosOf(structs, |structs|)
    ensures processor' == LocalCount(structs, k + 1) % 0x100 && io' == IoCount(structs, k + 1) % 0x100
    ensures table.Length >= HEADER && Sub(table[..], 0, HEADER) == Sub(old(table[..]), 0, HEADER)
  {
    hide SizeOf, Encode, Holds, PosOf, Patch, Sub, UpdatedTo, UpdatedAt, LocalCount, IoCount, ApicIdOf, ApicFlagsOf;
    ghost var m := table[..];
    WalkTurn(m, structs, u, k);
    UpdatedCases(structs, u, k);
    processor', io' := processor, io;
    if table[p] == 0 {
      var info := if processor < |u.infos| then u.infos[processor] else NoInfo;
      UpdateLocal(table, p, info, structs[k]);
      processor' := (processor + 1) % 0x100;
    } else if table[p] == 1 {
      if io == 0 {
        UpdateIo(table, p, u.ioApicId, u.ioApicAddress, structs[k]);
      } else {
        NothingToStore(m, p, structs[k]);
      }
      io' := (io + 1) % 0x100;
    } else {
      NothingToStore(m, p, structs[k]);
    }
    PatchedTurn(m, table[..], structs, u, k);
    next := p + table[p + 1] as nat;
  }

  /** ApicTableUpdate on a table of any structures. Without the services the version becomes none. The
      walk stops exactly where the length field says, gives the k-th Local APIC the k-th processor, patches
      the first IO APIC and changes nothing else. */
  method ApicTableUpdate(table: array<byte>, mp: MpServices, ioApicId: byte, ioApicAddress: uint32, ghost structs: seq<Struct>)
    returns (patched: bool, stop: nat)
    requires table.Length >= HEADER && Holds(table[..], structs) && LengthField(table[..]) == table.Length
    modifies table
    ensures patched == mp.Processors?
    ensures mp.NoServices? ==> table[..] == old(table[..])
    ensures mp.Processors? ==> Holds(table[..], Updated(structs, Update(mp.infos, ioApicId, ioApicAddress)))
    ensures mp.Processors? ==> stop == table.Length
    ensures Sub(table[..], 0, HEADER) == Sub(old(table[..]), 0, HEADER)
  {
    hide SizeOf, Encode, Holds, PosOf, Patch, UpdatedTo, LocalCount, IoCount, ApicIdOf, ApicFlagsOf;
    stop := 0;
    if mp.NoServices? {
      return false, stop;
    }
    var u := Update(mp.infos, ioApicId, ioApicAddress);
    ghost var k := 0;
    var p, end := HEADER, LengthField(table[..]) as nat;
    var io, processor := 0, 0;
    StartOfWalk(table[..], structs, u);
    while p < end
      invariant k <= |structs| && p == PosOf(structs, k) <= end && end == table.Length == PosOf(structs, |structs|)
      invariant Holds(table[..], UpdatedTo(structs, u, k))
      invariant processor == LocalCount(structs, k) % 0x100 && io == IoCount(structs, k) % 0x100
      invariant Sub(table[..], 0, HEADER) == Sub(old(table[..]), 0, HEADER)
      decreases end - p
    {
      WalkTurn(table[..], structs, u, k);
      p, processor, io := UpdateOne(table, p, u, processor, io, structs, k);
      k := k + 1;
    }
    EndOfWalk(structs, k);
    return true, p;
  }

  // ---- The table of a configuration ----

  lemma {:induction false} NoneOfKind(c: Config, n: nat, k: nat)
    requires c.Valid() && n < 32 && n < k <= |Structures(c, n)|
    ensures LocalCount(Structures(c, n), k) == n && IoCount(Structures(c, n), k) == 1
    decreases k
  {
    hide Structures;
    KindAt(c, n, k - 1);
    if k - 1 > n {
      NoneOfKind(c, n, k - 1);
    } else {
      LocalsFirst(c, n, n);
    }
  }

  lemma {:induction false} LocalsFirst(c: Config, n: nat, k: nat)
    requires c.Valid() && n < 32 && k <= n
    ensures k < |Structures(c, n)| && LocalCount(Structures(c, n), k) == k && IoCount(Structures(c, n), k) == 0
    decreases k
  {
    FixedAt(c, n);
    hide Structures;
    if k > 0 {
      LocalsFirst(c, n, k - 1);
      KindAt(c, n, k - 1);
    }
  }

  /** The first n structures are the Local APICs, the next is the IO APIC, and no other is of these kinds. */
  lemma KindAt(c: Config, n: nat, i: nat)
    requires c.Valid() && n < 32 && i < |Structures(c, n)|
    ensures Structures(c, n)[i].LocalApic? <==> i < n
    ensures Structures(c, n)[i].IoApic? <==> i == n
  {
    hide Overrides, LocalNmis, Locals, IoNmi, AddressOverrides;
    FixedAt(c, n);
    if i < n {
      LocalAt(c, n, i);
    } else if i > n {
      OverrideKinds(c, OVERRIDES);
      LocalNmiKinds(c, n);
      OtherKinds(c);
      var rest := Overrides(c, OVERRIDES) + IoNmi(c) + LocalNmis(c, n) + AddressOverrides(c);
      assert Structures(c, n) == Locals(n) + [Io(c)] + rest;
      assert Structures(c, n)[i] == rest[i - n - 1];
      assert Other(rest[i - n - 1]);
    }
  }

  predicate Other(s: Struct) { !s.LocalApic? && !s.IoApic? }

  lemma {:induction false} OverrideKinds(c: Config, k: nat)
    requires k <= |c.interrupts|
    ensures forall i :: 0 <= i < |Overrides(c, k)| ==> Other(Overrides(c, k)[i])
  {
    if k > 0 {
      OverrideKinds(c, k - 1);
    }
  }

  lemma {:induction false} LocalNmiKinds(c: Config, k: nat)
    requires k <= 32
    ensures forall i :: 0 <= i < |LocalNmis(c, k)| ==> Other(LocalNmis(c, k)[i])
  {
    hide NmiOn;
    if k > 0 {
      LocalNmiKinds(c, k - 1);
    }
  }

  lemma OtherKinds(c: Config)
    ensures forall i :: 0 <= i < |IoNmi(c)| ==> Other(IoNmi(c)[i])
    ensures forall i :: 0 <= i < |AddressOverrides(c)| ==> Other(AddressOverrides(c)[i])
  {
  }

  /** In the table of a configuration, processor k goes to the k-th Local APIC, one IO APIC is met and gets
      interrupt base 0 whatever the configuration says, and every other structure stays as built. */
  lemma UpdatedMadt(c: Config, n: nat, u: Update, i: nat)
    requires c.Valid() && n < 32 && i < |Structures(c, n)|
    ensures IoCount(Structures(c, n), |Structures(c, n)|) == 1
    ensures Updated(Structures(c, n), u)[i]
         == if i < n then LocalApic((i + 1) as byte, ApicIdOf(InfoOf(u, i)), ApicFlagsOf(InfoOf(u, i)))
            else if i == n then IoApic(u.ioApicId, u.ioApicAddress, 0)
            else Structures(c, n)[i]
    ensures i < n ==>
              var s := Updated(Structures(c, n), u)[i];
              && s.LocalApic? && s.processor as nat == i + 1
              && (i < |u.infos| && u.infos[i].Info? ==>
                    s.apicId as nat == u.infos[i].id % 0x100 && s.apicFlags == if u.infos[i].enabled then 1 else 0)
              && (i >= |u.infos| || u.infos[i].NoInfo? ==> s.apicId == 0 && s.apicFlags == 0)
  {
    FieldsOf(u, i);
    hide Structures, LocalCount, IoCount, ApicIdOf, ApicFlagsOf, InfoOf;
    LocalsFirst(c, n, 0);
    LocalsFirst(c, n, n);
    NoneOfKind(c, n, |Structures(c, n)|);
    KindAt(c, n, i);
    if i < n {
      LocalsFirst(c, n, i);
      LocalAt(c, n, i);
    }
  }

  lemma FieldsOf(u: Update, i: nat)
    ensures var info := InfoOf(u, i);
            && (i < |u.infos| && u.infos[i].Info? ==>
                  && ApicIdOf(info) as nat == u.infos[i].id % 0x100
                  && ApicFlagsOf(info) == if u.infos[i].enabled then 1 else 0)
            && (i >= |u.infos| || u.infos[i].NoInfo? ==> ApicIdOf(info) == 0 && ApicFlagsOf(info) == 0)
  {
  }

  // ---- The checksum ----

  const CHECKSUM_AT: nat := 9

  function ByteSum(m: seq<byte>): nat {
    if m == [] then 0 else ByteSum(m[..|m| - 1]) + m[|m| - 1] as nat
  }

  lemma {:induction false} SumAfterStore(m: seq<byte>, at: nat, b: byte)
    requires at < |m|
    ensures ByteSum(m[at := b]) == ByteSum(m) - m[at] as nat + b as nat
    decreases |m|
  {
    var n := |m| - 1;
    if at < n {
      assert m[at := b][..n] == m[..n][at := b];
      SumAfterStore(m[..n], at, b);
    } else {
      assert m[at := b][..n] == m[..n];
    }
  }

  lemma NoSum()
    ensures ByteSum([]) == 0
  {
  }

  lemma NextSum(m: seq<byte>, i: nat)
    requires i < |m|
    ensures ByteSum(m[..i + 1]) % 0x100 == (ByteSum(m[..i]) % 0x100 + m[i] as nat) % 0x100
  {
    assert m[..i + 1][..i] == m[..i];
  }

  /** The loop of CalculateCheckSum8: what brings the sum of all bytes to 0. */
  method CalculateCheckSum8(table: array<byte>) returns (checksum: byte)
    ensures (ByteSum(table[..]) + checksum as nat) % 0x100 == 0
  {
    hide ByteSum;
    var sum: nat := 0;
    NoSum();
    for i := 0 to table.Length
      invariant sum < 0x100 && sum == ByteSum(table[..i]) % 0x100
    {
      NextSum(table[..], i);
      sum := (sum + table[i] as nat) % 0x100;
    }
    assert table[..table.Length] == table[..];
    checksum := ((0x100 - sum) % 0x100) as byte;
  }

  /** Storing a checksum over a field that was zeroed first. */
  method StoreChecksum(table: array<byte>)
    requires table.Length >= HEADER
    modifies table
    ensures ByteSum(table[..]) % 0x100 == 0
    ensures table[..] == old(table[..])[CHECKSUM_AT := table[CHECKSUM_AT]]
  {
    ghost var m := table[..];
    table[CHECKSUM_AT] := 0;
    ghost var zeroed := table[..];
    var checksum := CalculateCheckSum8(table);
    table[CHECKSUM_AT] := checksum;
    SumAfterStore(zeroed, CHECKSUM_AT, checksum);
    assert table[..] == zeroed[CHECKSUM_AT := checksum] == m[CHECKSUM_AT := checksum];
  }

  /** The checksum is none of the structures' bytes and not in the length field. */
  lemma ChecksumApart(m: seq<byte>, m': seq<byte>, structs: seq<Struct>)
    requires |m| >= HEADER && |m'| == |m| && m' == m[CHECKSUM_AT := m'[CHECKSUM_AT]] && Holds(m, structs)
    ensures Holds(m', structs) && LengthField(m') == LengthField(m)
  {
    hide Encode, SizeOf, PosOf;
    forall i: nat | i < |structs|
      ensures SpanHolds(m', structs, i)
    {
      assert SpanHolds(m, structs, i);
      AtLeastHeader(structs, i);
      assert Sub(m', PosOf(structs, i), SizeOf(structs[i])) == Sub(m, PosOf(structs, i), SizeOf(structs[i]));
    }
    assert Sub(m', LENGTH_AT, 4) == Sub(m, LENGTH_AT, 4);
  }

  /** The versions that a table is for. */
  datatype Version = NoVersion | AllVersions

  /** The entry of the driver, as far as it concerns this table: built, patched with the same settings, and
      given a checksum. The table is installed whatever the version says. */
  method InstallMadt(c: Config, n: nat, identity: Identity, mp: MpServices) returns (version: Version, table: array<byte>)
    requires c.Valid() && n < 32 && identity.Valid()
    ensures version == (if mp.Processors? then AllVersions else NoVersion)
    ensures var all := Structures(c, n);
            Holds(table[..], if mp.Processors? then Updated(all, Update(mp.infos, c.ioApicId, c.ioApicAddress)) else all)
    ensures |table[..]| >= HEADER && LengthField(table[..]) == table.Length
    ensures Sub(table[..], 0, HEADER)
         == HeaderBytes(identity, table.Length, c.localAddress)[9 := table[9]]
    ensures ByteSum(table[..]) % 0x100 == 0
  {
    hide Structures, Holds, Updated, HeaderBytes, LengthField, ByteSum, Sub;
    version := AllVersions;
    table := MadtTableInitialize(c, n, identity);
    LengthReadsBack(table[..], identity, table.Length, c.localAddress);
    ghost var before := table[..];
    var patched, stop := ApicTableUpdate(table, mp, c.ioApicId, c.ioApicAddress, Structures(c, n));
    if !patched {
      version := NoVersion;
    }
    SameLength(before, table[..]);
    ghost var all := Structures(c, n);
    ghost var final := if mp.Processors? then Updated(all, Update(mp.infos, c.ioApicId, c.ioApicAddress)) else all;
    ghost var walked := table[..];
    StoreChecksum(table);
    ChecksumApart(walked, table[..], final);
    HeaderApart(walked, table[..]);
  }

  lemma HeaderApart(m: seq<byte>, m': seq<byte>)
    requires |m| >= HEADER && |m'| == |m| && m' == m[CHECKSUM_AT := m'[CHECKSUM_AT]]
    ensures Sub(m', 0, HEADER) == Sub(m, 0, HEADER)[CHECKSUM_AT := m'[CHECKSUM_AT]]
  {
  }

  lemma SameLength(m: seq<byte>, m': seq<byte>)
    requires |m| >= HEADER && |m'| >= HEADER && Sub(m', 0, HEADER) == Sub(m, 0, HEADER)
    ensures LengthField(m') == LengthField(m)
  {
    SubSpan(m, 0, m', 0, HEADER, LENGTH_AT, 4);
  }
}
