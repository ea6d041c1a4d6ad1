/** Printing a list of records as a variable store, which the walk of the driver parses back. */
module VariablePrint {
  import opened Bytes
  import opened VariableStore
  import opened VariableConvert

  /** The records that some bytes stand for. */
  predicate Printable(r: Record) {
    && |r.guid| == 16 && r.attributes <= ALL_ONES_32 && r.nameSize <= ALL_ONES_32 && r.dataSize <= ALL_ONES_32
    && if r.AllOnes() then r.name == [] && r.data == [] else r.Sized()
  }

  function Front(r: Record): (s: seq<byte>)
    requires Printable(r)
    ensures |s| == 8
  {
    VARIABLE_DATA + [r.state, r.reserved] + ToLe32(r.attributes)
  }

  function Size(r: Record, l: Layout, f: Format): (n: nat)
    requires l.Valid()
  {
    Extent(f, l.padTo, |r.name|, |r.data|)
  }

  /** The buffer m with the record r printed at position q. */
  function RecordPrinted(m: seq<byte>, q: nat, r: Record, l: Layout, f: Format): (m': seq<byte>)
    requires l.Valid() && f.Valid() && Printable(r) && q + Size(r, l, f) <= |m|
    ensures |m'| == |m|
  {
    var m1 := HeaderPatched(m, q, Front(r), ToLe32(r.nameSize), ToLe32(r.dataSize), r.guid, f);
    var m2 := Patch(m1, q + f.headerSize, r.name);
    Patch(m2, q + DataOffset(f, l.padTo, |r.name|), r.data)
  }

  lemma FrontReads(m: seq<byte>, q: nat, r: Record)
    requires Printable(r) && q + 8 <= |m| && Sub(m, q, 8) == Front(r)
    ensures m[q + 2] == r.state && m[q + 3] == r.reserved && Field32(m, q + 4) == r.attributes
    ensures IsValidVariableHeader(m, q)
  {
    hide ToLe32, Le32;
    var s := Sub(m, q, 8);
    assert m[q + 2] == s[2] && m[q + 3] == s[3];
    assert Sub(m, q + 4, 4) == s[4..8] == ToLe32(r.attributes);
    assert Sub(m, q, 2) == s[..2] == VARIABLE_DATA;
  }

  /** The header fields of a printed record read back, and with them the sizes. */
  lemma HeaderReads(m: seq<byte>, q: nat, r: Record, l: Layout, f: Format)
    requires l.Valid() && f.Valid() && Printable(r) && q + f.headerSize <= |m|
    requires Sub(m, q, 8) == Front(r) && Sub(m, q + f.guidAt, 16) == r.guid
    requires Sub(m, q + f.nameSizeAt, 4) == ToLe32(r.nameSize) && Sub(m, q + f.dataSizeAt, 4) == ToLe32(r.dataSize)
    ensures IsValidVariableHeader(m, q)
    ensures m[q + 2] == r.state && m[q + 3] == r.reserved && Field32(m, q + 4) == r.attributes
    ensures Field32(m, q + f.nameSizeAt) == r.nameSize && Field32(m, q + f.dataSizeAt) == r.dataSize
    ensures NameSizeOfVariable(m, q, f) == |r.name| && DataSizeOfVariable(m, q, f) == |r.data|
  {
    hide ToLe32, Le32, Sub, IsValidVariableHeader;
    FrontReads(m, q, r);
  }

  /** A printed record is parsed as itself, and the bytes before it stay. */
  lemma RecordPrintedReads(m: seq<byte>, q: nat, r: Record, l: Layout, f: Format)
    requires l.Valid() && f.Valid() && Printable(r) && q + Size(r, l, f) <= |m|
    ensures var m' := RecordPrinted(m, q, r, l, f);
            && Fits(m', q, l, f) && IsValidVariableHeader(m', q)
            && RecordAt(m', q, l, f) == r && RecordEnd(m', q, l, f) == q + Size(r, l, f)
            && Sub(m', 0, q) == Sub(m, 0, q)
  {
    hide Patch, Sub, Pad, NameSizeOfVariable, DataSizeOfVariable, Field32, HeaderPatched, IsValidVariableHeader, Front;
    var nameSize, dataSize := ToLe32(r.nameSize), ToLe32(r.dataSize);
    var m1 := HeaderPatched(m, q, Front(r), nameSize, dataSize, r.guid, f);
    HeaderPatchedFields(m, q, Front(r), nameSize, dataSize, r.guid, f);
    HeaderPatchedKeeps(m, q, Front(r), nameSize, dataSize, r.guid, f);
    HeaderReads(m1, q, r, l, f);
    var at := q + DataOffset(f, l.padTo, |r.name|);
    var m2 := Patch(m1, q + f.headerSize, r.name);
    PatchReads(m1, q + f.headerSize, r.name);
    PatchKeeps(m1, q + f.headerSize, r.name, q, f.headerSize);
    PatchKeeps(m1, q + f.headerSize, r.name, 0, q);
    var m3 := Patch(m2, at, r.data);
    PatchReads(m2, at, r.data);
    PatchKeeps(m2, at, r.data, q, f.headerSize);
    PatchKeeps(m2, at, r.data, 0, q);
    PatchKeeps(m2, at, r.data, q + f.headerSize, |r.name|);
    SameHeader(m1, q, m3, q, f);
    SameSizes(m1, q, m3, q, f);
  }

  /** What a walk visits can be printed. */
  lemma RecordIsPrintable(m: seq<byte>, p: nat, l: Layout, f: Format)
    requires l.Valid() && f.Valid() && Fits(m, p, l, f)
    ensures Printable(RecordAt(m, p, l, f))
  {
    hide Pad, Field32, Sub;
  }

  // ---- Whole stores ----

  ghost predicate AllPrintable(rs: seq<Record>) { forall i :: 0 <= i < |rs| ==> Printable(rs[i]) }

  /** Where the first k records end in a store at base. */
  function EndOf(base: nat, rs: seq<Record>, k: nat, l: Layout, f: Format): (e: nat)
    requires l.Valid() && k <= |rs|
    ensures e >= l.storeHeader
  {
    if k == 0 then l.storeHeader else AlignedAt(base, EndOf(base, rs, k - 1, l, f), l.align) + Size(rs[k - 1], l, f)
  }

  /** The first k records printed into m. */
  ghost function Printed(m: seq<byte>, base: nat, rs: seq<Record>, k: nat, l: Layout, f: Format): (m': seq<byte>)
    requires l.Valid() && f.Valid() && AllPrintable(rs) && k <= |rs| && EndOf(base, rs, k, l, f) <= |m|
    ensures |m'| == |m|
  {
    if k == 0 then m
    else
      RecordPrinted(Printed(m, base, rs, k - 1, l, f), AlignedAt(base, EndOf(base, rs, k - 1, l, f), l.align), rs[k - 1], l, f)
  }

  /** Printing one record behind v extends what is stored by that record. */
  lemma PrintExtendsStored(m: seq<byte>, base: nat, v: nat, rs: seq<Record>, r: Record, l: Layout, f: Format)
    requires l.Valid() && f.Valid() && l.storeHeader <= v <= |m| && Stored(m, base, l.storeHeader, v, rs, l, f, Reported)
    requires Printable(r) && AlignedAt(base, v, l.align) + Size(r, l, f) <= |m|
    ensures var q := AlignedAt(base, v, l.align);
            Stored(RecordPrinted(m, q, r, l, f), base, l.storeHeader, q + Size(r, l, f), rs + [r], l, f, Reported)
  {
    hide Stored, RecordAt, RecordEnd, EndBy, RecordPrinted, IsValidVariableHeader, Size, Sub, Printable;
    var q := AlignedAt(base, v, l.align);
    var m' := RecordPrinted(m, q, r, l, f);
    RecordPrintedReads(m, q, r, l, f);
    SubSpan(m, 0, m', 0, q, l.storeHeader, v - l.storeHeader);
    StoredSpan(m, m', base, l.storeHeader, v, rs, l, f, Reported);
    StoredAppend(m', base, l.storeHeader, v, rs, l, f, Reported);
  }

  lemma NothingPrinted(m: seq<byte>, base: nat, rs: seq<Record>, l: Layout, f: Format)
    requires l.Valid() && f.Valid() && AllPrintable(rs) && l.storeHeader <= |m|
    ensures EndOf(base, rs, 0, l, f) == l.storeHeader && Printed(m, base, rs, 0, l, f) == m
    ensures Stored(m, base, l.storeHeader, l.storeHeader, [], l, f, Reported)
  {
  }

  lemma PrintedNext(m: seq<byte>, base: nat, rs: seq<Record>, k: nat, l: Layout, f: Format)
    requires l.Valid() && f.Valid() && AllPrintable(rs) && 0 < k <= |rs| && EndOf(base, rs, k, l, f) <= |m|
    ensures var v, q := EndOf(base, rs, k - 1, l, f), AlignedAt(base, EndOf(base, rs, k - 1, l, f), l.align);
            && v <= |m| && Printable(rs[k - 1])
            && EndOf(base, rs, k, l, f) == q + Size(rs[k - 1], l, f)
            && Printed(m, base, rs, k, l, f) == RecordPrinted(Printed(m, base, rs, k - 1, l, f), q, rs[k - 1], l, f)
  {
    hide Printable, RecordPrinted, Size, AlignedAt;
  }

  lemma {:induction false} PrintedIsStored(m: seq<byte>, base: nat, rs: seq<Record>, k: nat, l: Layout, f: Format)
    requires l.Valid() && f.Valid() && AllPrintable(rs) && k <= |rs| && EndOf(base, rs, k, l, f) <= |m|
    ensures Stored(Printed(m, base, rs, k, l, f), base, l.storeHeader, EndOf(base, rs, k, l, f), rs[..k], l, f, Reported)
  {
    hide Stored, RecordPrinted, Size, Printable, Printed, EndOf, AlignedAt;
    if k == 0 {
      NothingPrinted(m, base, rs, l, f);
      assert rs[..0] == [];
    } else {
      PrintedNext(m, base, rs, k, l, f);
      PrintedIsStored(m, base, rs, k - 1, l, f);
      var v := EndOf(base, rs, k - 1, l, f);
      PrintExtendsStored(Printed(m, base, rs, k - 1, l, f), base, v, rs[..k - 1], rs[k - 1], l, f);
      assert rs[..k - 1] + [rs[k - 1]] == rs[..k];
    }
  }

  /** The store of a list of records, on top of the bytes m. */
  ghost function StoreOf(m: seq<byte>, base: nat, rs: seq<Record>, l: Layout, f: Format): (m': seq<byte>)
    requires l.Valid() && f.Valid() && AllPrintable(rs)
    requires EndOf(base, rs, |rs|, l, f) <= |m| && EndOf(base, rs, |rs|, l, f) <= ALL_ONES_32
  {
    Patch(Printed(m, base, rs, |rs|, l, f), STORE_SIZE_AT, ToLe32(EndOf(base, rs, |rs|, l, f)))
  }

  /** For every base address, whatever its alignment, printing and parsing agree: the walk of the printed
      store visits exactly the records printed, in order, and stops exactly at its end. */
  lemma PrintThenWalk(m: seq<byte>, base: nat, rs: seq<Record>, l: Layout, f: Format)
    requires l.Valid() && f.Valid() && AllPrintable(rs)
    requires EndOf(base, rs, |rs|, l, f) <= |m| && EndOf(base, rs, |rs|, l, f) <= ALL_ONES_32
    ensures var m' := StoreOf(m, base, rs, l, f);
            && IsStore(m', base, l, f) && Records(m', base, l, f) == rs && EndsAtEnd(m', base, l, f)
            && StoreSize(m') == EndOf(base, rs, |rs|, l, f)
  {
    hide Stored, Printed, EndOf, Printable, Walk, WalkInside, WalkStop;
    PrintedIsStored(m, base, rs, |rs|, l, f);
    assert rs[..|rs|] == rs;
    SizedStore(Printed(m, base, rs, |rs|, l, f), base, EndOf(base, rs, |rs|, l, f), rs, l, f, Reported);
    StoredWalk(StoreOf(m, base, rs, l, f), base, l.storeHeader, EndOf(base, rs, |rs|, l, f), rs, l, f);
  }

  /** Every walk visits records that can be printed. */
  lemma {:induction false} WalkIsPrintable(m: seq<byte>, base: nat, p: nat, end: nat, l: Layout, f: Format)
    requires l.Valid() && f.Valid() && WalkInside(m, base, p, end, l, f)
    ensures AllPrintable(Walk(m, base, p, end, l, f))
    decreases end - p
  {
    hide Printable, RecordAt, GetNextVariablePtr, IsValidVariableHeader;
    if p < end && IsValidVariableHeader(m, p) {
      RecordIsPrintable(m, p, l, f);
      WalkIsPrintable(m, base, GetNextVariablePtr(m, base, p, l, f), end, l, f);
    }
  }
}
