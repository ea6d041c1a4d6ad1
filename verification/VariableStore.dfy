/**
 The variable store: how a record is laid out in a byte buffer and how the driver walks it.
 A buffer m stands for the memory from address base on, so the byte at address base + i is m[i],
 and every position below is an index into m. Records are aligned on addresses, not on positions.
 */
module VariableStore {
  import opened Bytes

  /** Where one kind of variable header keeps its fields. StartId, State, Reserved and Attributes
      are at 0, 2, 3 and 4 in both kinds. */
  datatype Format = Format(headerSize: nat, nameSizeAt: nat, dataSizeAt: nat, guidAt: nat) {
    predicate Valid() {
      && 8 <= nameSizeAt
      && nameSizeAt + 4 <= dataSizeAt
      && dataSizeAt + 4 <= guidAt
      && guidAt + 16 <= headerSize
    }
  }

  /** What the variable format header defines: HEADER_ALIGNMENT, the ALIGNMENT of GET_PAD_SIZE, the
      size of the store header, and the authenticated and normal variable headers. */
  datatype Layout = Layout(align: nat, padTo: nat, storeHeader: nat, auth: Format, normal: Format) {
    predicate Valid() {
      align > 0 && padTo > 0 && storeHeader >= STORE_STATE_AT + 1 && auth.Valid() && normal.Valid()
    }
  }

  const STORE_SIZE_AT: nat := 16
  const STORE_FORMAT_AT: nat := 20
  const STORE_STATE_AT: nat := 21

  const VAR_ADDED: byte := 0x3F
  const STATE_ALL_ONES: byte := 0xFF

  /** VARIABLE_DATA, 0x55AA, as stored. */
  const VARIABLE_DATA: seq<byte> := [0xAA, 0x55]

  /** A record as a walk sees it: its header fields and the name and data it occupies. */
  datatype Record = Record(
    state: byte, reserved: byte, attributes: nat, nameSize: nat, dataSize: nat,
    guid: seq<byte>, name: seq<byte>, data: seq<byte>)
  {
    predicate Sized() {
      |name| == nameSize && |data| == dataSize
    }

    /** A field is all ones, so that the sizes of the record read as 0. */
    predicate AllOnes() {
      state == STATE_ALL_ONES || dataSize == ALL_ONES_32 || nameSize == ALL_ONES_32 || attributes == ALL_ONES_32
    }

    /** The record as the driver reads it, if its name and data are those that its size fields count. */
    function Shown(): Record {
      if AllOnes() then this.(name := [], data := []) else this
    }
  }

  /** GET_PAD_SIZE. */
  function Pad(n: nat, padTo: nat): nat
    requires padTo > 0
  {
    (padTo - n % padTo) % padTo
  }

  /** The padding is the least that makes the size a multiple. */
  lemma PadIsLeast(n: nat, padTo: nat)
    requires padTo > 0
    ensures Pad(n, padTo) < padTo && (n + Pad(n, padTo)) % padTo == 0
  {
    var q, r := n / padTo, n % padTo;
    assert n == padTo * q + r;
    if r == 0 {
      DivModUnique(padTo, padTo, 1, 0);
    } else {
      DivModUnique(padTo - r, padTo, 0, padTo - r);
      DivModUnique(n + (padTo - r), padTo, q + 1, 0);
    }
  }

  lemma PadOfNothing(padTo: nat)
    requires padTo > 0
    ensures Pad(0, padTo) == 0
  {
    MultipleMod(0, padTo);
    MultipleMod(1, padTo);
  }

  /** HEADER_ALIGN of the address at position p, as a position. */
  function AlignedAt(base: nat, p: nat, align: nat): (r: nat)
    requires align > 0
    ensures p <= r < p + align
    ensures (base + r) % align == 0
  {
    AlignUp(base + p, align) - base
  }

  function Field32(m: seq<byte>, at: nat): (n: nat)
    requires at + 4 <= |m|
    ensures n <= ALL_ONES_32
  {
    Le32(Sub(m, at, 4))
  }

  /** The test in NameSizeOfVariable and DataSizeOfVariable that makes both return 0. */
  predicate HasAllOnesField(m: seq<byte>, p: nat, f: Format)
    requires f.Valid() && p + f.headerSize <= |m|
  {
    || m[p + 2] == STATE_ALL_ONES
    || Field32(m, p + f.dataSizeAt) == ALL_ONES_32
    || Field32(m, p + f.nameSizeAt) == ALL_ONES_32
    || Field32(m, p + 4) == ALL_ONES_32
  }

  function NameSizeOfVariable(m: seq<byte>, p: nat, f: Format): nat
    requires f.Valid() && p + f.headerSize <= |m|
  {
    if HasAllOnesField(m, p, f) then 0 else Field32(m, p + f.nameSizeAt)
  }

  function DataSizeOfVariable(m: seq<byte>, p: nat, f: Format): nat
    requires f.Valid() && p + f.headerSize <= |m|
  {
    if HasAllOnesField(m, p, f) then 0 else Field32(m, p + f.dataSizeAt)
  }

  /** Where the data of a record with this name size starts, counted from its header. */
  function DataOffset(f: Format, padTo: nat, nameSize: nat): nat
    requires padTo > 0
  {
    f.headerSize + nameSize + Pad(nameSize, padTo)
  }

  /** The bytes a record takes with its padding. */
  function Extent(f: Format, padTo: nat, nameSize: nat, dataSize: nat): nat
    requires padTo > 0
  {
    DataOffset(f, padTo, nameSize) + dataSize + Pad(dataSize, padTo)
  }

  function GetVariableDataPtr(m: seq<byte>, p: nat, l: Layout, f: Format): nat
    requires l.Valid() && f.Valid() && p + f.headerSize <= |m|
  {
    p + DataOffset(f, l.padTo, NameSizeOfVariable(m, p, f))
  }

  /** The end of the record at p, before the alignment of the next header. */
  function RecordEnd(m: seq<byte>, p: nat, l: Layout, f: Format): (e: nat)
    requires l.Valid() && f.Valid() && p + f.headerSize <= |m|
    ensures e > p
  {
    p + Extent(f, l.padTo, NameSizeOfVariable(m, p, f), DataSizeOfVariable(m, p, f))
  }

  function GetNextVariablePtr(m: seq<byte>, base: nat, p: nat, l: Layout, f: Format): (next: nat)
    requires l.Valid() && f.Valid() && p + f.headerSize <= |m|
    ensures next > p
  {
    AlignedAt(base, RecordEnd(m, p, l, f), l.align)
  }

  /** The record at p, with its name and data, lies inside the buffer. */
  predicate Fits(m: seq<byte>, p: nat, l: Layout, f: Format)
    requires l.Valid() && f.Valid()
  {
    p + f.headerSize <= |m| && RecordEnd(m, p, l, f) <= |m|
  }

  predicate IsValidVariableHeader(m: seq<byte>, p: nat)
    requires p + 2 <= |m|
  {
    Sub(m, p, 2) == VARIABLE_DATA
  }

  function RecordAt(m: seq<byte>, p: nat, l: Layout, f: Format): Record
    requires l.Valid() && f.Valid() && Fits(m, p, l, f)
  {
    Record(
      m[p + 2], m[p + 3], Field32(m, p + 4),
      Field32(m, p + f.nameSizeAt), Field32(m, p + f.dataSizeAt),
      Sub(m, p + f.guidAt, 16),
      Sub(m, p + f.headerSize, NameSizeOfVariable(m, p, f)),
      Sub(m, GetVariableDataPtr(m, p, l, f), DataSizeOfVariable(m, p, f)))
  }

  /** The walk from p up to end never leaves the buffer. */
  ghost predicate WalkInside(m: seq<byte>, base: nat, p: nat, end: nat, l: Layout, f: Format)
    requires l.Valid() && f.Valid()
    decreases end - p
  {
    p >= end ||
    (p + 2 <= |m| &&
     (IsValidVariableHeader(m, p) ==>
        Fits(m, p, l, f) && WalkInside(m, base, GetNextVariablePtr(m, base, p, l, f), end, l, f)))
  }

  /** The records every walk loop of the driver visits, in order. */
  ghost function Walk(m: seq<byte>, base: nat, p: nat, end: nat, l: Layout, f: Format): seq<Record>
    requires l.Valid() && f.Valid() && WalkInside(m, base, p, end, l, f)
    decreases end - p
  {
    if p >= end || !IsValidVariableHeader(m, p) then []
    else [RecordAt(m, p, l, f)] + Walk(m, base, GetNextVariablePtr(m, base, p, l, f), end, l, f)
  }

  /** The position at which that walk stops. */
  ghost function WalkStop(m: seq<byte>, base: nat, p: nat, end: nat, l: Layout, f: Format): nat
    requires l.Valid() && f.Valid() && WalkInside(m, base, p, end, l, f)
    decreases end - p
  {
    if p >= end || !IsValidVariableHeader(m, p) then p
    else WalkStop(m, base, GetNextVariablePtr(m, base, p, l, f), end, l, f)
  }

  /** One turn of a walk loop. */
  lemma WalkTurn(m: seq<byte>, base: nat, p: nat, end: nat, l: Layout, f: Format)
    requires l.Valid() && f.Valid() && WalkInside(m, base, p, end, l, f)
    requires p < end && IsValidVariableHeader(m, p)
    ensures Fits(m, p, l, f)
    ensures var next := GetNextVariablePtr(m, base, p, l, f);
            && WalkInside(m, base, next, end, l, f)
            && Walk(m, base, p, end, l, f) == [RecordAt(m, p, l, f)] + Walk(m, base, next, end, l, f)
            && WalkStop(m, base, p, end, l, f) == WalkStop(m, base, next, end, l, f)
    ensures var rec := RecordAt(m, p, l, f);
            && rec.state == m[p + 2]
            && rec.nameSize == Field32(m, p + f.nameSizeAt)
            && rec.dataSize == Field32(m, p + f.dataSizeAt)
  {
    hide Pad, AlignedAt, HasAllOnesField, Field32, Sub;
  }

  function StoreSize(m: seq<byte>): nat
    requires |m| >= STORE_STATE_AT + 1
  {
    Field32(m, STORE_SIZE_AT)
  }

  function GetStartPointer(base: nat, l: Layout): nat
    requires l.Valid()
  {
    AlignedAt(base, l.storeHeader, l.align)
  }

  function GetEndPointer(m: seq<byte>, base: nat, l: Layout): nat
    requires l.Valid() && |m| >= l.storeHeader
  {
    AlignedAt(base, StoreSize(m), l.align)
  }

  /** The buffer holds a store header, and walking the store stays inside the buffer. */
  ghost predicate IsStore(m: seq<byte>, base: nat, l: Layout, f: Format)
    requires l.Valid() && f.Valid()
  {
    && |m| >= l.storeHeader
    && WalkInside(m, base, GetStartPointer(base, l), GetEndPointer(m, base, l), l, f)
  }

  ghost function Records(m: seq<byte>, base: nat, l: Layout, f: Format): seq<Record>
    requires l.Valid() && f.Valid() && IsStore(m, base, l, f)
  {
    Walk(m, base, GetStartPointer(base, l), GetEndPointer(m, base, l), l, f)
  }

  /** A walk that no invalid header cuts short: it stops exactly at the end pointer. */
  ghost predicate EndsAtEnd(m: seq<byte>, base: nat, l: Layout, f: Format)
    requires l.Valid() && f.Valid() && IsStore(m, base, l, f)
  {
    WalkStop(m, base, GetStartPointer(base, l), GetEndPointer(m, base, l), l, f) == GetEndPointer(m, base, l)
  }

  // ---- A record depends only on its own bytes ----

  lemma SameField32(m: seq<byte>, p: nat, m': seq<byte>, p': nat, n: nat, at: nat)
    requires SameSpan(m, p, m', p', n) && at + 4 <= n
    ensures Field32(m, p + at) == Field32(m', p' + at)
  {
    SubSpan(m, p, m', p', n, at, 4);
  }

  lemma SameByte<T>(m: seq<T>, p: nat, m': seq<T>, p': nat, n: nat, at: nat)
    requires SameSpan(m, p, m', p', n) && at < n
    ensures m[p + at] == m'[p' + at]
  {
    assert m[p + at] == Sub(m, p, n)[at];
    assert m'[p' + at] == Sub(m', p', n)[at];
  }

  /** Equal header bytes give equal fields and sizes. */
  lemma SameHeader(m: seq<byte>, p: nat, m': seq<byte>, p': nat, f: Format)
    requires f.Valid() && SameSpan(m, p, m', p', f.headerSize)
    ensures m[p + 2] == m'[p' + 2] && m[p + 3] == m'[p' + 3]
    ensures Field32(m, p + 4) == Field32(m', p' + 4)
    ensures Field32(m, p + f.nameSizeAt) == Field32(m', p' + f.nameSizeAt)
    ensures Field32(m, p + f.dataSizeAt) == Field32(m', p' + f.dataSizeAt)
    ensures Sub(m, p + f.guidAt, 16) == Sub(m', p' + f.guidAt, 16)
    ensures Sub(m, p, 2) == Sub(m', p', 2)
  {
    hide Field32, Sub;
    SameByte(m, p, m', p', f.headerSize, 2);
    SameByte(m, p, m', p', f.headerSize, 3);
    SameField32(m, p, m', p', f.headerSize, 4);
    SameField32(m, p, m', p', f.headerSize, f.nameSizeAt);
    SameField32(m, p, m', p', f.headerSize, f.dataSizeAt);
    SubSpan(m, p, m', p', f.headerSize, f.guidAt, 16);
    SubSpan(m, p, m', p', f.headerSize, 0, 2);
  }

  lemma SameSizes(m: seq<byte>, p: nat, m': seq<byte>, p': nat, f: Format)
    requires f.Valid() && SameSpan(m, p, m', p', f.headerSize)
    ensures NameSizeOfVariable(m, p, f) == NameSizeOfVariable(m', p', f)
    ensures DataSizeOfVariable(m, p, f) == DataSizeOfVariable(m', p', f)
    ensures IsValidVariableHeader(m, p) == IsValidVariableHeader(m', p')
  {
    hide Field32, Sub;
    SameHeader(m, p, m', p', f);
  }

  /** Equal bytes over a whole record give equal records. */
  lemma SameRecord(m: seq<byte>, p: nat, m': seq<byte>, p': nat, l: Layout, f: Format)
    requires l.Valid() && f.Valid() && Fits(m, p, l, f)
    requires SameSpan(m, p, m', p', RecordEnd(m, p, l, f) - p)
    ensures Fits(m', p', l, f) && RecordAt(m, p, l, f) == RecordAt(m', p', l, f)
    ensures RecordEnd(m', p', l, f) - p' == RecordEnd(m, p, l, f) - p
    ensures IsValidVariableHeader(m, p) == IsValidVariableHeader(m', p')
  {
    hide Pad, NameSizeOfVariable, DataSizeOfVariable, HasAllOnesField, Field32, Sub;
    var n := RecordEnd(m, p, l, f) - p;
    SubSpan(m, p, m', p', n, 0, f.headerSize);
    SameHeader(m, p, m', p', f);
    SameSizes(m, p, m', p', f);
    var nameSize, dataSize := NameSizeOfVariable(m, p, f), DataSizeOfVariable(m, p, f);
    SubSpan(m, p, m', p', n, f.headerSize, nameSize);
    SubSpan(m, p, m', p', n, DataOffset(f, l.padTo, nameSize), dataSize);
  }
}
