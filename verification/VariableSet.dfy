/** SetVariableToHob: changing the attributes and the data of one record in place. */
module VariableSet {
  import opened Bytes
  import opened VariableStore
  import opened VariableConvert
  import opened VariableAccess

  // ---- The bytes of a set ----

  function WithAttributes(m: seq<byte>, p: nat, attributes: Option<nat>): (m1: seq<byte>)
    requires p + 8 <= |m| && (attributes.Some? ==> attributes.value <= ALL_ONES_32)
    ensures |m1| == |m|
  {
    if attributes.Some? then Patch(m, p + 4, ToLe32(attributes.value)) else m
  }

  /** Storing attributes changes no other field of the header. */
  lemma NewAttributesFields(m: seq<byte>, p: nat, attributes: Option<nat>, f: Format)
    requires f.Valid() && p + f.headerSize <= |m|
    requires attributes.Some? ==> attributes.value <= ALL_ONES_32
    ensures var m1 := WithAttributes(m, p, attributes);
            && m1[p + 2] == m[p + 2] && m1[p + 3] == m[p + 3]
            && IsValidVariableHeader(m1, p) == IsValidVariableHeader(m, p)
            && Field32(m1, p + 4) == (if attributes.Some? then attributes.value else Field32(m, p + 4))
            && Field32(m1, p + f.nameSizeAt) == Field32(m, p + f.nameSizeAt)
            && Field32(m1, p + f.dataSizeAt) == Field32(m, p + f.dataSizeAt)
            && Sub(m1, p + f.guidAt, 16) == Sub(m, p + f.guidAt, 16)
            && Sub(m1, 0, p) == Sub(m, 0, p)
            && Sub(m1, p + f.headerSize, |m| - p - f.headerSize) == Sub(m, p + f.headerSize, |m| - p - f.headerSize)
  {
    hide ToLe32, Le32, Patch, Sub;
    if attributes.Some? {
      var s := ToLe32(attributes.value);
      var m1 := Patch(m, p + 4, s);
      PatchReads(m, p + 4, s);
      PatchKeeps(m, p + 4, s, p, 4);
      SameByte(m, p, m1, p, 4, 2);
      SameByte(m, p, m1, p, 4, 3);
      SubSpan(m, p, m1, p, 4, 0, 2);
      PatchKeeps(m, p + 4, s, p + f.nameSizeAt, 4);
      PatchKeeps(m, p + 4, s, p + f.dataSizeAt, 4);
      PatchKeeps(m, p + 4, s, p + f.guidAt, 16);
      PatchKeeps(m, p + 4, s, 0, p);
      PatchKeeps(m, p + 4, s, p + f.headerSize, |m| - p - f.headerSize);
    }
  }

  /** With these attributes a field of the record is all ones, so that its sizes read as 0. */
  predicate AllOnesWith(m: seq<byte>, p: nat, attributes: Option<nat>, f: Format)
    requires f.Valid() && p + f.headerSize <= |m|
  {
    || m[p + 2] == STATE_ALL_ONES
    || Field32(m, p + f.dataSizeAt) == ALL_ONES_32
    || Field32(m, p + f.nameSizeAt) == ALL_ONES_32
    || (if attributes.Some? then attributes.value else Field32(m, p + 4)) == ALL_ONES_32
  }

  /** The sizes of the record read the same with these attributes. */
  predicate SizesStay(m: seq<byte>, p: nat, attributes: Option<nat>, f: Format)
    requires f.Valid() && p + f.headerSize <= |m|
  {
    || AllOnesWith(m, p, attributes, f) == HasAllOnesField(m, p, f)
    || (Field32(m, p + f.nameSizeAt) == 0 && Field32(m, p + f.dataSizeAt) == 0)
  }

  /** The sizes that the record reads as once the attributes are stored. */
  lemma NewSizes(m: seq<byte>, p: nat, attributes: Option<nat>, f: Format)
    requires f.Valid() && p + f.headerSize <= |m|
    requires attributes.Some? ==> attributes.value <= ALL_ONES_32
    ensures var m1 := WithAttributes(m, p, attributes);
            && HasAllOnesField(m1, p, f) == AllOnesWith(m, p, attributes, f)
            && NameSizeOfVariable(m1, p, f) == (if AllOnesWith(m, p, attributes, f) then 0 else Field32(m, p + f.nameSizeAt))
            && DataSizeOfVariable(m1, p, f) == (if AllOnesWith(m, p, attributes, f) then 0 else Field32(m, p + f.dataSizeAt))
            && (SizesStay(m, p, attributes, f) <==>
                  NameSizeOfVariable(m1, p, f) == NameSizeOfVariable(m, p, f)
                  && DataSizeOfVariable(m1, p, f) == DataSizeOfVariable(m, p, f))
  {
    hide Field32, Sub, WithAttributes, IsValidVariableHeader;
    NewAttributesFields(m, p, attributes, f);
  }

  /** The data that a set stores lies inside the record as it was, even if its name now reads as empty. */
  lemma DataInside(m: seq<byte>, p: nat, attributes: Option<nat>, l: Layout, f: Format)
    requires l.Valid() && f.Valid() && Fits(m, p, l, f) && DataSizeOfVariable(m, p, f) > 0
    requires attributes.Some? ==> attributes.value <= ALL_ONES_32
    ensures var m1 := WithAttributes(m, p, attributes);
            p + f.headerSize <= GetVariableDataPtr(m1, p, l, f)
            && GetVariableDataPtr(m1, p, l, f) + DataSizeOfVariable(m, p, f) <= RecordEnd(m, p, l, f)
  {
    hide Pad, Field32, Sub, WithAttributes, IsValidVariableHeader;
    NewSizes(m, p, attributes, f);
    PadOfNothing(l.padTo);
  }

  /** The buffer after the two stores of a set: the attributes first, then the data at the place the
      header then gives. */
  function AfterSet(m: seq<byte>, p: nat, attributes: Option<nat>, data: seq<byte>, l: Layout, f: Format): (m': seq<byte>)
    requires l.Valid() && f.Valid() && Fits(m, p, l, f)
    requires |data| == DataSizeOfVariable(m, p, f)
    requires attributes.Some? ==> attributes.value <= ALL_ONES_32
    ensures |m'| == |m|
  {
    var m1 := WithAttributes(m, p, attributes);
    if |data| == 0 then m1
    else
      DataInside(m, p, attributes, l, f);
      Patch(m1, GetVariableDataPtr(m1, p, l, f), data)
  }

  function NewAttributes(r: Record, attributes: Option<nat>): nat {
    if attributes.Some? then attributes.value else r.attributes
  }

  /** Whatever a set does to the sizes: the other header fields stay, and so does every byte before the
      record and behind its end. */
  lemma AfterSetFields(m: seq<byte>, p: nat, attributes: Option<nat>, data: seq<byte>, l: Layout, f: Format)
    requires l.Valid() && f.Valid() && Fits(m, p, l, f) && |data| == DataSizeOfVariable(m, p, f)
    requires attributes.Some? ==> attributes.value <= ALL_ONES_32
    ensures var m', e := AfterSet(m, p, attributes, data, l, f), RecordEnd(m, p, l, f);
            && SameSpan(m', p, WithAttributes(m, p, attributes), p, f.headerSize)
            && Sub(m', 0, p) == Sub(m, 0, p) && SameSpan(m, e, m', e, |m| - e)
  {
    hide Pad, Field32, Sub, WithAttributes, Patch, HasAllOnesField, NameSizeOfVariable, DataSizeOfVariable, IsValidVariableHeader;
    var m1 := WithAttributes(m, p, attributes);
    NewAttributesFields(m, p, attributes, f);
    var rest, e := p + f.headerSize, RecordEnd(m, p, l, f);
    SubSpan(m, rest, m1, rest, |m| - rest, e - rest, |m| - e);
    if |data| > 0 {
      DataInside(m, p, attributes, l, f);
      var at := GetVariableDataPtr(m1, p, l, f);
      PatchKeeps(m1, at, data, p, f.headerSize);
      PatchKeeps(m1, at, data, 0, p);
      PatchKeeps(m1, at, data, e, |m| - e);
    }
  }

  /** The header after a set: sizes, attributes, and what they make of the record. */
  lemma AfterSetHeader(m: seq<byte>, p: nat, attributes: Option<nat>, data: seq<byte>, l: Layout, f: Format)
    requires l.Valid() && f.Valid() && Fits(m, p, l, f) && |data| == DataSizeOfVariable(m, p, f)
    requires attributes.Some? ==> attributes.value <= ALL_ONES_32
    ensures var m', ones := AfterSet(m, p, attributes, data, l, f), AllOnesWith(m, p, attributes, f);
            && IsValidVariableHeader(m', p) == IsValidVariableHeader(m, p)
            && m'[p + 2] == m[p + 2] && m'[p + 3] == m[p + 3]
            && Field32(m', p + 4) == (if attributes.Some? then attributes.value else Field32(m, p + 4))
            && Field32(m', p + f.nameSizeAt) == Field32(m, p + f.nameSizeAt)
            && Field32(m', p + f.dataSizeAt) == Field32(m, p + f.dataSizeAt)
            && Sub(m', p + f.guidAt, 16) == Sub(m, p + f.guidAt, 16)
            && NameSizeOfVariable(m', p, f) == (if ones then 0 else Field32(m, p + f.nameSizeAt))
            && DataSizeOfVariable(m', p, f) == (if ones then 0 else Field32(m, p + f.dataSizeAt))
  {
    hide Pad, Field32, Sub, WithAttributes, AfterSet, HasAllOnesField, NameSizeOfVariable, DataSizeOfVariable,
         IsValidVariableHeader, AllOnesWith, SizesStay;
    var m', m1 := AfterSet(m, p, attributes, data, l, f), WithAttributes(m, p, attributes);
    AfterSetFields(m, p, attributes, data, l, f);
    NewAttributesFields(m, p, attributes, f);
    NewSizes(m, p, attributes, f);
    SameHeader(m', p, m1, p, f);
    SameSizes(m', p, m1, p, f);
  }

  /** A set that leaves the sizes rewrites exactly the attributes and the data of its record. */
  lemma AfterSetRecord(m: seq<byte>, p: nat, attributes: Option<nat>, data: seq<byte>, l: Layout, f: Format)
    requires l.Valid() && f.Valid() && Fits(m, p, l, f) && |data| == DataSizeOfVariable(m, p, f)
    requires attributes.Some? ==> attributes.value <= ALL_ONES_32
    requires SizesStay(m, p, attributes, f)
    ensures var m', r := AfterSet(m, p, attributes, data, l, f), RecordAt(m, p, l, f);
            && Fits(m', p, l, f) && RecordEnd(m', p, l, f) == RecordEnd(m, p, l, f)
            && RecordAt(m', p, l, f) == r.(attributes := NewAttributes(r, attributes), data := data)
  {
    hide Pad, Field32, Sub, WithAttributes, Patch, HasAllOnesField, NameSizeOfVariable, DataSizeOfVariable,
         IsValidVariableHeader, AllOnesWith, SizesStay;
    var m', m1 := AfterSet(m, p, attributes, data, l, f), WithAttributes(m, p, attributes);
    AfterSetHeader(m, p, attributes, data, l, f);
    NewSizes(m, p, attributes, f);
    NewAttributesFields(m, p, attributes, f);
    AfterSetFields(m, p, attributes, data, l, f);
    SameSizes(m', p, m1, p, f);
    NameAndData(m, p, attributes, data, l, f);
  }

  lemma NameAndData(m: seq<byte>, p: nat, attributes: Option<nat>, data: seq<byte>, l: Layout, f: Format)
    requires l.Valid() && f.Valid() && Fits(m, p, l, f) && |data| == DataSizeOfVariable(m, p, f)
    requires attributes.Some? ==> attributes.value <= ALL_ONES_32
    requires SizesStay(m, p, attributes, f)
    ensures var m', nameSize := AfterSet(m, p, attributes, data, l, f), NameSizeOfVariable(m, p, f);
            && Sub(m', p + f.headerSize, nameSize) == Sub(m, p + f.headerSize, nameSize)
            && Sub(m', GetVariableDataPtr(m, p, l, f), |data|) == data
  {
    hide Pad, Field32, Sub, WithAttributes, Patch, HasAllOnesField, NameSizeOfVariable, DataSizeOfVariable,
         IsValidVariableHeader, AllOnesWith, SizesStay;
    var m1, nameSize := WithAttributes(m, p, attributes), NameSizeOfVariable(m, p, f);
    NewSizes(m, p, attributes, f);
    NewAttributesFields(m, p, attributes, f);
    var rest := p + f.headerSize;
    SubSpan(m, rest, m1, rest, |m| - rest, 0, nameSize);
    var at := GetVariableDataPtr(m, p, l, f);
    if |data| > 0 {
      PatchReads(m1, at, data);
      PatchKeeps(m1, at, data, rest, nameSize);
    } else {
      NoBytes(AfterSet(m, p, attributes, data, l, f), at, data);
    }
  }

  lemma NoBytes(m: seq<byte>, at: nat, data: seq<byte>)
    requires at <= |m| && |data| == 0
    ensures Sub(m, at, 0) == data
  {
  }

  // ---- Reading back ----

  /** Attributes that were all ones are no longer, and the sizes they hid come back. */
  predicate Reappears(m: seq<byte>, p: nat, attributes: Option<nat>, f: Format)
    requires f.Valid() && p + f.headerSize <= |m|
  {
    HasAllOnesField(m, p, f) && !AllOnesWith(m, p, attributes, f)
  }

  /** Bytes before the record that a search finds decide that the search gets there. */
  lemma {:induction false} FindsAgain(
    m: seq<byte>, m': seq<byte>, base: nat, q: nat, end: nat, l: Layout, f: Format, name: seq<byte>, guid: seq<byte>, p: nat)
    requires l.Valid() && f.Valid() && Finds(m, base, q, end, l, f, name, guid, p)
    requires p <= |m| == |m'| && Sub(m', 0, p) == Sub(m, 0, p)
    ensures Finds(m', base, q, end, l, f, name, guid, p)
       <==> p + 2 <= |m'| && IsValidVariableHeader(m', p) && Fits(m', p, l, f) && Matches(RecordAt(m', p, l, f), name, guid)
    decreases end - q
  {
    hide RecordAt, Matches, IsValidVariableHeader, RecordEnd, AlignedAt, Sub;
    FindsOne(m, base, q, end, l, f, name, guid, p);
    if q == p {
      if p + 2 <= |m'| && IsValidVariableHeader(m', p) && Fits(m', p, l, f) && !Matches(RecordAt(m', p, l, f), name, guid)
         && Finds(m', base, q, end, l, f, name, guid, p) {
        FindsOne(m', base, GetNextVariablePtr(m', base, p, l, f), end, l, f, name, guid, p);
        assert false;
      }
    } else {
      var e, next := RecordEnd(m, q, l, f), GetNextVariablePtr(m, base, q, l, f);
      assert e <= next <= p;
      SubSpan(m, 0, m', 0, p, q, e - q);
      SameRecord(m, q, m', q, l, f);
      FindsAgain(m, m', base, next, end, l, f, name, guid, p);
    }
  }

  /** A search with this name and vendor finds the record at p, and a read of it returns these. */
  ghost predicate ReadsBack(
    m: seq<byte>, base: nat, p: nat, l: Layout, f: Format, name: seq<byte>, guid: seq<byte>, attributes: nat, data: seq<byte>)
    requires l.Valid() && f.Valid() && |m| >= l.storeHeader
  {
    && FindsAt(m, base, l, f, name, guid, p) && Fits(m, p, l, f)
    && RecordAt(m, p, l, f).attributes == attributes && RecordAt(m, p, l, f).data == data
  }

  /** What a caller can check before a set to know that it will read back: attributes of all ones hide data
      that is not empty, and attributes that end a hiding bring back sizes and name that were not set. */
  predicate ReadsBackWhen(
    m: seq<byte>, p: nat, l: Layout, f: Format, name: seq<byte>, attributes: Option<nat>, data: seq<byte>)
    requires l.Valid() && f.Valid() && p + f.headerSize <= |m|
  {
    var nameSize := Field32(m, p + f.nameSizeAt);
    if AllOnesWith(m, p, attributes, f) then |data| == 0
    else if Reappears(m, p, attributes, f) then
      && Field32(m, p + f.dataSizeAt) == 0
      && p + Extent(f, l.padTo, nameSize, 0) <= |m|
      && Sub(m, p + f.headerSize, nameSize) <= name
    else true
  }

  lemma SameStart(m: seq<byte>, m': seq<byte>, base: nat, p: nat, l: Layout)
    requires l.Valid() && l.storeHeader <= p <= |m| == |m'| && Sub(m', 0, p) == Sub(m, 0, p)
    ensures GetEndPointer(m', base, l) == GetEndPointer(m, base, l)
  {
    SubSpan(m, 0, m', 0, p, STORE_SIZE_AT, 4);
  }

  /** A record whose sizes a set hides is still found, and reads as empty. */
  lemma HiddenRecord(
    m: seq<byte>, p: nat, l: Layout, f: Format, name: seq<byte>, guid: seq<byte>, attributes: Option<nat>, data: seq<byte>)
    requires l.Valid() && f.Valid() && Fits(m, p, l, f) && |data| == DataSizeOfVariable(m, p, f)
    requires attributes.Some? ==> attributes.value <= ALL_ONES_32
    requires AllOnesWith(m, p, attributes, f) && Matches(RecordAt(m, p, l, f), name, guid)
    ensures var m' := AfterSet(m, p, attributes, data, l, f);
            && Fits(m', p, l, f) && Matches(RecordAt(m', p, l, f), name, guid) && RecordAt(m', p, l, f).data == []
  {
    hide Pad, Field32, Sub, WithAttributes, AfterSet, HasAllOnesField, NameSizeOfVariable, DataSizeOfVariable,
         IsValidVariableHeader, AllOnesWith;
    AfterSetHeader(m, p, attributes, data, l, f);
    PadOfNothing(l.padTo);
    MatchTest(m, p, l, f, name, guid);
    var m' := AfterSet(m, p, attributes, data, l, f);
    NoBytes(m', p + f.headerSize, []);
    MatchTest(m', p, l, f, name, guid);
  }

  /** A record whose sizes come back is found and reads as empty exactly under these conditions. */
  lemma ReappearedRecord(
    m: seq<byte>, p: nat, l: Layout, f: Format, name: seq<byte>, guid: seq<byte>, attributes: Option<nat>, data: seq<byte>)
    requires l.Valid() && f.Valid() && Fits(m, p, l, f) && |data| == DataSizeOfVariable(m, p, f)
    requires attributes.Some? ==> attributes.value <= ALL_ONES_32
    requires Reappears(m, p, attributes, f) && Matches(RecordAt(m, p, l, f), name, guid)
    ensures var m' := AfterSet(m, p, attributes, data, l, f);
            Fits(m', p, l, f) && Matches(RecordAt(m', p, l, f), name, guid) && RecordAt(m', p, l, f).data == data
            <==> ReadsBackWhen(m, p, l, f, name, attributes, data)
  {
    hide Pad, Field32, Sub, WithAttributes, HasAllOnesField, NameSizeOfVariable, DataSizeOfVariable,
         IsValidVariableHeader, AllOnesWith;
    NothingHidden(m, p, f);
    AfterSetHeader(m, p, attributes, data, l, f);
    PadOfNothing(l.padTo);
    MatchTest(m, p, l, f, name, guid);
    var m' := AfterSet(m, p, attributes, data, l, f);
    var nameSize, rest := Field32(m, p + f.nameSizeAt), p + f.headerSize;
    if Fits(m', p, l, f) {
      MatchTest(m', p, l, f, name, guid);
      RecordParts(m', p, l, f);
      NewAttributesFields(m, p, attributes, f);
      SubSpan(m, rest, m', rest, |m| - rest, 0, nameSize);
    }
  }

  lemma NothingHidden(m: seq<byte>, p: nat, f: Format)
    requires f.Valid() && p + f.headerSize <= |m| && HasAllOnesField(m, p, f)
    ensures NameSizeOfVariable(m, p, f) == 0 && DataSizeOfVariable(m, p, f) == 0
  {
  }

  /** For every record that a search finds, whatever its sizes read as: after a set the same search finds the
      record and a read returns what was set exactly under a condition that can be checked before. */
  lemma SetReadsBack(
    m: seq<byte>, base: nat, p: nat, l: Layout, f: Format, name: seq<byte>, guid: seq<byte>,
    attributes: Option<nat>, data: seq<byte>)
    requires l.Valid() && f.Valid() && |m| >= l.storeHeader && FindsAt(m, base, l, f, name, guid, p)
    requires Fits(m, p, l, f) && |data| == DataSizeOfVariable(m, p, f)
    requires attributes.Some? ==> attributes.value <= ALL_ONES_32
    ensures var m', new_ := AfterSet(m, p, attributes, data, l, f), NewAttributes(RecordAt(m, p, l, f), attributes);
            ReadsBack(m', base, p, l, f, name, guid, new_, data) <==> ReadsBackWhen(m, p, l, f, name, attributes, data)
  {
    hide Pad, Field32, Sub, WithAttributes, AfterSet, HasAllOnesField, NameSizeOfVariable, DataSizeOfVariable,
         IsValidVariableHeader, AllOnesWith, Finds, Matches, Extent;
    var m' := AfterSet(m, p, attributes, data, l, f);
    FindsOne(m, base, GetStartPointer(base, l), GetEndPointer(m, base, l), l, f, name, guid, p);
    AfterSetFields(m, p, attributes, data, l, f);
    AfterSetHeader(m, p, attributes, data, l, f);
    SameStart(m, m', base, p, l);
    FindsAgain(m, m', base, GetStartPointer(base, l), GetEndPointer(m, base, l), l, f, name, guid, p);
    if AllOnesWith(m, p, attributes, f) {
      HiddenRecord(m, p, l, f, name, guid, attributes, data);
    } else if HasAllOnesField(m, p, f) {
      ReappearedRecord(m, p, l, f, name, guid, attributes, data);
    } else {
      StaysWhenEqual(m, p, attributes, f);
      AfterSetRecord(m, p, attributes, data, l, f);
      SameMatch(RecordAt(m, p, l, f), attributes, data, name, guid);
    }
  }

  lemma StaysWhenEqual(m: seq<byte>, p: nat, attributes: Option<nat>, f: Format)
    requires f.Valid() && p + f.headerSize <= |m|
    requires AllOnesWith(m, p, attributes, f) == HasAllOnesField(m, p, f)
    ensures SizesStay(m, p, attributes, f)
  {
  }

  lemma SameMatch(r: Record, attributes: Option<nat>, data: seq<byte>, name: seq<byte>, guid: seq<byte>)
    ensures Matches(r.(attributes := NewAttributes(r, attributes), data := data), name, guid) == Matches(r, name, guid)
  {
  }

  // ---- Sets that do not read back ----

  /** A set of the record that a search finds succeeds, and a read does not return what was set. */
  ghost predicate SetIsLost(
    m: seq<byte>, base: nat, p: nat, l: Layout, f: Format, name: seq<byte>, guid: seq<byte>, attributes: nat, data: seq<byte>)
  {
    && l.Valid() && f.Valid() && |m| >= l.storeHeader && 0 < attributes <= ALL_ONES_32
    && FindsAt(m, base, l, f, name, guid, p) && Fits(m, p, l, f) && |data| == DataSizeOfVariable(m, p, f)
    && !ReadsBack(AfterSet(m, p, Some(attributes), data, l, f), base, p, l, f, name, guid, attributes, data)
  }

  const EXAMPLE_LAYOUT: Layout := Layout(4, 1, 28, Format(60, 36, 40, 44), Format(32, 8, 12, 16))
  const EXAMPLE_GUID: seq<byte> := seq(16, _ => 0)
  const EXAMPLE_NAME: seq<byte> := [0x41, 0]

  /** A store of 64 bytes with one added record: a name of two bytes, and one byte of data. */
  function ExampleStore(attributes: seq<byte>): (m: seq<byte>)
    requires |attributes| == 4
    ensures |m| == 64
  {
    seq(64, i => if 32 <= i < 36 then attributes[i - 32] else ExampleByte(i))
  }

  function ExampleByte(at: int): byte {
    match at
    case 16 => 64
    case 28 => 0xAA
    case 29 => 0x55
    case 30 => VAR_ADDED
    case 36 => 2
    case 40 => 1
    case 60 => 0x41
    case 62 => 0x5A
    case _ => 0
  }

  lemma ExampleFields(attributes: seq<byte>)
    requires |attributes| == 4
    ensures var m := ExampleStore(attributes);
            && StoreSize(m) == 64 && IsValidVariableHeader(m, 28) && m[30] == VAR_ADDED
            && Field32(m, 32) == Le32(attributes) && Field32(m, 36) == 2 && Field32(m, 40) == 1
            && Sub(m, 44, 16) == EXAMPLE_GUID && Sub(m, 60, 2) == EXAMPLE_NAME
  {
    var m := ExampleStore(attributes);
    assert Sub(m, 32, 4) == attributes;
    assert m[60] == ExampleByte(60) && m[61] == ExampleByte(61);
    assert Sub(m, 60, 2) == [m[60], m[61]];
  }

  lemma ExampleSizes(attributes: seq<byte>)
    requires |attributes| == 4
    ensures var m, l := ExampleStore(attributes), EXAMPLE_LAYOUT;
            var f, ones := l.normal, Le32(attributes) == ALL_ONES_32;
            && l.Valid() && f.Valid()
            && NameSizeOfVariable(m, 28, f) == (if ones then 0 else 2)
            && DataSizeOfVariable(m, 28, f) == (if ones then 0 else 1)
            && GetStartPointer(0, l) == 28 && GetEndPointer(m, 0, l) == 64 && Fits(m, 28, l, f)
  {
    hide ExampleStore, Field32, Sub, Le32, IsValidVariableHeader;
    ExampleFields(attributes);
  }

  lemma ExampleFound(attributes: seq<byte>)
    requires |attributes| == 4
    ensures var m, l := ExampleStore(attributes), EXAMPLE_LAYOUT;
            && l.Valid() && Fits(m, 28, l, l.normal)
            && FindsAt(m, 0, l, l.normal, EXAMPLE_NAME, EXAMPLE_GUID, 28)
            && DataSizeOfVariable(m, 28, l.normal) == (if Le32(attributes) == ALL_ONES_32 then 0 else 1)
  {
    hide ExampleStore, Field32, Sub, Le32, RecordAt, Matches, NameSizeOfVariable, DataSizeOfVariable, GetStartPointer,
         GetEndPointer, Fits, IsValidVariableHeader;
    ExampleFields(attributes);
    ExampleSizes(attributes);
    var m, l := ExampleStore(attributes), EXAMPLE_LAYOUT;
    NoBytes(m, 60, []);
    MatchTest(m, 28, l, l.normal, EXAMPLE_NAME, EXAMPLE_GUID);
  }

  /** Attributes of all ones hide the byte set with them. Attributes 7 that replace all ones, set without data,
      bring back that byte. */
  lemma NotReadBack()
    ensures SetIsLost(
              ExampleStore([7, 0, 0, 0]), 0, 28, EXAMPLE_LAYOUT, EXAMPLE_LAYOUT.normal, EXAMPLE_NAME, EXAMPLE_GUID, ALL_ONES_32, [9])
    ensures SetIsLost(
              ExampleStore([0xFF, 0xFF, 0xFF, 0xFF]), 0, 28, EXAMPLE_LAYOUT, EXAMPLE_LAYOUT.normal, EXAMPLE_NAME, EXAMPLE_GUID, 7, [])
  {
    hide ExampleStore, Field32, Sub, FindsAt, AfterSet, ReadsBack, DataSizeOfVariable, Fits;
    var m, m', l := ExampleStore([7, 0, 0, 0]), ExampleStore([0xFF, 0xFF, 0xFF, 0xFF]), EXAMPLE_LAYOUT;
    ExampleFound([7, 0, 0, 0]);
    ExampleFound([0xFF, 0xFF, 0xFF, 0xFF]);
    ExampleFields([7, 0, 0, 0]);
    ExampleFields([0xFF, 0xFF, 0xFF, 0xFF]);
    SetReadsBack(m, 0, 28, l, l.normal, EXAMPLE_NAME, EXAMPLE_GUID, Some(ALL_ONES_32), [9]);
    SetReadsBack(m', 0, 28, l, l.normal, EXAMPLE_NAME, EXAMPLE_GUID, Some(7), []);
  }

  /** With all-ones attributes as such a set leaves them, the conversion makes a copy that the driver takes to end
      before its name: a walk of the result does not follow it. */
  lemma NotFollowed(m: seq<byte>, base: nat, e: nat)
    requires EXAMPLE_LAYOUT.Valid()
    requires var r := Record(VAR_ADDED, 0, ALL_ONES_32, 2, 1, EXAMPLE_GUID, EXAMPLE_NAME, [9]);
             Stored(m, base, EXAMPLE_LAYOUT.storeHeader, e, [r], EXAMPLE_LAYOUT, EXAMPLE_LAYOUT.normal, Raw)
    ensures var r := Record(VAR_ADDED, 0, ALL_ONES_32, 2, 1, EXAMPLE_GUID, EXAMPLE_NAME, [9]);
            !WalkFollows(m, base, EXAMPLE_LAYOUT.storeHeader, e, [r], EXAMPLE_LAYOUT, EXAMPLE_LAYOUT.normal)
  {
    hide Stored, WalkFollows, AlignUp;
    var l, r := EXAMPLE_LAYOUT, Record(VAR_ADDED, 0, ALL_ONES_32, 2, 1, EXAMPLE_GUID, EXAMPLE_NAME, [9]);
    FollowsExactlyWhen(m, base, l.storeHeader, e, [r], l, l.normal);
    AlignUnique(32, 4, 32);
    AlignUnique(35, 4, 36);
    assert [r][0] == r && !Tight(r, l, l.normal);
  }

  // ---- The other records ----

  /** The walk of m' is that of m with record k replaced by what is now at its position, and every record
      is where it was. */
  ghost predicate WalkKept(m: seq<byte>, m': seq<byte>, base: nat, p: nat, end: nat, l: Layout, f: Format, k: nat)
    requires l.Valid() && f.Valid() && WalkInside(m, base, p, end, l, f) && k < |Walk(m, base, p, end, l, f)|
  {
    var q := PositionOf(m, base, p, end, l, f, k);
    && WalkInside(m', base, p, end, l, f) && Fits(m', q, l, f)
    && Walk(m', base, p, end, l, f) == Walk(m, base, p, end, l, f)[k := RecordAt(m', q, l, f)]
    && SamePositions(m, m', base, p, end, l, f)
  }

  ghost predicate SamePositions(m: seq<byte>, m': seq<byte>, base: nat, p: nat, end: nat, l: Layout, f: Format)
    requires l.Valid() && f.Valid() && WalkInside(m, base, p, end, l, f) && WalkInside(m', base, p, end, l, f)
  {
    && |Walk(m, base, p, end, l, f)| == |Walk(m', base, p, end, l, f)|
    && forall j :: 0 <= j < |Walk(m, base, p, end, l, f)| ==>
         PositionOf(m', base, p, end, l, f, j) == PositionOf(m, base, p, end, l, f, j)
  }

  /** A walk that gets to p visits nothing from there on. */
  predicate Stops(m: seq<byte>, p: nat, end: nat) { p >= end || (p + 2 <= |m| && !IsValidVariableHeader(m, p)) }

  lemma {:induction false} SamePlaces(m: seq<byte>, m': seq<byte>, base: nat, p: nat, end: nat, l: Layout, f: Format)
    requires l.Valid() && f.Valid() && WalkInside(m, base, p, end, l, f) && |m| == |m'|
    requires p <= |m| ==> Sub(m, p, |m| - p) == Sub(m', p, |m| - p)
    ensures WalkInside(m', base, p, end, l, f) && Walk(m', base, p, end, l, f) == Walk(m, base, p, end, l, f)
    ensures SamePositions(m, m', base, p, end, l, f)
    decreases end - p
  {
    hide Pad, AlignedAt, RecordAt, Sub, RecordEnd, HasAllOnesField, IsValidVariableHeader;
    SameWalk(m, m', base, p, end, l, f);
    if Walk(m, base, p, end, l, f) != [] {
      var e, next := RecordEnd(m, p, l, f), GetNextVariablePtr(m, base, p, l, f);
      SubSpan(m, p, m', p, |m| - p, 0, e - p);
      SameRecord(m, p, m', p, l, f);
      if next <= |m| {
        SubSpan(m, p, m', p, |m| - p, next - p, |m| - next);
      }
      SamePlaces(m, m', base, next, end, l, f);
      PlacesFrom(m, m', base, p, end, l, f);
    }
  }

  /** The positions of two walks that both visit p agree if they agree behind it. */
  lemma PlacesFrom(m: seq<byte>, m': seq<byte>, base: nat, p: nat, end: nat, l: Layout, f: Format)
    requires l.Valid() && f.Valid() && WalkInside(m, base, p, end, l, f) && WalkInside(m', base, p, end, l, f)
    requires Walk(m, base, p, end, l, f) != [] && Walk(m', base, p, end, l, f) != []
    requires p + f.headerSize <= |m| && p + f.headerSize <= |m'|
    requires GetNextVariablePtr(m', base, p, l, f) == GetNextVariablePtr(m, base, p, l, f)
    ensures SamePositions(m, m', base, p, end, l, f)
       <==> SamePositions(m, m', base, GetNextVariablePtr(m, base, p, l, f), end, l, f)
  {
    hide Pad, AlignedAt, RecordAt, RecordEnd, IsValidVariableHeader;
    var next := GetNextVariablePtr(m, base, p, l, f);
    if SamePositions(m, m', base, p, end, l, f) {
      forall j: nat | j < |Walk(m, base, next, end, l, f)|
        ensures PositionOf(m', base, next, end, l, f, j) == PositionOf(m, base, next, end, l, f, j)
      {
        assert PositionOf(m', base, p, end, l, f, j + 1) == PositionOf(m, base, p, end, l, f, j + 1);
      }
    }
    if SamePositions(m, m', base, next, end, l, f) {
      forall j: nat | j < |Walk(m, base, p, end, l, f)|
        ensures PositionOf(m', base, p, end, l, f, j) == PositionOf(m, base, p, end, l, f, j)
      {
        if j > 0 {
          assert PositionOf(m', base, next, end, l, f, j - 1) == PositionOf(m, base, next, end, l, f, j - 1);
        }
      }
    }
  }

  lemma SecondStays(m: seq<byte>, m': seq<byte>, base: nat, p: nat, end: nat, l: Layout, f: Format)
    requires l.Valid() && f.Valid() && WalkInside(m, base, p, end, l, f) && WalkInside(m', base, p, end, l, f)
    requires |Walk(m, base, p, end, l, f)| > 1 && SamePositions(m, m', base, p, end, l, f)
    requires p + f.headerSize <= |m| && p + f.headerSize <= |m'|
    ensures GetNextVariablePtr(m', base, p, l, f) == GetNextVariablePtr(m, base, p, l, f)
  {
    hide Pad, AlignedAt, RecordAt, RecordEnd, IsValidVariableHeader;
    assert PositionOf(m', base, p, end, l, f, 1) == PositionOf(m, base, p, end, l, f, 1);
  }

  lemma OnlyRecord(m: seq<byte>, base: nat, p: nat, end: nat, l: Layout, f: Format)
    requires l.Valid() && f.Valid() && p < end && Fits(m, p, l, f) && IsValidVariableHeader(m, p)
    ensures Stops(m, GetNextVariablePtr(m, base, p, l, f), end)
       <==> WalkInside(m, base, p, end, l, f) && Walk(m, base, p, end, l, f) == [RecordAt(m, p, l, f)]
  {
    hide Pad, AlignedAt, RecordAt, RecordEnd, IsValidVariableHeader;
    var next := GetNextVariablePtr(m, base, p, l, f);
    if WalkInside(m, base, p, end, l, f) {
      assert Walk(m, base, p, end, l, f)[1..] == Walk(m, base, next, end, l, f);
    }
  }

  /** The record replaced is the first of the walk. */
  lemma ReplacedFirst(m: seq<byte>, m': seq<byte>, base: nat, p: nat, end: nat, l: Layout, f: Format)
    requires l.Valid() && f.Valid() && WalkInside(m, base, p, end, l, f) && |m| == |m'|
    requires Walk(m, base, p, end, l, f) != [] && Fits(m, p, l, f) && IsValidVariableHeader(m', p)
    requires var next := GetNextVariablePtr(m, base, p, l, f);
             next <= |m| ==> Sub(m, next, |m| - next) == Sub(m', next, |m| - next)
    ensures WalkKept(m, m', base, p, end, l, f, 0)
       <==> && Fits(m', p, l, f)
            && (GetNextVariablePtr(m', base, p, l, f) == GetNextVariablePtr(m, base, p, l, f)
                || (|Walk(m, base, p, end, l, f)| == 1 && Stops(m', GetNextVariablePtr(m', base, p, l, f), end)))
  {
    hide Pad, AlignedAt, RecordAt, Sub, RecordEnd, HasAllOnesField, IsValidVariableHeader;
    var next := GetNextVariablePtr(m, base, p, l, f);
    if Fits(m', p, l, f) {
      var next' := GetNextVariablePtr(m', base, p, l, f);
      var rs, rest := Walk(m, base, p, end, l, f), Walk(m, base, next, end, l, f);
      assert rs[1..] == rest;
      if next' == next {
        SamePlaces(m, m', base, next, end, l, f);
        PlacesFrom(m, m', base, p, end, l, f);
        assert Walk(m', base, p, end, l, f) == [RecordAt(m', p, l, f)] + rest;
      } else if |rs| > 1 {
        if WalkKept(m, m', base, p, end, l, f, 0) {
          SecondStays(m, m', base, p, end, l, f);
        }
      } else {
        OnlyRecord(m', base, p, end, l, f);
        assert rs[0 := RecordAt(m', p, l, f)] == [RecordAt(m', p, l, f)];
      }
    }
  }

  /** The record at p is before the one replaced, and is the same in both. */
  lemma ReplacedLater(m: seq<byte>, m': seq<byte>, base: nat, p: nat, end: nat, l: Layout, f: Format, k: nat)
    requires l.Valid() && f.Valid() && WalkInside(m, base, p, end, l, f)
    requires 0 < k < |Walk(m, base, p, end, l, f)|
    requires Fits(m, p, l, f) && Fits(m', p, l, f) && IsValidVariableHeader(m', p)
    requires RecordAt(m', p, l, f) == RecordAt(m, p, l, f)
    requires GetNextVariablePtr(m', base, p, l, f) == GetNextVariablePtr(m, base, p, l, f)
    ensures WalkKept(m, m', base, p, end, l, f, k)
       <==> WalkKept(m, m', base, GetNextVariablePtr(m, base, p, l, f), end, l, f, k - 1)
  {
    hide Pad, AlignedAt, RecordAt, RecordEnd, IsValidVariableHeader, SamePositions;
    var next := GetNextVariablePtr(m, base, p, l, f);
    var q := PositionOf(m, base, p, end, l, f, k);
    var rs, rest := Walk(m, base, p, end, l, f), Walk(m, base, next, end, l, f);
    assert rs == [rs[0]] + rest;
    if WalkInside(m', base, next, end, l, f) {
      PlacesFrom(m, m', base, p, end, l, f);
      var rest' := Walk(m', base, next, end, l, f);
      assert Walk(m', base, p, end, l, f) == [rs[0]] + rest';
      if Fits(m', q, l, f) {
        var r := RecordAt(m', q, l, f);
        assert rs[k := r] == [rs[0]] + rest[k - 1 := r];
        HeadAway(rs[0], rest', rest[k - 1 := r]);
      }
    }
  }

  lemma HeadAway(r: Record, a: seq<Record>, b: seq<Record>)
    ensures [r] + a == [r] + b <==> a == b
  {
    assert ([r] + a)[1..] == a && ([r] + b)[1..] == b;
  }

  /** Rewriting record k, with every byte before it and from the next record on unchanged, leaves all other
      records of the walk alone exactly if the pointer to the next record stays, or record k is the last one
      and the walk stops where the pointer now leads. */
  lemma {:induction false} ReplacedWalk(
    m: seq<byte>, m': seq<byte>, base: nat, p: nat, end: nat, l: Layout, f: Format, k: nat)
    requires l.Valid() && f.Valid() && WalkInside(m, base, p, end, l, f) && |m| == |m'|
    requires k < |Walk(m, base, p, end, l, f)|
    requires var q := PositionOf(m, base, p, end, l, f, k);
             && Fits(m, q, l, f) && IsValidVariableHeader(m', q) && Sub(m', 0, q) == Sub(m, 0, q)
             && var next := GetNextVariablePtr(m, base, q, l, f);
                next <= |m| ==> Sub(m, next, |m| - next) == Sub(m', next, |m| - next)
    ensures var q := PositionOf(m, base, p, end, l, f, k);
            WalkKept(m, m', base, p, end, l, f, k)
            <==> && Fits(m', q, l, f)
                 && (GetNextVariablePtr(m', base, q, l, f) == GetNextVariablePtr(m, base, q, l, f)
                     || (k == |Walk(m, base, p, end, l, f)| - 1 && Stops(m', GetNextVariablePtr(m', base, q, l, f), end)))
    decreases k
  {
    hide Pad, AlignedAt, RecordAt, Sub, RecordEnd, HasAllOnesField, IsValidVariableHeader, WalkKept, Stops;
    var q := PositionOf(m, base, p, end, l, f, k);
    if k == 0 {
      ReplacedFirst(m, m', base, p, end, l, f);
    } else {
      PositionHolds(m, base, p, end, l, f, k);
      PositionHolds(m, base, p, end, l, f, 0);
      RecordBefore(m, m', base, p, l, f, q);
      ReplacedLater(m, m', base, p, end, l, f, k);
      ReplacedWalk(m, m', base, GetNextVariablePtr(m, base, p, l, f), end, l, f, k - 1);
    }
  }

  lemma RecordBefore(m: seq<byte>, m': seq<byte>, base: nat, p: nat, l: Layout, f: Format, q: nat)
    requires l.Valid() && f.Valid() && Fits(m, p, l, f) && IsValidVariableHeader(m, p)
    requires GetNextVariablePtr(m, base, p, l, f) <= q <= |m| == |m'| && Sub(m', 0, q) == Sub(m, 0, q)
    ensures Fits(m', p, l, f) && IsValidVariableHeader(m', p) && RecordAt(m', p, l, f) == RecordAt(m, p, l, f)
    ensures GetNextVariablePtr(m', base, p, l, f) == GetNextVariablePtr(m, base, p, l, f)
  {
    hide Pad, RecordAt, Sub, RecordEnd, HasAllOnesField, IsValidVariableHeader;
    var e := RecordEnd(m, p, l, f);
    SubSpan(m, 0, m', 0, q, p, e - p);
    SameRecord(m, p, m', p, l, f);
  }

  /** Every other record of the store is still visited, at its place, and is what it was. */
  ghost predicate OthersKept(m: seq<byte>, m': seq<byte>, base: nat, l: Layout, f: Format, k: nat)
    requires l.Valid() && f.Valid() && IsStore(m, base, l, f) && k < |Records(m, base, l, f)|
  {
    && IsStore(m', base, l, f)
    && |Records(m', base, l, f)| == |Records(m, base, l, f)|
    && forall j :: 0 <= j < |Records(m, base, l, f)| ==>
         && StorePosition(m', base, l, f, j) == StorePosition(m, base, l, f, j)
         && (j != k ==> Records(m', base, l, f)[j] == Records(m, base, l, f)[j])
  }

  lemma OthersKeptIsWalkKept(m: seq<byte>, m': seq<byte>, base: nat, l: Layout, f: Format, k: nat)
    requires l.Valid() && f.Valid() && IsStore(m, base, l, f) && k < |Records(m, base, l, f)|
    requires |m'| == |m| && GetEndPointer(m', base, l) == GetEndPointer(m, base, l)
    ensures OthersKept(m, m', base, l, f, k)
       <==> WalkKept(m, m', base, GetStartPointer(base, l), GetEndPointer(m, base, l), l, f, k)
  {
    hide Walk, WalkInside, RecordAt, Fits, PositionOf, GetStartPointer, GetEndPointer, OthersKept, WalkKept;
    var start, end := GetStartPointer(base, l), GetEndPointer(m, base, l);
    if OthersKept(m, m', base, l, f, k) {
      OthersKeptWalk(m, m', base, l, f, k);
    }
    if WalkKept(m, m', base, start, end, l, f, k) {
      WalkKeptOthers(m, m', base, l, f, k);
    }
  }

  lemma OthersKeptWalk(m: seq<byte>, m': seq<byte>, base: nat, l: Layout, f: Format, k: nat)
    requires l.Valid() && f.Valid() && IsStore(m, base, l, f) && k < |Records(m, base, l, f)|
    requires |m'| == |m| && GetEndPointer(m', base, l) == GetEndPointer(m, base, l)
    requires OthersKept(m, m', base, l, f, k)
    ensures WalkKept(m, m', base, GetStartPointer(base, l), GetEndPointer(m, base, l), l, f, k)
  {
    hide Walk, WalkInside, RecordAt, Fits, PositionOf, GetStartPointer, GetEndPointer, SamePositions;
    var start, end := GetStartPointer(base, l), GetEndPointer(m, base, l);
    var q, rs := StorePosition(m, base, l, f, k), Records(m, base, l, f);
    PositionHolds(m', base, start, end, l, f, k);
    assert StorePosition(m', base, l, f, k) == q;
    assert Records(m', base, l, f) == rs[k := RecordAt(m', q, l, f)];
    forall j | 0 <= j < |rs|
      ensures PositionOf(m', base, start, end, l, f, j) == PositionOf(m, base, start, end, l, f, j)
    {
      assert StorePosition(m', base, l, f, j) == StorePosition(m, base, l, f, j);
    }
    assert SamePositions(m, m', base, start, end, l, f) by {
      AllSame(m, m', base, start, end, l, f);
    }
  }

  lemma AllSame(m: seq<byte>, m': seq<byte>, base: nat, p: nat, end: nat, l: Layout, f: Format)
    requires l.Valid() && f.Valid() && WalkInside(m, base, p, end, l, f) && WalkInside(m', base, p, end, l, f)
    requires |Walk(m, base, p, end, l, f)| == |Walk(m', base, p, end, l, f)|
    requires forall j :: 0 <= j < |Walk(m, base, p, end, l, f)| ==>
               PositionOf(m', base, p, end, l, f, j) == PositionOf(m, base, p, end, l, f, j)
    ensures SamePositions(m, m', base, p, end, l, f)
  {
    hide Walk, WalkInside, PositionOf;
  }

  lemma WalkKeptOthers(m: seq<byte>, m': seq<byte>, base: nat, l: Layout, f: Format, k: nat)
    requires l.Valid() && f.Valid() && IsStore(m, base, l, f) && k < |Records(m, base, l, f)|
    requires |m'| == |m| && GetEndPointer(m', base, l) == GetEndPointer(m, base, l)
    requires WalkKept(m, m', base, GetStartPointer(base, l), GetEndPointer(m, base, l), l, f, k)
    ensures OthersKept(m, m', base, l, f, k)
  {
    hide Walk, WalkInside, RecordAt, Fits, PositionOf, GetStartPointer, GetEndPointer;
  }

  /** The end of the record at p once the attributes are stored. */
  function EndWith(m: seq<byte>, p: nat, attributes: Option<nat>, l: Layout, f: Format): (e: nat)
    requires l.Valid() && f.Valid() && p + f.headerSize <= |m|
    ensures e >= p + f.headerSize
  {
    if AllOnesWith(m, p, attributes, f) then p + Extent(f, l.padTo, 0, 0)
    else p + Extent(f, l.padTo, Field32(m, p + f.nameSizeAt), Field32(m, p + f.dataSizeAt))
  }

  /** Where the data of the record at p goes once the attributes are stored. */
  function DataPtrWith(m: seq<byte>, p: nat, attributes: Option<nat>, l: Layout, f: Format): nat
    requires l.Valid() && f.Valid() && p + f.headerSize <= |m|
  {
    p + DataOffset(f, l.padTo, if AllOnesWith(m, p, attributes, f) then 0 else Field32(m, p + f.nameSizeAt))
  }

  /** A walk that, after the set, gets to q behind the header of the record at p visits nothing from there on. */
  predicate StopsAfter(
    m: seq<byte>, p: nat, attributes: Option<nat>, data: seq<byte>, l: Layout, f: Format, q: nat, end: nat)
    requires l.Valid() && f.Valid() && p + f.headerSize <= |m|
  {
    || q >= end
    || (q + 2 <= |m|
        && [ByteAfter(m, p, attributes, data, l, f, q), ByteAfter(m, p, attributes, data, l, f, q + 1)] != VARIABLE_DATA)
  }

  /** The byte at q behind the header of the record at p, after the set. */
  function ByteAfter(m: seq<byte>, p: nat, attributes: Option<nat>, data: seq<byte>, l: Layout, f: Format, q: nat): byte
    requires l.Valid() && f.Valid() && p + f.headerSize <= |m| && q < |m|
  {
    var at := DataPtrWith(m, p, attributes, l, f);
    if at <= q < at + |data| then data[q - at] else m[q]
  }

  lemma AfterSetIs(m: seq<byte>, p: nat, attributes: Option<nat>, data: seq<byte>, l: Layout, f: Format)
    requires l.Valid() && f.Valid() && Fits(m, p, l, f) && |data| == DataSizeOfVariable(m, p, f)
    requires attributes.Some? ==> attributes.value <= ALL_ONES_32
    ensures var m1 := WithAttributes(m, p, attributes);
            && (|data| == 0 ==> AfterSet(m, p, attributes, data, l, f) == m1)
            && (|data| > 0 ==>
                  && p + f.headerSize <= GetVariableDataPtr(m1, p, l, f)
                  && GetVariableDataPtr(m1, p, l, f) + |data| <= |m|
                  && AfterSet(m, p, attributes, data, l, f) == Patch(m1, GetVariableDataPtr(m1, p, l, f), data))
  {
    hide Pad, Field32, Sub, WithAttributes, Patch, DataOffset, HasAllOnesField, NameSizeOfVariable, DataSizeOfVariable;
    if |data| > 0 {
      DataInside(m, p, attributes, l, f);
    }
  }

  lemma AfterSetAt(m: seq<byte>, p: nat, attributes: Option<nat>, data: seq<byte>, l: Layout, f: Format, q: nat)
    requires l.Valid() && f.Valid() && Fits(m, p, l, f) && |data| == DataSizeOfVariable(m, p, f)
    requires attributes.Some? ==> attributes.value <= ALL_ONES_32
    requires p + f.headerSize <= q < |m|
    ensures AfterSet(m, p, attributes, data, l, f)[q] == ByteAfter(m, p, attributes, data, l, f, q)
  {
    hide Pad, Field32, Sub, AfterSet, HasAllOnesField, NameSizeOfVariable, DataSizeOfVariable, AllOnesWith, ToLe32, Fits;
    AfterSetIs(m, p, attributes, data, l, f);
    NewSizes(m, p, attributes, f);
    assert WithAttributes(m, p, attributes)[q] == m[q];
  }

  lemma StopsSame(
    m: seq<byte>, p: nat, attributes: Option<nat>, data: seq<byte>, l: Layout, f: Format, q: nat, end: nat)
    requires l.Valid() && f.Valid() && Fits(m, p, l, f) && |data| == DataSizeOfVariable(m, p, f)
    requires attributes.Some? ==> attributes.value <= ALL_ONES_32
    requires p + f.headerSize <= q
    ensures Stops(AfterSet(m, p, attributes, data, l, f), q, end) <==> StopsAfter(m, p, attributes, data, l, f, q, end)
  {
    hide Pad, Field32, AfterSet, HasAllOnesField, NameSizeOfVariable, DataSizeOfVariable, AllOnesWith, ByteAfter, Fits;
    if q + 2 <= |m| {
      AfterSetAt(m, p, attributes, data, l, f, q);
      AfterSetAt(m, p, attributes, data, l, f, q + 1);
      var m' := AfterSet(m, p, attributes, data, l, f);
      assert Sub(m', q, 2) == [m'[q], m'[q + 1]];
    }
  }

  /** A set of record k leaves all other records alone exactly if the record still fits and the pointer to the
      next header stays, or record k is the last one and the walk stops where the pointer now leads. */
  lemma SetKeepsOthersWhen(
    m: seq<byte>, base: nat, l: Layout, f: Format, k: nat, attributes: Option<nat>, data: seq<byte>)
    requires l.Valid() && f.Valid() && IsStore(m, base, l, f) && k < |Records(m, base, l, f)|
    requires var p := StorePosition(m, base, l, f, k);
             Fits(m, p, l, f) && |data| == DataSizeOfVariable(m, p, f)
    requires attributes.Some? ==> attributes.value <= ALL_ONES_32
    ensures var p := StorePosition(m, base, l, f, k);
            var e := EndWith(m, p, attributes, l, f);
            OthersKept(m, AfterSet(m, p, attributes, data, l, f), base, l, f, k)
            <==> && e <= |m|
                 && (AlignedAt(base, e, l.align) == GetNextVariablePtr(m, base, p, l, f)
                     || (k == |Records(m, base, l, f)| - 1
                         && StopsAfter(m, p, attributes, data, l, f, AlignedAt(base, e, l.align), GetEndPointer(m, base, l))))
  {
    hide Pad, Field32, Sub, WithAttributes, AfterSet, HasAllOnesField, NameSizeOfVariable, DataSizeOfVariable,
         IsValidVariableHeader, AllOnesWith, Walk, WalkInside, PositionOf, Extent, OthersKept, WalkKept, Stops, StopsAfter,
         AlignedAt, RecordAt;
    var start, end := GetStartPointer(base, l), GetEndPointer(m, base, l);
    var p := StorePosition(m, base, l, f, k);
    var m' := AfterSet(m, p, attributes, data, l, f);
    PositionHolds(m, base, start, end, l, f, k);
    AfterSetFields(m, p, attributes, data, l, f);
    AfterSetHeader(m, p, attributes, data, l, f);
    SameStart(m, m', base, p, l);
    OthersKeptIsWalkKept(m, m', base, l, f, k);
    var e, next := RecordEnd(m, p, l, f), GetNextVariablePtr(m, base, p, l, f);
    if next <= |m| {
      SubSpan(m, e, m', e, |m| - e, next - e, |m| - next);
    }
    StopsSame(m, p, attributes, data, l, f, AlignedAt(base, EndWith(m, p, attributes, l, f), l.align), end);
    ReplacedWalk(m, m', base, start, end, l, f, k);
  }

  /** The store is the old one with new attributes and data in record k. */
  ghost predicate RecordSet(
    m: seq<byte>, m': seq<byte>, base: nat, l: Layout, f: Format, k: nat, attributes: Option<nat>, data: seq<byte>)
    requires l.Valid() && f.Valid() && IsStore(m, base, l, f) && k < |Records(m, base, l, f)|
  {
    var rs := Records(m, base, l, f);
    && IsStore(m', base, l, f)
    && Records(m', base, l, f) == rs[k := rs[k].(attributes := NewAttributes(rs[k], attributes), data := data)]
  }

  /** A set that leaves the sizes rewrites its record in the store and nothing else. */
  lemma SetKeepsOthers(
    m: seq<byte>, base: nat, l: Layout, f: Format, k: nat, attributes: Option<nat>, data: seq<byte>)
    requires l.Valid() && f.Valid() && IsStore(m, base, l, f) && k < |Records(m, base, l, f)|
    requires var p := StorePosition(m, base, l, f, k);
             && Fits(m, p, l, f) && |data| == DataSizeOfVariable(m, p, f) && SizesStay(m, p, attributes, f)
    requires attributes.Some? ==> attributes.value <= ALL_ONES_32
    ensures var m' := AfterSet(m, StorePosition(m, base, l, f, k), attributes, data, l, f);
            RecordSet(m, m', base, l, f, k, attributes, data)
  {
    hide Pad, Field32, Sub, WithAttributes, AfterSet, HasAllOnesField, NameSizeOfVariable, DataSizeOfVariable,
         IsValidVariableHeader, AllOnesWith, Walk, WalkInside, PositionOf, Extent, AlignedAt, RecordAt, SizesStay;
    var start, end := GetStartPointer(base, l), GetEndPointer(m, base, l);
    var p := StorePosition(m, base, l, f, k);
    var m' := AfterSet(m, p, attributes, data, l, f);
    PositionHolds(m, base, start, end, l, f, k);
    AfterSetRecord(m, p, attributes, data, l, f);
    AfterSetFields(m, p, attributes, data, l, f);
    AfterSetHeader(m, p, attributes, data, l, f);
    SameStart(m, m', base, p, l);
    var e, next := RecordEnd(m, p, l, f), GetNextVariablePtr(m, base, p, l, f);
    if next <= |m| {
      SubSpan(m, e, m', e, |m| - e, next - e, |m| - next);
    }
    ReplacedWalk(m, m', base, start, end, l, f, k);
  }

  // ---- SetVariableToHob ----

  /** The name and the vendor are given and the name is not empty. */
  predicate NameGiven(name: Option<seq<byte>>, guid: Option<seq<byte>>)
    requires name.Some? ==> |name.value| >= 2
  {
    name.Some? && name.value[..2] != [0, 0] && guid.Some?
  }

  method SetVariableToHob(
    store: array<byte>, base: nat, l: Layout, f: Format, name: Option<seq<byte>>, guid: Option<seq<byte>>,
    attributes: Option<nat>, size: nat, data: Option<seq<byte>>)
    returns (status: Status)
    // name is a CHAR16 string, data holds size bytes, and attributes is a UINT32.
    requires name.Some? ==> |name.value| >= 2
    requires data.Some? ==> |data.value| == size
    requires attributes.Some? ==> attributes.value <= ALL_ONES_32
    requires l.Valid() && f.Valid() && |store[..]| >= l.storeHeader
    requires NameGiven(name, guid) ==> CanSearch(store[..], base, l, f, name.value, guid.value)
    modifies store
    ensures status != Success ==> store[..] == old(store[..])
    ensures name.None? || name.value[..2] == [0, 0] || guid.None? ==> status == InvalidParameter
    ensures NameGiven(name, guid) ==>
              var m := old(store[..]);
              && (forall p :: FindsAt(m, base, l, f, name.value, guid.value, p) ==>
                    && Fits(m, p, l, f)
                    && (status == Success <==>
                          size == |RecordAt(m, p, l, f).data| && data.Some? && attributes != Some(0))
                    && (status != Success ==> status == InvalidParameter)
                    && (status == Success ==>
                          && |data.value| == DataSizeOfVariable(m, p, f)
                          && store[..] == AfterSet(m, p, attributes, data.value, l, f)))
              && ((forall p :: !FindsAt(m, base, l, f, name.value, guid.value, p)) ==> status == NotFound)
    ensures status == Success && old(IsStore(store[..], base, l, f)) ==>
              var m := old(store[..]);
              var rs := Records(m, base, l, f);
              var k := LookupIndex(rs, name.value, guid.value);
              && k < |rs| && Fits(m, StorePosition(m, base, l, f, k), l, f)
              && (SizesStay(m, StorePosition(m, base, l, f, k), attributes, f) ==>
                    RecordSet(m, store[..], base, l, f, k, attributes, data.value))
  {
    hide Pad, AlignedAt, RecordEnd, RecordAt, HasAllOnesField, Field32, Sub, Patch, IsValidVariableHeader, Walk, WalkInside,
         Finds, SearchInside, IsStore, StoreSize, Fits, LookupIndex, PositionOf, SizesStay, AllOnesWith, AfterSet,
         ToLe32, RecordSet;
    if name.None? || name.value[..2] == [0, 0] || guid.None? {
      return InvalidParameter;
    }
    var m := store[..];
    var found, p := FindVariableFromHob(store, base, l, f, name.value, guid.value);
    if !found {
      return NotFound;
    }
    FindsOne(m, base, GetStartPointer(base, l), GetEndPointer(m, base, l), l, f, name.value, guid.value, p);
    RecordParts(m, p, l, f);
    if size != DataSizeOfVariable(m, p, f) {
      return InvalidParameter;
    }
    if data.None? {
      return InvalidParameter;
    }
    if attributes == Some(0) {
      return InvalidParameter;
    }
    if attributes.Some? {
      Put(store, p + 4, ToLe32(attributes.value));
    }
    AfterSetIs(m, p, attributes, data.value, l, f);
    if size > 0 {
      Put(store, GetVariableDataPtr(store[..], p, l, f), data.value);
    }
    if IsStore(m, base, l, f) {
      StoreCanSearch(m, base, l, f, name.value, guid.value);
      ghost var k := LookupIndex(Records(m, base, l, f), name.value, guid.value);
      if SizesStay(m, p, attributes, f) {
        SetKeepsOthers(m, base, l, f, k, attributes, data.value);
      }
    }
    return Success;
  }

  /** A set of the record at p, and a read by the same name and vendor into a buffer that is large enough: under the
      condition of reading back, the read returns what was set. */
  method SetThenGet(
    store: array<byte>, base: nat, l: Layout, f: Format, name: seq<byte>, guid: seq<byte>,
    attributes: Option<nat>, data: seq<byte>, capacity: nat, ghost p: nat)
    returns (status: Status, r: ReadResult)
    requires |name| >= 2 && name[..2] != [0, 0] && capacity >= |data|
    requires attributes.Some? ==> 0 < attributes.value <= ALL_ONES_32
    requires l.Valid() && f.Valid() && |store[..]| >= l.storeHeader
    requires var m := store[..];
             && FindsAt(m, base, l, f, name, guid, p) && Fits(m, p, l, f) && |data| == |RecordAt(m, p, l, f).data|
             && ReadsBackWhen(m, p, l, f, name, attributes, data)
    modifies store
    ensures status == Success && r.status == Success && r.size == |data| && r.data == data
    ensures r.attributes == (if attributes.Some? then attributes.value
                             else old(RecordAt(store[..], p, l, f).attributes))
  {
    hide Finds, SearchInside, RecordAt, Fits, AfterSet, StoreSize, AlignedAt, ReadsBackWhen;
    ghost var m := store[..];
    FindsOne(m, base, GetStartPointer(base, l), GetEndPointer(m, base, l), l, f, name, guid, p);
    RecordParts(m, p, l, f);
    SetReadsBack(m, base, p, l, f, name, guid, attributes, data);
    status := SetVariableToHob(store, base, l, f, Some(name), Some(guid), attributes, |data|, Some(data));
    ghost var m' := store[..];
    FindsOne(m', base, GetStartPointer(base, l), GetEndPointer(m', base, l), l, f, name, guid, p);
    r := GetVariableFromHob(store, base, l, f, Some(name), Some(guid), Some(capacity), true);
  }

  /** After the record a name finds has been rewritten, that name finds the rewritten record, and every
      other lookup gives what it gave, unless it finds the same record. */
  lemma SetThenLookup(
    rs: seq<Record>, name: seq<byte>, guid: seq<byte>, attributes: nat, data: seq<byte>,
    name': seq<byte>, guid': seq<byte>)
    requires LookupIndex(rs, name, guid) < |rs|
    ensures var k := LookupIndex(rs, name, guid);
            var updated := rs[k].(attributes := attributes, data := data);
            && Lookup(rs[k := updated], name, guid) == Some(updated)
            && Lookup(rs[k := updated], name', guid')
               == if LookupIndex(rs, name', guid') == k then Some(updated) else Lookup(rs, name', guid')
  {
    var k := LookupIndex(rs, name, guid);
    var rs' := rs[k := rs[k].(attributes := attributes, data := data)];
    SameMatches(rs, rs', name, guid);
    SameMatches(rs, rs', name', guid');
  }

  lemma {:induction false} SameMatches(rs: seq<Record>, rs': seq<Record>, name: seq<byte>, guid: seq<byte>)
    requires |rs| == |rs'|
    requires forall i :: 0 <= i < |rs| ==> Matches(rs[i], name, guid) == Matches(rs'[i], name, guid)
    ensures LookupIndex(rs, name, guid) == LookupIndex(rs', name, guid)
  {
    if rs != [] && !Matches(rs[0], name, guid) {
      SameMatches(rs[1..], rs'[1..], name, guid);
    }
  }
}
