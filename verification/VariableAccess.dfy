/** FindVariableFromHob and GetVariableFromHob on a variable store. */
module VariableAccess {
  import opened Bytes
  import opened VariableStore
  import opened VariableConvert

  datatype Option<+T> = None | Some(value: T)

  datatype Status = Success | InvalidParameter | NotFound | BufferTooSmall

  // ---- Lookup ----

  /** The test of the search loop. name is the memory the caller's name pointer leads to: the code
      compares as many bytes of it as the name of the record has. */
  predicate Matches(r: Record, name: seq<byte>, guid: seq<byte>) {
    r.state == VAR_ADDED && r.guid == guid && r.name <= name
  }

  /** An added record of this vendor, whose name starts the bytes that the name pointer leads to. */
  lemma MatchesMeans(r: Record, name: seq<byte>, guid: seq<byte>)
    ensures Matches(r, name, guid)
       <==> r.state == 0x3F && r.guid == guid && |r.name| <= |name| && r.name == name[..|r.name|]
  {
  }

  /** The index of the first record that matches, |rs| if none does. */
  function LookupIndex(rs: seq<Record>, name: seq<byte>, guid: seq<byte>): (k: nat)
    ensures k <= |rs|
    ensures k < |rs| ==> Matches(rs[k], name, guid)
    ensures forall i :: 0 <= i < k ==> !Matches(rs[i], name, guid)
  {
    if rs == [] || Matches(rs[0], name, guid) then 0 else 1 + LookupIndex(rs[1..], name, guid)
  }

  function Lookup(rs: seq<Record>, name: seq<byte>, guid: seq<byte>): Option<Record> {
    var k := LookupIndex(rs, name, guid);
    if k < |rs| then Some(rs[k]) else None
  }

  lemma MatchesAdded(r: Record, name: seq<byte>, guid: seq<byte>)
    ensures Matches(r, name, guid) ==> r.state == VAR_ADDED
  {
  }

  /** Dropping the records that are not VAR_ADDED changes no lookup. */
  lemma {:induction false} LookupAdded(rs: seq<Record>, name: seq<byte>, guid: seq<byte>)
    ensures Lookup(Added(rs), name, guid) == Lookup(rs, name, guid)
  {
    hide Matches, LookupIndex;
    if rs != [] {
      var rest := rs[1..];
      assert rs == [rs[0]] + rest;
      LookupAdded(rest, name, guid);
      MatchesAdded(rs[0], name, guid);
      LookupStep(rs[0], rest, name, guid);
      LookupStep(rs[0], Added(rest), name, guid);
      assert Added(rs) == if rs[0].state == VAR_ADDED then [rs[0]] + Added(rest) else Added(rest);
    }
  }

  /** Whatever store the conversion produced, every lookup in it finds what the source gives. */
  lemma ConversionKeepsLookups(
    src: seq<byte>, srcBase: nat, hob: seq<byte>, hobBase: nat, l: Layout, name: seq<byte>, guid: seq<byte>)
    requires l.Valid() && IsStore(src, srcBase, l, l.auth) && KeepsAdded(src, srcBase, hob, hobBase, l)
    ensures Lookup(Records(hob, hobBase, l, l.normal), name, guid)
         == Lookup(Records(src, srcBase, l, l.auth), name, guid)
  {
    LookupAdded(Records(src, srcBase, l, l.auth), name, guid);
  }

  // ---- Where a record is ----

  /** The position of record number k of a walk. */
  ghost function PositionOf(m: seq<byte>, base: nat, p: nat, end: nat, l: Layout, f: Format, k: nat): nat
    requires l.Valid() && f.Valid() && WalkInside(m, base, p, end, l, f)
    requires k < |Walk(m, base, p, end, l, f)|
    decreases k
  {
    if k == 0 then p else PositionOf(m, base, GetNextVariablePtr(m, base, p, l, f), end, l, f, k - 1)
  }

  lemma PositionHolds(m: seq<byte>, base: nat, p: nat, end: nat, l: Layout, f: Format, k: nat)
    requires l.Valid() && f.Valid() && WalkInside(m, base, p, end, l, f)
    requires k < |Walk(m, base, p, end, l, f)|
    ensures var q := PositionOf(m, base, p, end, l, f, k);
            && p <= q < end
            && Fits(m, q, l, f)
            && IsValidVariableHeader(m, q)
            && RecordAt(m, q, l, f) == Walk(m, base, p, end, l, f)[k]
            && (k > 0 ==> GetNextVariablePtr(m, base, p, l, f) <= q)
    decreases k
  {
    hide Pad, AlignedAt, RecordEnd, RecordAt, IsValidVariableHeader;
    if k > 0 {
      PositionHolds(m, base, GetNextVariablePtr(m, base, p, l, f), end, l, f, k - 1);
    }
  }

  /** Bytes that agree from p on give the same walk from p on. */
  lemma SameWalk(m: seq<byte>, m': seq<byte>, base: nat, p: nat, end: nat, l: Layout, f: Format)
    requires l.Valid() && f.Valid() && WalkInside(m, base, p, end, l, f) && |m| == |m'|
    requires p <= |m| ==> Sub(m, p, |m| - p) == Sub(m', p, |m| - p)
    ensures WalkInside(m', base, p, end, l, f)
    ensures Walk(m', base, p, end, l, f) == Walk(m, base, p, end, l, f)
    ensures WalkStop(m', base, p, end, l, f) == WalkStop(m, base, p, end, l, f)
    decreases end - p
  {
    hide Pad, AlignedAt, RecordAt, Sub, RecordEnd, HasAllOnesField;
    if p < end {
      SubSpan(m, p, m', p, |m| - p, 0, 2);
      if IsValidVariableHeader(m, p) {
        var e, next := RecordEnd(m, p, l, f), GetNextVariablePtr(m, base, p, l, f);
        SubSpan(m, p, m', p, |m| - p, 0, e - p);
        SameRecord(m, p, m', p, l, f);
        if next <= |m| {
          SubSpan(m, p, m', p, |m| - p, next - p, |m| - next);
        }
        SameWalk(m, m', base, next, end, l, f);
      }
    }
  }

  ghost function StorePosition(m: seq<byte>, base: nat, l: Layout, f: Format, k: nat): nat
    requires l.Valid() && f.Valid() && IsStore(m, base, l, f) && k < |Records(m, base, l, f)|
  {
    PositionOf(m, base, GetStartPointer(base, l), GetEndPointer(m, base, l), l, f, k)
  }

  /** The comparisons of the loop are the match of the record. */
  lemma MatchTest(m: seq<byte>, p: nat, l: Layout, f: Format, name: seq<byte>, guid: seq<byte>)
    requires l.Valid() && f.Valid() && Fits(m, p, l, f)
    ensures p + f.headerSize + NameSizeOfVariable(m, p, f) <= |m|
    ensures Matches(RecordAt(m, p, l, f), name, guid)
        <==> m[p + 2] == VAR_ADDED && Sub(m, p + f.guidAt, 16) == guid &&
             Sub(m, p + f.headerSize, NameSizeOfVariable(m, p, f)) <= name
  {
    hide Pad, Sub, Field32, HasAllOnesField;
  }

  // ---- The search loop ----

  /** The search from position q up to end stays inside the buffer: a walk that ends with the first match. */
  ghost predicate SearchInside(
    m: seq<byte>, base: nat, q: nat, end: nat, l: Layout, f: Format, name: seq<byte>, guid: seq<byte>)
    requires l.Valid() && f.Valid()
    decreases end - q
  {
    q >= end ||
    (q + 2 <= |m| &&
     (IsValidVariableHeader(m, q) ==>
        && Fits(m, q, l, f)
        && (Matches(RecordAt(m, q, l, f), name, guid)
            || SearchInside(m, base, GetNextVariablePtr(m, base, q, l, f), end, l, f, name, guid))))
  }

  /** The search finds the record at position p. */
  ghost predicate Finds(
    m: seq<byte>, base: nat, q: nat, end: nat, l: Layout, f: Format, name: seq<byte>, guid: seq<byte>, p: nat)
    requires l.Valid() && f.Valid()
    decreases end - q
  {
    && q < end && q + 2 <= |m| && IsValidVariableHeader(m, q) && Fits(m, q, l, f)
    && if Matches(RecordAt(m, q, l, f), name, guid) then q == p
       else Finds(m, base, GetNextVariablePtr(m, base, q, l, f), end, l, f, name, guid, p)
  }

  /** A search that finds a record finds no other, stays inside the buffer, and never goes past it. */
  lemma {:induction false} FindsOne(
    m: seq<byte>, base: nat, q: nat, end: nat, l: Layout, f: Format, name: seq<byte>, guid: seq<byte>, p: nat)
    requires l.Valid() && f.Valid() && Finds(m, base, q, end, l, f, name, guid, p)
    ensures q <= p < end && p + 2 <= |m| && IsValidVariableHeader(m, p) && Fits(m, p, l, f)
    ensures Matches(RecordAt(m, p, l, f), name, guid)
    ensures q < p ==> GetNextVariablePtr(m, base, q, l, f) <= p
    ensures SearchInside(m, base, q, end, l, f, name, guid)
    ensures forall p' :: Finds(m, base, q, end, l, f, name, guid, p') ==> p' == p
    decreases end - q
  {
    hide RecordAt, Matches, IsValidVariableHeader, RecordEnd, AlignedAt;
    if !Matches(RecordAt(m, q, l, f), name, guid) {
      FindsOne(m, base, GetNextVariablePtr(m, base, q, l, f), end, l, f, name, guid, p);
    }
  }

  /** In a whole walk, what the search finds is the first record that matches. */
  lemma {:induction false} FindsFirst(
    m: seq<byte>, base: nat, q: nat, end: nat, l: Layout, f: Format, name: seq<byte>, guid: seq<byte>, p: nat)
    requires l.Valid() && f.Valid() && WalkInside(m, base, q, end, l, f)
    ensures SearchInside(m, base, q, end, l, f, name, guid)
    ensures var rs := Walk(m, base, q, end, l, f);
            var k := LookupIndex(rs, name, guid);
            Finds(m, base, q, end, l, f, name, guid, p) <==> k < |rs| && p == PositionOf(m, base, q, end, l, f, k)
    decreases end - q
  {
    hide RecordAt, Matches, IsValidVariableHeader, RecordEnd, AlignedAt, LookupIndex;
    if q < end && IsValidVariableHeader(m, q) {
      var next := GetNextVariablePtr(m, base, q, l, f);
      FindsFirst(m, base, next, end, l, f, name, guid, p);
      LookupStep(RecordAt(m, q, l, f), Walk(m, base, next, end, l, f), name, guid);
    }
  }

  lemma LookupStep(r: Record, rest: seq<Record>, name: seq<byte>, guid: seq<byte>)
    ensures LookupIndex([r] + rest, name, guid) == if Matches(r, name, guid) then 0 else 1 + LookupIndex(rest, name, guid)
  {
    assert ([r] + rest)[1..] == rest;
  }

  /** The search in the store of a buffer. */
  ghost predicate CanSearch(m: seq<byte>, base: nat, l: Layout, f: Format, name: seq<byte>, guid: seq<byte>)
    requires l.Valid() && f.Valid()
  {
    |m| >= l.storeHeader
    && SearchInside(m, base, GetStartPointer(base, l), GetEndPointer(m, base, l), l, f, name, guid)
  }

  ghost predicate FindsAt(m: seq<byte>, base: nat, l: Layout, f: Format, name: seq<byte>, guid: seq<byte>, p: nat)
    requires l.Valid() && f.Valid() && |m| >= l.storeHeader
  {
    Finds(m, base, GetStartPointer(base, l), GetEndPointer(m, base, l), l, f, name, guid, p)
  }

  /** A store can be searched, and finding is looking up. */
  lemma StoreCanSearch(m: seq<byte>, base: nat, l: Layout, f: Format, name: seq<byte>, guid: seq<byte>)
    requires l.Valid() && f.Valid() && IsStore(m, base, l, f)
    ensures CanSearch(m, base, l, f, name, guid)
    ensures var rs := Records(m, base, l, f);
            var k := LookupIndex(rs, name, guid);
            forall p :: FindsAt(m, base, l, f, name, guid, p) <==> k < |rs| && p == StorePosition(m, base, l, f, k)
  {
    hide Walk, WalkInside, SearchInside, Finds, LookupIndex, PositionOf;
    forall p: nat
      ensures CanSearch(m, base, l, f, name, guid)
      ensures var rs := Records(m, base, l, f);
              var k := LookupIndex(rs, name, guid);
              FindsAt(m, base, l, f, name, guid, p) <==> k < |rs| && p == StorePosition(m, base, l, f, k)
    {
      FindsFirst(m, base, GetStartPointer(base, l), GetEndPointer(m, base, l), l, f, name, guid, p);
    }
    FindsFirst(m, base, GetStartPointer(base, l), GetEndPointer(m, base, l), l, f, name, guid, 0);
  }

  /** found says whether a record matches; p is then the position of the first one. */
  method FindVariableFromHob(
    store: array<byte>, base: nat, l: Layout, f: Format, name: seq<byte>, guid: seq<byte>)
    returns (found: bool, p: nat)
    requires l.Valid() && f.Valid() && CanSearch(store[..], base, l, f, name, guid)
    ensures found ==> FindsAt(store[..], base, l, f, name, guid, p)
    ensures !found ==> forall p' :: !FindsAt(store[..], base, l, f, name, guid, p')
  {
    hide Pad, AlignedAt, RecordEnd, RecordAt, Field32, Sub, Matches, StoreSize;
    var m := store[..];
    var start, end := GetStartPointer(base, l), GetEndPointer(m, base, l);
    p := start;
    while p < end && IsValidVariableHeader(m, p)
      invariant SearchInside(m, base, p, end, l, f, name, guid)
      invariant forall p' :: Finds(m, base, start, end, l, f, name, guid, p') <==> Finds(m, base, p, end, l, f, name, guid, p')
      decreases if p < end then end - p else 0
    {
      MatchTest(m, p, l, f, name, guid);
      if m[p + 2] == VAR_ADDED && Sub(m, p + f.guidAt, 16) == guid &&
         Sub(m, p + f.headerSize, NameSizeOfVariable(m, p, f)) <= name
      {
        return true, p;
      }
      p := GetNextVariablePtr(m, base, p, l, f);
    }
    return false, p;
  }

  // ---- GetVariableFromHob ----

  /** What a read answers: its status, the attributes, the size reported back and the data. */
  datatype ReadResult = ReadResult(status: Status, attributes: nat, size: nat, data: seq<byte>)
  {
    /** A read of this record into a buffer of the given size, which may be missing: success hands out attributes,
        size and data, and a buffer that is too small is told the size needed. */
    ghost predicate Reads(r: Record, capacity: nat, present: bool) {
      && (present && |r.data| <= capacity ==>
            status == Success && attributes == r.attributes && size == |r.data| && data == r.data)
      && (capacity < |r.data| ==> status == BufferTooSmall && size == |r.data|)
      && (!present && |r.data| <= capacity ==> status == InvalidParameter && size == capacity)
    }
  }

  /** capacity is the size of the caller's buffer, present is whether it passed one. */
  method GetVariableFromHob(
    store: array<byte>, base: nat, l: Layout, f: Format,
    name: Option<seq<byte>>, guid: Option<seq<byte>>, capacity: Option<nat>, present: bool)
    returns (r: ReadResult)
    requires l.Valid() && f.Valid() && |store[..]| >= l.storeHeader
    requires name.Some? && guid.Some? ==> CanSearch(store[..], base, l, f, name.value, guid.value)
    ensures name.None? || guid.None? || capacity.None? ==> r.status == InvalidParameter
    ensures name.Some? && guid.Some? && capacity.Some? ==>
              var m := store[..];
              && (forall p :: FindsAt(m, base, l, f, name.value, guid.value, p) ==>
                    Fits(m, p, l, f) && r.Reads(RecordAt(m, p, l, f), capacity.value, present))
              && ((forall p :: !FindsAt(m, base, l, f, name.value, guid.value, p)) ==>
                    r.status == NotFound && r.size == capacity.value)
    ensures name.Some? && guid.Some? && capacity.Some? && IsStore(store[..], base, l, f) ==>
              match Lookup(Records(store[..], base, l, f), name.value, guid.value)
              case Some(rec) => r.Reads(rec, capacity.value, present)
              case None => r.status == NotFound && r.size == capacity.value
  {
    hide Pad, AlignedAt, RecordEnd, RecordAt, Walk, WalkInside, HasAllOnesField, Field32, Finds, SearchInside, IsStore,
         Lookup, StoreSize, Fits;
    if name.None? || guid.None? || capacity.None? {
      return ReadResult(InvalidParameter, 0, 0, []);
    }
    var m := store[..];
    var found, p := FindVariableFromHob(store, base, l, f, name.value, guid.value);
    if IsStore(m, base, l, f) {
      LookupFound(m, base, l, f, name.value, guid.value);
    }
    if !found {
      return ReadResult(NotFound, 0, capacity.value, []);
    }
    FindsOne(m, base, GetStartPointer(base, l), GetEndPointer(m, base, l), l, f, name.value, guid.value, p);
    RecordParts(m, p, l, f);
    var size := DataSizeOfVariable(m, p, f);
    if capacity.value < size {
      return ReadResult(BufferTooSmall, 0, size, []);
    }
    if !present {
      return ReadResult(InvalidParameter, 0, capacity.value, []);
    }
    return ReadResult(Success, Field32(m, p + 4), size, Sub(m, GetVariableDataPtr(m, p, l, f), size));
  }

  /** The record found in a store is the one looked up. */
  lemma LookupFound(m: seq<byte>, base: nat, l: Layout, f: Format, name: seq<byte>, guid: seq<byte>)
    requires l.Valid() && f.Valid() && IsStore(m, base, l, f)
    ensures forall p :: FindsAt(m, base, l, f, name, guid, p) ==>
              Fits(m, p, l, f) && Lookup(Records(m, base, l, f), name, guid) == Some(RecordAt(m, p, l, f))
    ensures (forall p :: !FindsAt(m, base, l, f, name, guid, p)) ==> Lookup(Records(m, base, l, f), name, guid) == None
  {
    hide Walk, WalkInside, Finds, LookupIndex, PositionOf, RecordAt, Fits;
    StoreCanSearch(m, base, l, f, name, guid);
    var rs := Records(m, base, l, f);
    var k := LookupIndex(rs, name, guid);
    if k < |rs| {
      PositionHolds(m, base, GetStartPointer(base, l), GetEndPointer(m, base, l), l, f, k);
      assert FindsAt(m, base, l, f, name, guid, StorePosition(m, base, l, f, k));
    }
  }

  lemma RecordParts(m: seq<byte>, p: nat, l: Layout, f: Format)
    requires l.Valid() && f.Valid() && Fits(m, p, l, f)
    ensures GetVariableDataPtr(m, p, l, f) + DataSizeOfVariable(m, p, f) <= |m|
    ensures var r := RecordAt(m, p, l, f);
            && r.attributes == Field32(m, p + 4)
            && r.data == Sub(m, GetVariableDataPtr(m, p, l, f), DataSizeOfVariable(m, p, f))
            && |r.data| == DataSizeOfVariable(m, p, f)
  {
    hide Pad, HasAllOnesField, Field32;
  }
}
