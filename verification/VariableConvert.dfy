/** BuildDefaultDataHobForRecoveryVariable: from an authenticated store to a normal one. */
module VariableConvert {
  import opened Bytes
  import opened VariableStore

  /** The records the conversion copies. */
  function Added(rs: seq<Record>): seq<Record> {
    if rs == [] then []
    else (if rs[0].state == VAR_ADDED then [rs[0]] else []) + Added(rs[1..])
  }

  lemma AddedAppend(rs: seq<Record>, r: Record)
    ensures Added(rs + [r]) == if r.state == VAR_ADDED then Added(rs) + [r] else Added(rs)
  {
    AddedPrefix(rs, [r]);
    assert [r][1..] == [];
    assert Added([r]) == if r.state == VAR_ADDED then [r] else [];
    assert Added(rs) + [] == Added(rs);
  }

  /** Exactly the records in state 0x3F, each as often as it was there; with AddedPrefix, in their order. */
  lemma {:induction false} AddedMeans(rs: seq<Record>, r: Record)
    ensures multiset(Added(rs))[r] == if r.state == 0x3F then multiset(rs)[r] else 0
  {
    if rs != [] {
      var rest := rs[1..];
      assert rs == [rs[0]] + rest;
      AddedHead(rs[0], rest);
      AddedMeans(rest, r);
    }
  }

  // ---- Two readings of a record ----

  /** The sizes that count: those that the driver reports for a record, or those in its size fields. */
  datatype Sizes = Reported | Raw

  function NameSizeBy(m: seq<byte>, p: nat, f: Format, sizes: Sizes): nat
    requires f.Valid() && p + f.headerSize <= |m|
  {
    if sizes.Raw? then Field32(m, p + f.nameSizeAt) else NameSizeOfVariable(m, p, f)
  }

  function DataSizeBy(m: seq<byte>, p: nat, f: Format, sizes: Sizes): nat
    requires f.Valid() && p + f.headerSize <= |m|
  {
    if sizes.Raw? then Field32(m, p + f.dataSizeAt) else DataSizeOfVariable(m, p, f)
  }

  function EndBy(m: seq<byte>, p: nat, l: Layout, f: Format, sizes: Sizes): (e: nat)
    requires l.Valid() && f.Valid() && p + f.headerSize <= |m|
    ensures e > p && (sizes.Reported? ==> e == RecordEnd(m, p, l, f))
  {
    p + Extent(f, l.padTo, NameSizeBy(m, p, f, sizes), DataSizeBy(m, p, f, sizes))
  }

  predicate FitsBy(m: seq<byte>, p: nat, l: Layout, f: Format, sizes: Sizes)
    requires l.Valid() && f.Valid()
  {
    p + f.headerSize <= |m| && EndBy(m, p, l, f, sizes) <= |m|
  }

  function RecordBy(m: seq<byte>, p: nat, l: Layout, f: Format, sizes: Sizes): (r: Record)
    requires l.Valid() && f.Valid() && FitsBy(m, p, l, f, sizes)
    ensures sizes.Reported? ==> r == RecordAt(m, p, l, f)
  {
    var nameSize, dataSize := NameSizeBy(m, p, f, sizes), DataSizeBy(m, p, f, sizes);
    Record(
      m[p + 2], m[p + 3], Field32(m, p + 4),
      Field32(m, p + f.nameSizeAt), Field32(m, p + f.dataSizeAt),
      Sub(m, p + f.guidAt, 16),
      Sub(m, p + f.headerSize, nameSize),
      Sub(m, p + DataOffset(f, l.padTo, nameSize), dataSize))
  }

  /** Equal bytes over a whole record give equal records. */
  lemma SameRecordBy(m: seq<byte>, p: nat, m': seq<byte>, p': nat, l: Layout, f: Format, sizes: Sizes)
    requires l.Valid() && f.Valid() && FitsBy(m, p, l, f, sizes)
    requires SameSpan(m, p, m', p', EndBy(m, p, l, f, sizes) - p)
    ensures FitsBy(m', p', l, f, sizes) && RecordBy(m, p, l, f, sizes) == RecordBy(m', p', l, f, sizes)
    ensures EndBy(m', p', l, f, sizes) - p' == EndBy(m, p, l, f, sizes) - p
    ensures IsValidVariableHeader(m, p) == IsValidVariableHeader(m', p')
  {
    hide Pad, NameSizeOfVariable, DataSizeOfVariable, HasAllOnesField, Field32, Sub, RecordAt, RecordEnd;
    var n := EndBy(m, p, l, f, sizes) - p;
    SubSpan(m, p, m', p', n, 0, f.headerSize);
    SameHeader(m, p, m', p', f);
    SameSizes(m, p, m', p', f);
    var nameSize, dataSize := NameSizeBy(m, p, f, sizes), DataSizeBy(m, p, f, sizes);
    SubSpan(m, p, m', p', n, f.headerSize, nameSize);
    SubSpan(m, p, m', p', n, DataOffset(f, l.padTo, nameSize), dataSize);
  }

  /** The driver reads the record with raw sizes as what is shown of it. */
  lemma RawIsShown(m: seq<byte>, p: nat, l: Layout, f: Format)
    requires l.Valid() && f.Valid() && FitsBy(m, p, l, f, Raw)
    ensures var r := RecordBy(m, p, l, f, Raw);
            && Fits(m, p, l, f) && RecordAt(m, p, l, f) == r.Shown()
            && NameSizeOfVariable(m, p, f) == |r.Shown().name| && DataSizeOfVariable(m, p, f) == |r.Shown().data|
            && EndBy(m, p, l, f, Raw) == p + Extent(f, l.padTo, r.nameSize, r.dataSize)
            && |r.name| == r.nameSize && |r.data| == r.dataSize
  {
    hide Pad, Field32;
    PadOfNothing(l.padTo);
  }

  // ---- The records to copy ----

  /** No record that is to be copied has an all-ones field next to a size that is not 0. */
  ghost predicate WellFormed(rs: seq<Record>) {
    forall i :: 0 <= i < |rs| && rs[i].state == VAR_ADDED ==> rs[i].Sized()
  }

  /** The raw bytes of every record that the walk from p on copies lie inside the buffer. */
  ghost predicate CopyInside(m: seq<byte>, base: nat, p: nat, end: nat, l: Layout, f: Format)
    requires l.Valid() && f.Valid() && WalkInside(m, base, p, end, l, f)
    decreases end - p
  {
    p >= end || !IsValidVariableHeader(m, p) ||
    (&& (m[p + 2] == VAR_ADDED ==> FitsBy(m, p, l, f, Raw))
     && CopyInside(m, base, GetNextVariablePtr(m, base, p, l, f), end, l, f))
  }

  /** These records, by their raw sizes, which are the ones that the copy goes by. */
  ghost function ToCopy(m: seq<byte>, base: nat, p: nat, end: nat, l: Layout, f: Format): seq<Record>
    requires l.Valid() && f.Valid() && WalkInside(m, base, p, end, l, f) && CopyInside(m, base, p, end, l, f)
    decreases end - p
  {
    if p >= end || !IsValidVariableHeader(m, p) then []
    else
      (if m[p + 2] == VAR_ADDED then [RecordBy(m, p, l, f, Raw)] else [])
      + ToCopy(m, base, GetNextVariablePtr(m, base, p, l, f), end, l, f)
  }

  ghost predicate CanCopy(m: seq<byte>, base: nat, l: Layout)
    requires l.Valid() && IsStore(m, base, l, l.auth)
  {
    CopyInside(m, base, GetStartPointer(base, l), GetEndPointer(m, base, l), l, l.auth)
  }

  ghost function Copies(m: seq<byte>, base: nat, l: Layout): seq<Record>
    requires l.Valid() && IsStore(m, base, l, l.auth) && CanCopy(m, base, l)
  {
    ToCopy(m, base, GetStartPointer(base, l), GetEndPointer(m, base, l), l, l.auth)
  }

  lemma CopyTurn(m: seq<byte>, base: nat, p: nat, end: nat, l: Layout, f: Format)
    requires l.Valid() && f.Valid() && WalkInside(m, base, p, end, l, f) && CopyInside(m, base, p, end, l, f)
    requires p < end && IsValidVariableHeader(m, p) && p + f.headerSize <= |m|
    ensures var next := GetNextVariablePtr(m, base, p, l, f);
            && WalkInside(m, base, next, end, l, f) && CopyInside(m, base, next, end, l, f)
            && (next < end ==> next + 2 <= |m|)
            && (m[p + 2] == VAR_ADDED ==>
                  && FitsBy(m, p, l, f, Raw)
                  && ToCopy(m, base, p, end, l, f) == [RecordBy(m, p, l, f, Raw)] + ToCopy(m, base, next, end, l, f))
            && (m[p + 2] != VAR_ADDED ==> ToCopy(m, base, p, end, l, f) == ToCopy(m, base, next, end, l, f))
  {
    hide GetNextVariablePtr, RecordBy, EndBy, RecordEnd;
    assert [] + ToCopy(m, base, GetNextVariablePtr(m, base, p, l, f), end, l, f)
      == ToCopy(m, base, GetNextVariablePtr(m, base, p, l, f), end, l, f);
  }

  lemma WalkStarts(m: seq<byte>, base: nat, p: nat, end: nat, l: Layout, f: Format)
    requires l.Valid() && f.Valid() && WalkInside(m, base, p, end, l, f)
    ensures p < end ==> p + 2 <= |m|
  {
  }

  lemma NothingLeft(m: seq<byte>, base: nat, p: nat, end: nat, l: Layout, f: Format)
    requires l.Valid() && f.Valid() && WalkInside(m, base, p, end, l, f) && CopyInside(m, base, p, end, l, f)
    requires p >= end || !IsValidVariableHeader(m, p)
    ensures Walk(m, base, p, end, l, f) == [] && ToCopy(m, base, p, end, l, f) == []
  {
  }

  /** What is shown of the records to copy are the added records of the walk. */
  lemma {:induction false} ShownCopies(m: seq<byte>, base: nat, p: nat, end: nat, l: Layout, f: Format)
    requires l.Valid() && f.Valid() && WalkInside(m, base, p, end, l, f) && CopyInside(m, base, p, end, l, f)
    ensures ShownAll(ToCopy(m, base, p, end, l, f)) == Added(Walk(m, base, p, end, l, f))
    decreases end - p
  {
    hide RecordAt, RecordBy, EndBy, GetNextVariablePtr, IsValidVariableHeader;
    if p < end && IsValidVariableHeader(m, p) {
      var next := GetNextVariablePtr(m, base, p, l, f);
      WalkTurn(m, base, p, end, l, f);
      ShownCopies(m, base, next, end, l, f);
      var rest, more := Walk(m, base, next, end, l, f), ToCopy(m, base, next, end, l, f);
      assert ([RecordAt(m, p, l, f)] + rest)[1..] == rest;
      if m[p + 2] == VAR_ADDED {
        RawIsShown(m, p, l, f);
        assert ([RecordBy(m, p, l, f, Raw)] + more)[1..] == more;
      } else {
        assert [] + more == more && [] + Added(rest) == Added(rest);
      }
    }
  }

  /** In a store without such records all can be copied, and each is as long as its size fields say. */
  lemma {:induction false} WellFormedCopies(m: seq<byte>, base: nat, p: nat, end: nat, l: Layout, f: Format, g: Format)
    requires l.Valid() && f.Valid() && WalkInside(m, base, p, end, l, f) && WellFormed(Walk(m, base, p, end, l, f))
    ensures CopyInside(m, base, p, end, l, f) && AllTight(ToCopy(m, base, p, end, l, f), l, g)
    decreases end - p
  {
    hide RecordAt, RecordBy, EndBy, GetNextVariablePtr, IsValidVariableHeader, Tight;
    if p < end && IsValidVariableHeader(m, p) {
      var next := GetNextVariablePtr(m, base, p, l, f);
      WalkTurn(m, base, p, end, l, f);
      var rs, rest := Walk(m, base, p, end, l, f), Walk(m, base, next, end, l, f);
      assert rs[1..] == rest;
      forall i | 0 <= i < |rest| && rest[i].state == VAR_ADDED
        ensures rest[i].Sized()
      {
        assert rest[i] == rs[i + 1];
      }
      WellFormedCopies(m, base, next, end, l, f, g);
      if m[p + 2] == VAR_ADDED {
        assert rs[0].Sized();
        SizedIsTight(m, p, l, f, g);
      }
    }
  }

  lemma SizedIsTight(m: seq<byte>, p: nat, l: Layout, f: Format, g: Format)
    requires l.Valid() && f.Valid() && Fits(m, p, l, f) && RecordAt(m, p, l, f).Sized()
    ensures FitsBy(m, p, l, f, Raw) && Tight(RecordBy(m, p, l, f, Raw), l, g)
  {
    hide Pad, Field32, AlignUp;
  }

  /** The size the first pass computes for normal records rs appended to s bytes: it aligns offsets. */
  function PackedSize(s: nat, rs: seq<Record>, l: Layout): nat
    requires l.Valid()
    decreases rs
  {
    if rs == [] then s
    else PackedSize(AlignUp(s, l.align) + Extent(l.normal, l.padTo, rs[0].nameSize, rs[0].dataSize), rs[1..], l)
  }

  lemma PackedSizeAppend(s: nat, rs: seq<Record>, r: Record, l: Layout)
    requires l.Valid()
    ensures PackedSize(s, rs + [r], l)
         == AlignUp(PackedSize(s, rs, l), l.align) + Extent(l.normal, l.padTo, r.nameSize, r.dataSize)
    decreases rs
  {
    hide Extent, AlignUp;
    if rs == [] {
      assert rs + [r] == [r];
      assert [r][1..] == [];
    } else {
      assert (rs + [r])[1..] == rs[1..] + [r];
      PackedSizeAppend(
        AlignUp(s, l.align) + Extent(l.normal, l.padTo, rs[0].nameSize, rs[0].dataSize), rs[1..], r, l);
    }
  }

  lemma PackedSizeGrows(s: nat, rs: seq<Record>, l: Layout)
    requires l.Valid()
    ensures PackedSize(s, rs, l) >= s
    decreases rs
  {
    hide Extent;
    if rs != [] {
      PackedSizeGrows(AlignUp(s, l.align) + Extent(l.normal, l.padTo, rs[0].nameSize, rs[0].dataSize), rs[1..], l);
    }
  }

  /** The records rs lie in m one after the other, each aligned on its address, the first one after
      position p and the last one ending at position e. */
  ghost predicate Stored(m: seq<byte>, base: nat, p: nat, e: nat, rs: seq<Record>, l: Layout, f: Format, sizes: Sizes)
    requires l.Valid() && f.Valid()
    decreases rs
  {
    if rs == [] then p == e
    else
      var q := AlignedAt(base, p, l.align);
      && FitsBy(m, q, l, f, sizes)
      && IsValidVariableHeader(m, q)
      && RecordBy(m, q, l, f, sizes) == rs[0]
      && Stored(m, base, EndBy(m, q, l, f, sizes), e, rs[1..], l, f, sizes)
  }

  lemma StoredBounds(m: seq<byte>, base: nat, p: nat, e: nat, rs: seq<Record>, l: Layout, f: Format, sizes: Sizes)
    requires l.Valid() && f.Valid() && Stored(m, base, p, e, rs, l, f, sizes)
    ensures p <= e && (rs != [] ==> AlignedAt(base, p, l.align) < e <= |m|)
    decreases rs
  {
    hide RecordBy, EndBy, IsValidVariableHeader, AlignedAt;
    if rs != [] {
      StoredBounds(m, base, EndBy(m, AlignedAt(base, p, l.align), l, f, sizes), e, rs[1..], l, f, sizes);
    }
  }

  lemma StoredNone(m: seq<byte>, base: nat, p: nat, e: nat, l: Layout, f: Format, sizes: Sizes)
    requires l.Valid() && f.Valid()
    ensures Stored(m, base, p, e, [], l, f, sizes) <==> p == e
  {
  }

  lemma StoredHead(m: seq<byte>, base: nat, p: nat, e: nat, rs: seq<Record>, l: Layout, f: Format, sizes: Sizes)
    requires l.Valid() && f.Valid() && rs != []
    ensures var q := AlignedAt(base, p, l.align);
            Stored(m, base, p, e, rs, l, f, sizes)
            <==> && FitsBy(m, q, l, f, sizes) && q + f.headerSize <= |m|
                 && IsValidVariableHeader(m, q)
                 && RecordBy(m, q, l, f, sizes) == rs[0]
                 && Stored(m, base, EndBy(m, q, l, f, sizes), e, rs[1..], l, f, sizes)
  {
    hide RecordBy, EndBy, IsValidVariableHeader, AlignedAt;
  }

  /** Stored records only depend on the bytes between their start and their end. */
  lemma StoredSpan(
    m: seq<byte>, m': seq<byte>, base: nat, p: nat, e: nat, rs: seq<Record>, l: Layout, f: Format, sizes: Sizes)
    requires l.Valid() && f.Valid() && p <= e && Stored(m, base, p, e, rs, l, f, sizes)
    requires SameSpan(m, p, m', p, e - p)
    ensures Stored(m', base, p, e, rs, l, f, sizes)
    decreases rs
  {
    hide RecordBy, EndBy, IsValidVariableHeader, AlignedAt, Sub, Stored;
    if rs == [] {
      StoredNone(m, base, p, e, l, f, sizes);
      StoredNone(m', base, p, e, l, f, sizes);
    } else {
      StoredHead(m, base, p, e, rs, l, f, sizes);
      StoredHead(m', base, p, e, rs, l, f, sizes);
      var q := AlignedAt(base, p, l.align);
      var next := EndBy(m, q, l, f, sizes);
      StoredBounds(m, base, next, e, rs[1..], l, f, sizes);
      SubSpan(m, p, m', p, e - p, q - p, next - q);
      SubSpan(m, p, m', p, e - p, next - p, e - next);
      SameRecordBy(m, q, m', q, l, f, sizes);
      StoredSpan(m, m', base, next, e, rs[1..], l, f, sizes);
    }
  }

  lemma StoredAppend(m: seq<byte>, base: nat, p: nat, e: nat, rs: seq<Record>, l: Layout, f: Format, sizes: Sizes)
    requires l.Valid() && f.Valid() && Stored(m, base, p, e, rs, l, f, sizes)
    requires FitsBy(m, AlignedAt(base, e, l.align), l, f, sizes)
    requires IsValidVariableHeader(m, AlignedAt(base, e, l.align))
    ensures var q := AlignedAt(base, e, l.align);
            Stored(m, base, p, EndBy(m, q, l, f, sizes), rs + [RecordBy(m, q, l, f, sizes)], l, f, sizes)
    decreases rs
  {
    hide RecordBy, EndBy, IsValidVariableHeader, AlignedAt;
    var r := RecordBy(m, AlignedAt(base, e, l.align), l, f, sizes);
    if rs == [] {
      assert rs + [r] == [r];
      assert [r][1..] == [];
    } else {
      assert (rs + [r])[1..] == rs[1..] + [r];
      StoredAppend(m, base, EndBy(m, AlignedAt(base, p, l.align), l, f, sizes), e, rs[1..], l, f, sizes);
    }
  }

  /** What is stored is what a walk over it visits, and that walk stops at the aligned end. */
  lemma StoredWalk(m: seq<byte>, base: nat, p: nat, e: nat, rs: seq<Record>, l: Layout, f: Format)
    requires l.Valid() && f.Valid() && Stored(m, base, p, e, rs, l, f, Reported)
    ensures var q, end := AlignedAt(base, p, l.align), AlignedAt(base, e, l.align);
            && WalkInside(m, base, q, end, l, f)
            && Walk(m, base, q, end, l, f) == rs
            && WalkStop(m, base, q, end, l, f) == end
    decreases rs
  {
    hide RecordAt, RecordBy, RecordEnd, EndBy, IsValidVariableHeader, AlignedAt;
    if rs != [] {
      StoredBounds(m, base, p, e, rs, l, f, Reported);
      StoredWalk(m, base, RecordEnd(m, AlignedAt(base, p, l.align), l, f), e, rs[1..], l, f);
    }
  }

  // ---- Walking what was stored with raw sizes ----

  /** The record is as long for the driver as its size fields say, up to the alignment of the next header. */
  predicate Tight(r: Record, l: Layout, f: Format)
    requires l.Valid()
  {
    AlignUp(Extent(f, l.padTo, |r.Shown().name|, |r.Shown().data|), l.align)
    == AlignUp(Extent(f, l.padTo, r.nameSize, r.dataSize), l.align)
  }

  ghost predicate AllTight(rs: seq<Record>, l: Layout, f: Format)
    requires l.Valid()
  {
    forall i :: 0 <= i < |rs| ==> Tight(rs[i], l, f)
  }

  function ShownAll(rs: seq<Record>): (shown: seq<Record>)
    ensures |shown| == |rs| && forall i :: 0 <= i < |rs| ==> shown[i] == rs[i].Shown()
  {
    if rs == [] then [] else [rs[0].Shown()] + ShownAll(rs[1..])
  }

  /** The next-header pointer of every stored record leads to where the next one was stored, that of the last
      to the aligned end. */
  ghost predicate WalkFollows(m: seq<byte>, base: nat, p: nat, e: nat, rs: seq<Record>, l: Layout, f: Format)
    requires l.Valid() && f.Valid() && Stored(m, base, p, e, rs, l, f, Raw)
    decreases rs
  {
    rs == [] ||
    (var q := AlignedAt(base, p, l.align);
     && GetNextVariablePtr(m, base, q, l, f) == AlignedAt(base, EndBy(m, q, l, f, Raw), l.align)
     && WalkFollows(m, base, EndBy(m, q, l, f, Raw), e, rs[1..], l, f))
  }

  lemma NextIsTight(m: seq<byte>, base: nat, q: nat, l: Layout, f: Format)
    requires l.Valid() && f.Valid() && FitsBy(m, q, l, f, Raw) && (base + q) % l.align == 0
    ensures GetNextVariablePtr(m, base, q, l, f) == AlignedAt(base, EndBy(m, q, l, f, Raw), l.align)
       <==> Tight(RecordBy(m, q, l, f, Raw), l, f)
  {
    hide Extent, AlignUp, RecordBy;
    RawIsShown(m, q, l, f);
    var r := RecordBy(m, q, l, f, Raw);
    AlignShift(Extent(f, l.padTo, |r.Shown().name|, |r.Shown().data|), base + q, l.align);
    AlignShift(Extent(f, l.padTo, r.nameSize, r.dataSize), base + q, l.align);
  }

  /** A walk visits every record where it was stored exactly if each one is as long as its size fields say. */
  lemma {:induction false} FollowsExactlyWhen(
    m: seq<byte>, base: nat, p: nat, e: nat, rs: seq<Record>, l: Layout, f: Format)
    requires l.Valid() && f.Valid() && Stored(m, base, p, e, rs, l, f, Raw)
    ensures WalkFollows(m, base, p, e, rs, l, f) <==> AllTight(rs, l, f)
    decreases rs
  {
    hide RecordBy, EndBy, IsValidVariableHeader, Tight, GetNextVariablePtr;
    if rs != [] {
      var q := AlignedAt(base, p, l.align);
      NextIsTight(m, base, q, l, f);
      FollowsExactlyWhen(m, base, EndBy(m, q, l, f, Raw), e, rs[1..], l, f);
      assert AllTight(rs, l, f) <==> Tight(rs[0], l, f) && AllTight(rs[1..], l, f) by {
        assert rs == [rs[0]] + rs[1..];
      }
    }
  }

  /** Then it reads what is shown of each, and stops at the aligned end. */
  lemma {:induction false} FollowingWalk(m: seq<byte>, base: nat, p: nat, e: nat, rs: seq<Record>, l: Layout, f: Format)
    requires l.Valid() && f.Valid() && Stored(m, base, p, e, rs, l, f, Raw) && WalkFollows(m, base, p, e, rs, l, f)
    ensures var q, end := AlignedAt(base, p, l.align), AlignedAt(base, e, l.align);
            && WalkInside(m, base, q, end, l, f)
            && Walk(m, base, q, end, l, f) == ShownAll(rs)
            && WalkStop(m, base, q, end, l, f) == end
    decreases rs
  {
    hide RecordAt, RecordBy, RecordEnd, EndBy, IsValidVariableHeader, AlignedAt, Extent;
    if rs != [] {
      StoredBounds(m, base, p, e, rs, l, f, Raw);
      var q := AlignedAt(base, p, l.align);
      RawIsShown(m, q, l, f);
      FollowingWalk(m, base, EndBy(m, q, l, f, Raw), e, rs[1..], l, f);
    }
  }

  lemma PackedSizePrefix(s: nat, rs: seq<Record>, more: seq<Record>, l: Layout)
    requires l.Valid()
    ensures PackedSize(s, rs, l) <= PackedSize(s, rs + more, l)
    decreases more
  {
    if more == [] {
      assert rs + more == rs;
    } else {
      PackedSizeAppend(s, rs, more[0], l);
      PackedSizePrefix(s, rs + [more[0]], more[1..], l);
      assert rs + [more[0]] + more[1..] == rs + more;
    }
  }

  lemma AddedHead(r: Record, rest: seq<Record>)
    ensures Added([r] + rest) == if r.state == VAR_ADDED then [r] + Added(rest) else Added(rest)
  {
    assert ([r] + rest)[1..] == rest;
  }

  lemma AddedPrefix(rs: seq<Record>, more: seq<Record>)
    ensures Added(rs + more) == Added(rs) + Added(more)
  {
    if rs == [] {
      assert rs + more == more && Added(rs) == [];
    } else {
      hide Added;
      var rest := rs[1..];
      assert rs == [rs[0]] + rest && rs + more == [rs[0]] + (rest + more);
      AddedHead(rs[0], rest);
      AddedHead(rs[0], rest + more);
      AddedPrefix(rest, more);
    }
  }

  // ---- The first pass bounds the second ----

  /** The position the second pass reaches when it writes rs from p on: it aligns addresses. */
  function SecondPassEnd(base: nat, p: nat, rs: seq<Record>, l: Layout): nat
    requires l.Valid()
    decreases rs
  {
    if rs == [] then p
    else
      var q := AlignedAt(base, p, l.align);
      SecondPassEnd(base, q + Extent(l.normal, l.padTo, rs[0].nameSize, rs[0].dataSize), rs[1..], l)
  }

  /** One aligned step of the second pass stays within the misalignment of the base of the first pass. */
  lemma AlignedStep(base: nat, p: nat, s: nat, align: nat)
    requires align > 0 && p <= s + (AlignUp(base, align) - base)
    ensures AlignedAt(base, p, align) <= AlignUp(s, align) + (AlignUp(base, align) - base)
  {
    AlignMonotone(base + p, s + AlignUp(base, align), align);
    AlignShift(s, AlignUp(base, align), align);
  }

  lemma SecondPassWithin(base: nat, p: nat, s: nat, rs: seq<Record>, l: Layout)
    requires l.Valid() && p <= s + (AlignUp(base, l.align) - base)
    ensures SecondPassEnd(base, p, rs, l) <= PackedSize(s, rs, l) + (AlignUp(base, l.align) - base)
    decreases rs
  {
    hide Extent, AlignUp, AlignedAt;
    if rs != [] {
      AlignedStep(base, p, s, l.align);
      var extent := Extent(l.normal, l.padTo, rs[0].nameSize, rs[0].dataSize);
      SecondPassWithin(base, AlignedAt(base, p, l.align) + extent, AlignUp(s, l.align) + extent, rs[1..], l);
    }
  }

  /** For every list of records and every base address of the HOB, HEADER_ALIGNMENT - 1 spare bytes
      are enough for the second pass. */
  lemma FirstPassBoundsSecond(hobBase: nat, rs: seq<Record>, l: Layout)
    requires l.Valid()
    ensures SecondPassEnd(hobBase, l.storeHeader, rs, l) <= PackedSize(l.storeHeader, rs, l) + l.align - 1
  {
    SecondPassWithin(hobBase, l.storeHeader, l.storeHeader, rs, l);
  }

  // ---- Writing one record ----

  /** A buffer after the header fields of a record have been stored at q, in the order of the source.
      StartId, State, Reserved and Attributes sit together at the front of the header. */
  function HeaderPatched(
    m: seq<byte>, q: nat, front: seq<byte>, nameSize: seq<byte>, dataSize: seq<byte>, guid: seq<byte>, f: Format): (r: seq<byte>)
    requires f.Valid() && q + f.headerSize <= |m|
    requires |front| == 8 && |nameSize| == 4 && |dataSize| == 4 && |guid| == 16
    ensures |r| == |m|
  {
    var m1 := Patch(m, q, front);
    var m2 := Patch(m1, q + f.nameSizeAt, nameSize);
    var m3 := Patch(m2, q + f.dataSizeAt, dataSize);
    Patch(m3, q + f.guidAt, guid)
  }

  lemma HeaderPatchedFields(
    m: seq<byte>, q: nat, front: seq<byte>, nameSize: seq<byte>, dataSize: seq<byte>, guid: seq<byte>, f: Format)
    requires f.Valid() && q + f.headerSize <= |m|
    requires |front| == 8 && |nameSize| == 4 && |dataSize| == 4 && |guid| == 16
    ensures var r := HeaderPatched(m, q, front, nameSize, dataSize, guid, f);
            && Sub(r, q, 8) == front
            && Sub(r, q + f.nameSizeAt, 4) == nameSize
            && Sub(r, q + f.dataSizeAt, 4) == dataSize
            && Sub(r, q + f.guidAt, 16) == guid
  {
    hide Patch, Sub;
    var m1 := Patch(m, q, front);
    PatchReads(m, q, front);
    var m2 := Patch(m1, q + f.nameSizeAt, nameSize);
    PatchReads(m1, q + f.nameSizeAt, nameSize);
    PatchKeeps(m1, q + f.nameSizeAt, nameSize, q, 8);
    var m3 := Patch(m2, q + f.dataSizeAt, dataSize);
    PatchReads(m2, q + f.dataSizeAt, dataSize);
    PatchKeeps(m2, q + f.dataSizeAt, dataSize, q, 8);
    PatchKeeps(m2, q + f.dataSizeAt, dataSize, q + f.nameSizeAt, 4);
    PatchReads(m3, q + f.guidAt, guid);
    PatchKeeps(m3, q + f.guidAt, guid, q, 8);
    PatchKeeps(m3, q + f.guidAt, guid, q + f.nameSizeAt, 4);
    PatchKeeps(m3, q + f.guidAt, guid, q + f.dataSizeAt, 4);
  }

  lemma HeaderPatchedKeeps(
    m: seq<byte>, q: nat, front: seq<byte>, nameSize: seq<byte>, dataSize: seq<byte>, guid: seq<byte>, f: Format)
    requires f.Valid() && q + f.headerSize <= |m|
    requires |front| == 8 && |nameSize| == 4 && |dataSize| == 4 && |guid| == 16
    ensures Sub(HeaderPatched(m, q, front, nameSize, dataSize, guid, f), 0, q) == Sub(m, 0, q)
  {
    hide Patch, Sub;
    var m1 := Patch(m, q, front);
    PatchKeeps(m, q, front, 0, q);
    var m2 := Patch(m1, q + f.nameSizeAt, nameSize);
    PatchKeeps(m1, q + f.nameSizeAt, nameSize, 0, q);
    var m3 := Patch(m2, q + f.dataSizeAt, dataSize);
    PatchKeeps(m2, q + f.dataSizeAt, dataSize, 0, q);
    PatchKeeps(m3, q + f.guidAt, guid, 0, q);
  }

  /** The whole record copied: header fields, then the name, then the data at its padded place. */
  function RecordPatched(m: seq<byte>, q: nat, src: seq<byte>, p: nat, l: Layout): (r: seq<byte>)
    requires l.Valid() && FitsBy(src, p, l, l.auth, Raw)
    requires var rec := RecordBy(src, p, l, l.auth, Raw);
             q + Extent(l.normal, l.padTo, rec.nameSize, rec.dataSize) <= |m|
    ensures |r| == |m|
  {
    var rec := RecordBy(src, p, l, l.auth, Raw);
    var m1 := HeaderPatched(m, q, Sub(src, p, 8), Sub(src, p + l.auth.nameSizeAt, 4),
                            Sub(src, p + l.auth.dataSizeAt, 4), rec.guid, l.normal);
    var m2 := Patch(m1, q + l.normal.headerSize, rec.name);
    Patch(m2, q + DataOffset(l.normal, l.padTo, rec.nameSize), rec.data)
  }

  /** Equal field bytes at the front and equal size fields give equal sizes, whatever the formats. */
  lemma SameFields(m: seq<byte>, p: nat, f: Format, m': seq<byte>, q: nat, g: Format)
    requires f.Valid() && g.Valid() && p + f.headerSize <= |m| && q + g.headerSize <= |m'|
    requires Sub(m, p, 8) == Sub(m', q, 8)
    requires Sub(m, p + f.nameSizeAt, 4) == Sub(m', q + g.nameSizeAt, 4)
    requires Sub(m, p + f.dataSizeAt, 4) == Sub(m', q + g.dataSizeAt, 4)
    ensures NameSizeOfVariable(m, p, f) == NameSizeOfVariable(m', q, g)
    ensures DataSizeOfVariable(m, p, f) == DataSizeOfVariable(m', q, g)
    ensures m[p + 2] == m'[q + 2] && m[p + 3] == m'[q + 3]
    ensures Field32(m, p + 4) == Field32(m', q + 4)
    ensures Field32(m, p + f.nameSizeAt) == Field32(m', q + g.nameSizeAt)
    ensures Field32(m, p + f.dataSizeAt) == Field32(m', q + g.dataSizeAt)
    ensures IsValidVariableHeader(m, p) == IsValidVariableHeader(m', q)
  {
    SameByte(m, p, m', q, 8, 2);
    SameByte(m, p, m', q, 8, 3);
    SameField32(m, p, m', q, 8, 4);
    SubSpan(m, p, m', q, 8, 0, 2);
  }

  lemma RecordPatchedReads(m: seq<byte>, q: nat, src: seq<byte>, p: nat, l: Layout)
    requires l.Valid() && FitsBy(src, p, l, l.auth, Raw)
    requires IsValidVariableHeader(src, p)
    requires var rec := RecordBy(src, p, l, l.auth, Raw);
             q + Extent(l.normal, l.padTo, rec.nameSize, rec.dataSize) <= |m|
    ensures var r, rec := RecordPatched(m, q, src, p, l), RecordBy(src, p, l, l.auth, Raw);
            && FitsBy(r, q, l, l.normal, Raw)
            && IsValidVariableHeader(r, q)
            && RecordBy(r, q, l, l.normal, Raw) == rec
            && EndBy(r, q, l, l.normal, Raw) == q + Extent(l.normal, l.padTo, rec.nameSize, rec.dataSize)
            && Sub(r, 0, q) == Sub(m, 0, q)
  {
    hide Patch, Sub, Pad, NameSizeOfVariable, DataSizeOfVariable, Field32, HeaderPatched, RecordAt, RecordEnd;
    var rec, f := RecordBy(src, p, l, l.auth, Raw), l.normal;
    var front, nameSize, dataSize := Sub(src, p, 8), Sub(src, p + l.auth.nameSizeAt, 4), Sub(src, p + l.auth.dataSizeAt, 4);
    var m1 := HeaderPatched(m, q, front, nameSize, dataSize, rec.guid, f);
    HeaderPatchedFields(m, q, front, nameSize, dataSize, rec.guid, f);
    HeaderPatchedKeeps(m, q, front, nameSize, dataSize, rec.guid, f);
    SameFields(src, p, l.auth, m1, q, f);
    var m2 := Patch(m1, q + f.headerSize, rec.name);
    PatchReads(m1, q + f.headerSize, rec.name);
    PatchKeeps(m1, q + f.headerSize, rec.name, q, f.headerSize);
    PatchKeeps(m1, q + f.headerSize, rec.name, 0, q);
    var data := q + DataOffset(f, l.padTo, rec.nameSize);
    var m3 := Patch(m2, data, rec.data);
    PatchReads(m2, data, rec.data);
    PatchKeeps(m2, data, rec.data, q, f.headerSize);
    PatchKeeps(m2, data, rec.data, 0, q);
    PatchKeeps(m2, data, rec.data, q + f.headerSize, rec.nameSize);
    SameHeader(m1, q, m3, q, f);
    SameSizes(m1, q, m3, q, f);
  }

  /** With raw sizes, name and data are where the size fields say. */
  lemma RawParts(m: seq<byte>, p: nat, l: Layout, f: Format)
    requires l.Valid() && f.Valid() && FitsBy(m, p, l, f, Raw)
    ensures var rec := RecordBy(m, p, l, f, Raw);
            && rec.nameSize == Field32(m, p + f.nameSizeAt)
            && rec.dataSize == Field32(m, p + f.dataSizeAt)
            && EndBy(m, p, l, f, Raw) == p + Extent(f, l.padTo, rec.nameSize, rec.dataSize)
            && p + f.headerSize + rec.nameSize <= |m|
            && p + DataOffset(f, l.padTo, rec.nameSize) + rec.dataSize <= |m|
            && Sub(m, p + f.headerSize, rec.nameSize) == rec.name
            && Sub(m, p + DataOffset(f, l.padTo, rec.nameSize), rec.dataSize) == rec.data
            && Sub(m, p + f.guidAt, 16) == rec.guid
  {
    hide Pad, Field32, HasAllOnesField;
  }

  /** Copies the record at p, field by field, to a normal record at q; e is the end of the copy. */
  method CopyRecord(src: array<byte>, p: nat, dst: array<byte>, q: nat, l: Layout) returns (e: nat)
    requires l.Valid() && src != dst
    requires FitsBy(src[..], p, l, l.auth, Raw)
    requires var rec := RecordBy(src[..], p, l, l.auth, Raw);
             q + Extent(l.normal, l.padTo, rec.nameSize, rec.dataSize) <= dst.Length
    modifies dst
    ensures dst[..] == RecordPatched(old(dst[..]), q, src[..], p, l)
    ensures var rec := RecordBy(src[..], p, l, l.auth, Raw);
            e == q + Extent(l.normal, l.padTo, rec.nameSize, rec.dataSize)
  {
    hide Patch, Pad, Sub, RecordBy, Field32, EndBy;
    var m, auth := src[..], l.auth;
    RawParts(m, p, l, auth);
    var nameSize, dataSize := Field32(m, p + auth.nameSizeAt), Field32(m, p + auth.dataSizeAt);
    Put(dst, q, Sub(m, p, 8));
    Put(dst, q + l.normal.nameSizeAt, Sub(m, p + auth.nameSizeAt, 4));
    Put(dst, q + l.normal.dataSizeAt, Sub(m, p + auth.dataSizeAt, 4));
    Put(dst, q + l.normal.guidAt, Sub(m, p + auth.guidAt, 16));
    var to, from := q + l.normal.headerSize, p + auth.headerSize;
    Put(dst, to, Sub(m, from, nameSize));
    to := to + nameSize + Pad(nameSize, l.padTo);
    from := from + nameSize + Pad(nameSize, l.padTo);
    Put(dst, to, Sub(m, from, dataSize));
    e := to + dataSize + Pad(dataSize, l.padTo);
  }

  /** The first pass: the size of a normal store for the records to be copied. */
  method RequiredSize(src: array<byte>, srcBase: nat, l: Layout) returns (size: nat)
    requires l.Valid() && IsStore(src[..], srcBase, l, l.auth)
    ensures size == PackedSize(l.storeHeader, Added(Records(src[..], srcBase, l, l.auth)), l)
  {
    hide RecordAt, RecordEnd, AlignUp, Extent, Field32, Sub;
    var m := src[..];
    ghost var all := Records(m, srcBase, l, l.auth);
    ghost var done: seq<Record> := [];
    size := l.storeHeader;
    var p, end := GetStartPointer(srcBase, l), GetEndPointer(m, srcBase, l);
    while p < end && IsValidVariableHeader(m, p)
      invariant WalkInside(m, srcBase, p, end, l, l.auth)
      invariant done + Walk(m, srcBase, p, end, l, l.auth) == all
      invariant size == PackedSize(l.storeHeader, Added(done), l)
      decreases end - p
    {
      WalkTurn(m, srcBase, p, end, l, l.auth);
      ghost var rec := RecordAt(m, p, l, l.auth);
      if m[p + 2] == VAR_ADDED {
        var nameSize := Field32(m, p + l.auth.nameSizeAt);
        var dataSize := Field32(m, p + l.auth.dataSizeAt);
        size := AlignUp(size, l.align) + Extent(l.normal, l.padTo, nameSize, dataSize);
        PackedSizeAppend(l.storeHeader, Added(done), rec, l);
      }
      AddedAppend(done, rec);
      p := GetNextVariablePtr(m, srcBase, p, l, l.auth);
      MoveHead(done, rec, Walk(m, srcBase, p, end, l, l.auth));
      done := done + [rec];
    }
    assert done + [] == done;
  }

  // ---- The second pass ----

  /** The record after done, aligned behind position v, fits the HOB that the first pass asked for. */
  lemma NextCopyFits(hobBase: nat, v: nat, done: seq<Record>, rec: Record, rest: seq<Record>, l: Layout)
    requires l.Valid() && rec.state == VAR_ADDED
    requires v <= PackedSize(l.storeHeader, Added(done), l) + (AlignUp(hobBase, l.align) - hobBase)
    ensures var e := AlignedAt(hobBase, v, l.align) + Extent(l.normal, l.padTo, rec.nameSize, rec.dataSize);
            && e <= PackedSize(l.storeHeader, Added(done + [rec]), l) + (AlignUp(hobBase, l.align) - hobBase)
            && e <= PackedSize(l.storeHeader, Added(done + ([rec] + rest)), l) + l.align - 1
  {
    hide Extent, AlignedAt, Added, PackedSize;
    AlignedStep(hobBase, v, PackedSize(l.storeHeader, Added(done), l), l.align);
    AddedAppend(done, rec);
    PackedSizeAppend(l.storeHeader, Added(done), rec, l);
    MoveHead(done, rec, rest);
    AddedPrefix(done + [rec], rest);
    PackedSizePrefix(l.storeHeader, Added(done + [rec]), Added(rest), l);
  }

  /** Copying one record behind v extends what is stored by that record. */
  lemma CopyExtendsStored(
    m: seq<byte>, hobBase: nat, v: nat, rs: seq<Record>, src: seq<byte>, p: nat, l: Layout)
    requires l.Valid() && l.storeHeader <= v <= |m| && Stored(m, hobBase, l.storeHeader, v, rs, l, l.normal, Raw)
    requires FitsBy(src, p, l, l.auth, Raw) && IsValidVariableHeader(src, p)
    requires var rec := RecordBy(src, p, l, l.auth, Raw);
             AlignedAt(hobBase, v, l.align) + Extent(l.normal, l.padTo, rec.nameSize, rec.dataSize) <= |m|
    ensures var q, rec := AlignedAt(hobBase, v, l.align), RecordBy(src, p, l, l.auth, Raw);
            var m' := RecordPatched(m, q, src, p, l);
            && Stored(m', hobBase, l.storeHeader, q + Extent(l.normal, l.padTo, rec.nameSize, rec.dataSize),
                      rs + [rec], l, l.normal, Raw)
            && Sub(m', 0, l.storeHeader) == Sub(m, 0, l.storeHeader)
  {
    hide Stored, RecordBy, FitsBy, EndBy, RecordPatched, IsValidVariableHeader, Extent, Sub;
    var q := AlignedAt(hobBase, v, l.align);
    var m' := RecordPatched(m, q, src, p, l);
    RecordPatchedReads(m, q, src, p, l);
    SubSpan(m, 0, m', 0, q, l.storeHeader, v - l.storeHeader);
    SubSpan(m, 0, m', 0, q, 0, l.storeHeader);
    StoredSpan(m, m', hobBase, l.storeHeader, v, rs, l, l.normal, Raw);
    StoredAppend(m', hobBase, l.storeHeader, v, rs, l, l.normal, Raw);
  }

  lemma NothingStored(m: seq<byte>, hobBase: nat, l: Layout)
    requires l.Valid()
    ensures Stored(m, hobBase, l.storeHeader, l.storeHeader, [], l, l.normal, Raw)
    ensures PackedSize(l.storeHeader, Added([]), l) == l.storeHeader
  {
  }

  /** The new store once its size field holds the end of what is stored. */
  lemma SizedStore(m: seq<byte>, hobBase: nat, v: nat, rs: seq<Record>, l: Layout, f: Format, sizes: Sizes)
    requires l.Valid() && f.Valid() && l.storeHeader <= v <= |m| && v <= ALL_ONES_32
    requires Stored(m, hobBase, l.storeHeader, v, rs, l, f, sizes)
    ensures var m' := Patch(m, STORE_SIZE_AT, ToLe32(v));
            && StoreSize(m') == v
            && Stored(m', hobBase, l.storeHeader, v, rs, l, f, sizes)
  {
    hide Patch, Stored, ToLe32, Le32, Sub;
    var m' := Patch(m, STORE_SIZE_AT, ToLe32(v));
    PatchReads(m, STORE_SIZE_AT, ToLe32(v));
    PatchKeeps(m, STORE_SIZE_AT, ToLe32(v), l.storeHeader, v - l.storeHeader);
    StoredSpan(m, m', hobBase, l.storeHeader, v, rs, l, f, sizes);
  }

  /** What is stored ends where the second pass does. */
  lemma {:induction false} StoredEnd(m: seq<byte>, base: nat, p: nat, e: nat, rs: seq<Record>, l: Layout)
    requires l.Valid() && Stored(m, base, p, e, rs, l, l.normal, Raw)
    ensures e == SecondPassEnd(base, p, rs, l)
    decreases rs
  {
    hide AlignedAt, Extent, IsValidVariableHeader, Sub, Field32;
    if rs != [] {
      var q := AlignedAt(base, p, l.align);
      RawParts(m, q, l, l.normal);
      StoredEnd(m, base, EndBy(m, q, l, l.normal, Raw), e, rs[1..], l);
    }
  }

  /** A store of raw records as its walk reads it. */
  lemma FollowingStore(m: seq<byte>, hobBase: nat, rs: seq<Record>, l: Layout, f: Format)
    requires l.Valid() && f.Valid() && l.storeHeader <= |m|
    requires Stored(m, hobBase, l.storeHeader, StoreSize(m), rs, l, f, Raw) && AllTight(rs, l, f)
    ensures IsStore(m, hobBase, l, f) && Records(m, hobBase, l, f) == ShownAll(rs) && EndsAtEnd(m, hobBase, l, f)
  {
    hide Stored, Walk, WalkInside, WalkStop, StoreSize, AllTight;
    FollowsExactlyWhen(m, hobBase, l.storeHeader, StoreSize(m), rs, l, f);
    FollowingWalk(m, hobBase, l.storeHeader, StoreSize(m), rs, l, f);
  }

  /** Setting the size leaves the signature, format and state of the header. */
  lemma SizedHeader(m: seq<byte>, header: seq<byte>, v: nat, l: Layout)
    requires l.Valid() && l.storeHeader <= |m| && v <= ALL_ONES_32 && Sub(m, 0, l.storeHeader) == header
    ensures var m' := Patch(m, STORE_SIZE_AT, ToLe32(v));
            && Sub(m', 0, STORE_SIZE_AT) == header[..STORE_SIZE_AT]
            && m'[STORE_FORMAT_AT] == header[STORE_FORMAT_AT]
            && m'[STORE_STATE_AT] == header[STORE_STATE_AT]
  {
    hide ToLe32;
    PatchKeeps(m, STORE_SIZE_AT, ToLe32(v), 0, STORE_SIZE_AT);
  }

  /** A HOB of the given size with the signature, format and state of the new store; the allocator
      leaves the rest of it arbitrary. */
  method NewStore(src: array<byte>, size: nat, variableGuid: seq<byte>, l: Layout) returns (hob: array<byte>)
    requires l.Valid() && |variableGuid| == STORE_SIZE_AT
    requires src.Length >= l.storeHeader && size >= l.storeHeader
    ensures fresh(hob) && hob.Length == size && src[..] == old(src[..])
    ensures var header := Sub(hob[..], 0, l.storeHeader);
            && header[..STORE_SIZE_AT] == variableGuid
            && header[STORE_FORMAT_AT] == src[STORE_FORMAT_AT]
            && header[STORE_STATE_AT] == src[STORE_STATE_AT]
  {
    hob := new byte[size];
    Put(hob, 0, variableGuid);
    hob[STORE_FORMAT_AT] := src[STORE_FORMAT_AT];
    hob[STORE_STATE_AT] := src[STORE_STATE_AT];
  }

  /** hob is a store of copies of the added records, by their raw sizes. */
  ghost predicate Converted(src: seq<byte>, srcBase: nat, hob: seq<byte>, hobBase: nat, l: Layout)
    requires l.Valid() && IsStore(src, srcBase, l, l.auth) && CanCopy(src, srcBase, l)
  {
    && |hob| >= l.storeHeader && l.storeHeader <= StoreSize(hob) <= |hob|
    && Stored(hob, hobBase, l.storeHeader, StoreSize(hob), Copies(src, srcBase, l), l, l.normal, Raw)
  }

  /** The walk of hob visits exactly the added records of src, in order, and stops exactly at its end. */
  ghost predicate KeepsAdded(src: seq<byte>, srcBase: nat, hob: seq<byte>, hobBase: nat, l: Layout)
    requires l.Valid() && IsStore(src, srcBase, l, l.auth)
  {
    && IsStore(hob, hobBase, l, l.normal)
    && Records(hob, hobBase, l, l.normal) == Added(Records(src, srcBase, l, l.auth))
    && EndsAtEnd(hob, hobBase, l, l.normal)
  }

  /** The walk of a converted store follows the copies exactly if each one is as long for the driver as its size
      fields say, as it is without an all-ones field beside a size; then the result has the added records. */
  lemma ConvertedWalk(src: seq<byte>, srcBase: nat, hob: seq<byte>, hobBase: nat, l: Layout)
    requires l.Valid() && IsStore(src, srcBase, l, l.auth) && CanCopy(src, srcBase, l)
    requires Converted(src, srcBase, hob, hobBase, l)
    ensures var rs := Copies(src, srcBase, l);
            && (WalkFollows(hob, hobBase, l.storeHeader, StoreSize(hob), rs, l, l.normal) <==> AllTight(rs, l, l.normal))
            && (AllTight(rs, l, l.normal) ==> KeepsAdded(src, srcBase, hob, hobBase, l))
            && (WellFormed(Records(src, srcBase, l, l.auth)) ==> AllTight(rs, l, l.normal))
            && StoreSize(hob) == SecondPassEnd(hobBase, l.storeHeader, rs, l)
  {
    hide Stored, Walk, WalkInside, StoreSize, AllTight, WalkFollows, ToCopy, CopyInside, WellFormed, ShownAll, Added, EndsAtEnd, SecondPassEnd;
    var rs, start, end := Copies(src, srcBase, l), GetStartPointer(srcBase, l), GetEndPointer(src, srcBase, l);
    FollowsExactlyWhen(hob, hobBase, l.storeHeader, StoreSize(hob), rs, l, l.normal);
    StoredEnd(hob, hobBase, l.storeHeader, StoreSize(hob), rs, l);
    ShownCopies(src, srcBase, start, end, l, l.auth);
    if AllTight(rs, l, l.normal) {
      FollowingStore(hob, hobBase, rs, l, l.normal);
    }
    if WellFormed(Records(src, srcBase, l, l.auth)) {
      WellFormedCopies(src, srcBase, start, end, l, l.auth, l.normal);
    }
  }

  /** Builds the normal store for recovery mode in a HOB that the allocator places at hobBase. */
  method BuildDefaultDataHobForRecoveryVariable(
    src: array<byte>, srcBase: nat, hobBase: nat, variableGuid: seq<byte>, l: Layout) returns (hob: array<byte>)
    requires l.Valid() && |variableGuid| == STORE_SIZE_AT
    requires IsStore(src[..], srcBase, l, l.auth) && CanCopy(src[..], srcBase, l)
    // The sizes are UINT32.
    requires PackedSize(l.storeHeader, Added(Records(src[..], srcBase, l, l.auth)), l) + l.align - 1 <= ALL_ONES_32
    ensures fresh(hob) && src[..] == old(src[..])
    ensures Converted(src[..], srcBase, hob[..], hobBase, l)
    ensures AllTight(Copies(src[..], srcBase, l), l, l.normal) ==> KeepsAdded(src[..], srcBase, hob[..], hobBase, l)
    ensures WellFormed(Records(src[..], srcBase, l, l.auth)) ==> KeepsAdded(src[..], srcBase, hob[..], hobBase, l)
    ensures Sub(hob[..], 0, STORE_SIZE_AT) == variableGuid
    ensures hob[STORE_FORMAT_AT] == src[STORE_FORMAT_AT] && hob[STORE_STATE_AT] == src[STORE_STATE_AT]
  {
    hide RecordAt, RecordBy, RecordEnd, EndBy, AlignUp, Extent, Field32, Sub, Patch, RecordPatched, Stored, PackedSize,
         Added, AllTight, WellFormed, KeepsAdded, Walk, WalkInside, ToCopy, CopyInside, GetNextVariablePtr, SecondPassEnd;
    var m := src[..];
    ghost var all := Records(m, srcBase, l, l.auth);
    var size := RequiredSize(src, srcBase, l);
    PackedSizeGrows(l.storeHeader, Added(all), l);
    hob := NewStore(src, size + l.align - 1, variableGuid, l);
    ghost var header := Sub(hob[..], 0, l.storeHeader);

    ghost var done: seq<Record>, copied: seq<Record> := [], [];
    NothingStored(hob[..], hobBase, l);
    var p, end := GetStartPointer(srcBase, l), GetEndPointer(m, srcBase, l);
    ghost var copies := Copies(m, srcBase, l);
    WalkStarts(m, srcBase, p, end, l, l.auth);
    var v := l.storeHeader;
    while p < end && IsValidVariableHeader(m, p)
      invariant src[..] == m
      invariant WalkInside(m, srcBase, p, end, l, l.auth) && (p < end ==> p + 2 <= |m|)
      invariant done + Walk(m, srcBase, p, end, l, l.auth) == all
      invariant CopyInside(m, srcBase, p, end, l, l.auth)
      invariant copied + ToCopy(m, srcBase, p, end, l, l.auth) == copies
      invariant l.storeHeader <= v <= hob.Length
      invariant v <= PackedSize(l.storeHeader, Added(done), l) + (AlignUp(hobBase, l.align) - hobBase)
      invariant Stored(hob[..], hobBase, l.storeHeader, v, copied, l, l.normal, Raw)
      invariant Sub(hob[..], 0, l.storeHeader) == header
      decreases if p < end then end - p else 0
    {
      WalkTurn(m, srcBase, p, end, l, l.auth);
      CopyTurn(m, srcBase, p, end, l, l.auth);
      ghost var rec := RecordAt(m, p, l, l.auth);
      ghost var rest := Walk(m, srcBase, GetNextVariablePtr(m, srcBase, p, l, l.auth), end, l, l.auth);
      if m[p + 2] == VAR_ADDED {
        var q := AlignedAt(hobBase, v, l.align);
        RawParts(m, p, l, l.auth);
        NextCopyFits(hobBase, v, done, rec, rest, l);
        CopyExtendsStored(hob[..], hobBase, v, copied, m, p, l);
        ghost var copy := RecordBy(m, p, l, l.auth, Raw);
        v := CopyRecord(src, p, hob, q, l);
        assert src[..] == m;
        assert Stored(hob[..], hobBase, l.storeHeader, v, copied + [copy], l, l.normal, Raw);
        MoveHead(copied, copy, ToCopy(m, srcBase, GetNextVariablePtr(m, srcBase, p, l, l.auth), end, l, l.auth));
        copied := copied + [copy];
      }
      AddedAppend(done, rec);
      MoveHead(done, rec, rest);
      done := done + [rec];
      p := GetNextVariablePtr(m, srcBase, p, l, l.auth);
    }
    assert done + [] == done;
    assert copied + [] == copied;
    NothingLeft(m, srcBase, p, end, l, l.auth);
    SizedStore(hob[..], hobBase, v, copies, l, l.normal, Raw);
    ghost var built := hob[..];
    SizedHeader(built, header, v, l);
    Put(hob, STORE_SIZE_AT, ToLe32(v));
    ConvertedWalk(m, srcBase, hob[..], hobBase, l);
  }
}
