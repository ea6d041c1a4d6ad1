/**
 Loading the default variable store of a board into a HOB. The store is moved to an address of another
 alignment; the size-optimised library then patches it with the deltas of the sections on the way to
 the one that lists the wanted defaults.
 */
module DefaultStore {
  import opened Bytes
  import opened VariableStore

  /** The walk that starts at an aligned address sees the same records after the bytes it walks have
      moved to another aligned address. */
  lemma RelocatedWalk(
    m: seq<byte>, base: nat, p: nat, end: nat, m': seq<byte>, base': nat, p': nat, end': nat, l: Layout, f: Format)
    requires l.Valid() && f.Valid() && WalkInside(m, base, p, end, l, f)
    requires (base + p) % l.align == 0 && (base' + p') % l.align == 0 && end - p == end' - p'
    requires p <= |m| ==> SameSpan(m, p, m', p', |m| - p)
    ensures WalkInside(m', base', p', end', l, f)
    ensures Walk(m', base', p', end', l, f) == Walk(m, base, p, end, l, f)
    ensures WalkStop(m', base', p', end', l, f) - p' == WalkStop(m, base, p, end, l, f) - p
    decreases end - p
  {
    hide Pad, AlignedAt, RecordAt, Sub, RecordEnd, HasAllOnesField, IsValidVariableHeader;
    if p < end {
      SubSpan(m, p, m', p', |m| - p, 0, 2);
      SameStart(m, p, m', p', |m| - p);
      if IsValidVariableHeader(m, p) {
        var e, next := RecordEnd(m, p, l, f), GetNextVariablePtr(m, base, p, l, f);
        SubSpan(m, p, m', p', |m| - p, 0, e - p);
        SameRecord(m, p, m', p', l, f);
        var next' := GetNextVariablePtr(m', base', p', l, f);
        RelocatedAlign(base, p, base', p', e - p, l.align);
        if next <= |m| {
          SubSpan(m, p, m', p', |m| - p, next - p, |m| - next);
        }
        RelocatedWalk(m, base, next, end, m', base', next', end', l, f);
      }
    }
  }

  lemma SameStart(m: seq<byte>, p: nat, m': seq<byte>, p': nat, n: nat)
    requires SameSpan(m, p, m', p', n) && n >= 2
    ensures IsValidVariableHeader(m, p) == IsValidVariableHeader(m', p')
  {
    SubSpan(m, p, m', p', n, 0, 2);
  }

  /** Aligning at the same distance from two aligned addresses moves both equally. */
  lemma RelocatedAlign(base: nat, p: nat, base': nat, p': nat, d: nat, align: nat)
    requires align > 0 && (base + p) % align == 0 && (base' + p') % align == 0
    ensures AlignedAt(base, p + d, align) - p == AlignedAt(base', p' + d, align) - p'
  {
    hide AlignUp;
    AlignShift(d, base + p, align);
    AlignShift(d, base' + p', align);
  }

  // ---- Moving a store ----

  /** The store m' at base' is the store m at base with its variable data moved to its own first
      aligned address. m is exactly the bytes its size field counts. */
  ghost predicate Relocated(m: seq<byte>, base: nat, m': seq<byte>, base': nat, l: Layout)
    requires l.Valid()
  {
    var from, to := GetStartPointer(base, l), GetStartPointer(base', l);
    && l.storeHeader <= |m'|
    && from <= |m|
    && StoreSize(m) == |m|
    && StoreSize(m') == |m| - from + to
    && SameSpan(m, from, m', to, |m| - from)
  }

  lemma RelocatedRecords(m: seq<byte>, base: nat, m': seq<byte>, base': nat, l: Layout, f: Format)
    requires l.Valid() && f.Valid() && Relocated(m, base, m', base', l) && IsStore(m, base, l, f)
    ensures IsStore(m', base', l, f)
    ensures Records(m', base', l, f) == Records(m, base, l, f)
    ensures EndsAtEnd(m', base', l, f) == EndsAtEnd(m, base, l, f)
  {
    hide Sub, Walk, WalkInside, WalkStop, AlignUp;
    var from, to := GetStartPointer(base, l), GetStartPointer(base', l);
    RelocatedAlign(base, from, base', to, |m| - from, l.align);
    RelocatedWalk(m, base, from, GetEndPointer(m, base, l), m', base', to, GetEndPointer(m', base', l), l, f);
  }

  /** Copies a store into a HOB that the allocator places at hobBase: the header, then the variable data. */
  method RelocateStore(src: array<byte>, srcBase: nat, hobBase: nat, l: Layout) returns (hob: array<byte>)
    requires l.Valid() && l.storeHeader <= src.Length && StoreSize(src[..]) == src.Length
    requires GetStartPointer(srcBase, l) <= src.Length
    // The new size is a UINT32.
    requires src.Length + l.align <= ALL_ONES_32
    ensures fresh(hob) && src[..] == old(src[..])
    ensures Relocated(src[..], srcBase, hob[..], hobBase, l)
    ensures StoreSize(hob[..]) <= hob.Length
    ensures Sub(hob[..], 0, STORE_SIZE_AT) == Sub(src[..], 0, STORE_SIZE_AT)
  {
    hide Sub, Patch, AlignedAt, ToLe32, Le32;
    var m, h := src[..], l.storeHeader;
    hob := new byte[src.Length + l.align - 1];
    ghost var m0 := hob[..];
    Put(hob, 0, Sub(m, 0, h));
    ghost var m1 := hob[..];
    var from, to := GetStartPointer(srcBase, l), GetStartPointer(hobBase, l);
    var data := Sub(m, from, src.Length - from);
    Put(hob, to, data);
    ghost var m2 := hob[..];
    var size := ToLe32(src.Length - from + to);
    Put(hob, STORE_SIZE_AT, size);

    PatchReads(m0, 0, Sub(m, 0, h));
    PatchKeeps(m1, to, data, 0, h);
    SubSpan(m, 0, m2, 0, h, 0, STORE_SIZE_AT);
    PatchKeeps(m2, STORE_SIZE_AT, size, 0, STORE_SIZE_AT);
    PatchReads(m1, to, data);
    PatchKeeps(m2, STORE_SIZE_AT, size, to, |data|);
    PatchReads(m2, STORE_SIZE_AT, size);
  }

  // ---- Deltas ----

  /** One DATA_DELTA: offset counts from the header of the base store. */
  datatype Delta = Delta(offset: nat, value: byte)

  /** The deltas stay inside the variable data of the base store. */
  ghost predicate InData(ds: seq<Delta>, base: nat, size: nat, l: Layout)
    requires l.Valid()
  {
    forall i :: 0 <= i < |ds| ==> GetStartPointer(base, l) <= ds[i].offset < size
  }

  /** A store with the deltas applied in order. */
  function Patched(m: seq<byte>, ds: seq<Delta>): (r: seq<byte>)
    requires forall i :: 0 <= i < |ds| ==> ds[i].offset < |m|
    ensures |r| == |m|
    decreases ds
  {
    if ds == [] then m else Patched(m[ds[0].offset := ds[0].value], ds[1..])
  }

  lemma PatchedAppend(m: seq<byte>, ds: seq<Delta>, more: seq<Delta>)
    requires forall i :: 0 <= i < |ds| ==> ds[i].offset < |m|
    requires forall i :: 0 <= i < |more| ==> more[i].offset < |m|
    ensures forall i :: 0 <= i < |ds + more| ==> (ds + more)[i].offset < |m|
    ensures Patched(m, ds + more) == Patched(Patched(m, ds), more)
    decreases ds
  {
    if ds == [] {
      assert ds + more == more;
    } else {
      assert (ds + more)[1..] == ds[1..] + more;
      PatchedAppend(m[ds[0].offset := ds[0].value], ds[1..], more);
    }
  }

  /** Delta number j is the last one for this offset. */
  ghost predicate LastFor(ds: seq<Delta>, j: nat, offset: nat)
    ensures LastFor(ds, j, offset) ==> j < |ds|
  {
    j < |ds| && ds[j].offset == offset && forall k :: j < k < |ds| ==> ds[k].offset != offset
  }

  /** A byte of the patched store is what the last delta for it says, and stays if there is none. */
  lemma {:induction false} PatchedAt(m: seq<byte>, ds: seq<Delta>, x: nat)
    requires x < |m| && forall i :: 0 <= i < |ds| ==> ds[i].offset < |m|
    ensures forall j: nat :: LastFor(ds, j, x) ==> Patched(m, ds)[x] == ds[j].value
    ensures (forall j :: 0 <= j < |ds| ==> ds[j].offset != x) ==> Patched(m, ds)[x] == m[x]
    decreases |ds|
  {
    if ds != [] {
      var rest := ds[1..];
      PatchedAt(m[ds[0].offset := ds[0].value], rest, x);
      forall j: nat | LastFor(ds, j, x)
        ensures Patched(m, ds)[x] == ds[j].value
      {
        if j == 0 {
          assert forall k :: 0 <= k < |rest| ==> rest[k].offset == ds[k + 1].offset;
        } else {
          assert LastFor(rest, j - 1, x);
        }
      }
    }
  }

  /** A delta written at its place in the HOB keeps the HOB a moved copy of the patched store. */
  lemma DeltaRelocated(m: seq<byte>, base: nat, m': seq<byte>, base': nat, d: Delta, l: Layout)
    requires l.Valid() && Relocated(m, base, m', base', l)
    requires GetStartPointer(base, l) <= d.offset < |m|
    ensures var at := d.offset - GetStartPointer(base, l) + GetStartPointer(base', l);
            at < |m'| && Relocated(m[d.offset := d.value], base, m'[at := d.value], base', l)
  {
    hide AlignUp, Le32;
    var from, to := GetStartPointer(base, l), GetStartPointer(base', l);
    var at := d.offset - from + to;
    var n, n' := m[d.offset := d.value], m'[at := d.value];
    assert Sub(n, STORE_SIZE_AT, 4) == Sub(m, STORE_SIZE_AT, 4);
    assert Sub(n', STORE_SIZE_AT, 4) == Sub(m', STORE_SIZE_AT, 4);
    DeltaSpan(m, from, m', to, |m| - from, d.offset - from, d.value);
  }

  lemma DeltaSpan<T>(m: seq<T>, p: nat, m': seq<T>, p': nat, n: nat, at: nat, v: T)
    requires SameSpan(m, p, m', p', n) && at < n
    ensures SameSpan(m[p + at := v], p, m'[p' + at := v], p', n)
  {
    var s, s' := Sub(m[p + at := v], p, n), Sub(m'[p' + at := v], p', n);
    forall i | 0 <= i < n
      ensures s[i] == s'[i]
    {
      SameByte(m, p, m', p', n, i);
    }
  }

  // ---- The size-optimised library ----

  datatype DefaultInfo = DefaultInfo(defaultId: nat, boardId: nat)

  /** A section of the default data file: the defaults it stands for, and its deltas to the section
      before it. The first section carries the base store instead of deltas. */
  datatype Section = Section(infos: seq<DefaultInfo>, deltas: seq<Delta>)

  datatype Status = Success | NotFound | OutOfResources

  /** The first section that lists id, |ss| if none does. */
  function FirstListing(ss: seq<Section>, id: DefaultInfo): (k: nat)
    ensures k <= |ss|
    ensures k < |ss| ==> id in ss[k].infos
    ensures forall i :: 0 <= i < k ==> id !in ss[i].infos
  {
    if ss == [] || id in ss[0].infos then 0 else 1 + FirstListing(ss[1..], id)
  }

  /** The deltas of sections 1 to k, in order; section 0 holds the base store. */
  function DeltasUpTo(ss: seq<Section>, k: nat): seq<Delta>
    requires k < |ss|
  {
    if k == 0 then [] else DeltasUpTo(ss, k - 1) + ss[k].deltas
  }

  /** The deltas of sections 1 to k are. */
  ghost predicate DeltasInData(ss: seq<Section>, k: nat, base: nat, size: nat, l: Layout)
    requires l.Valid()
  {
    forall i :: 1 <= i < |ss| && i <= k ==> InData(ss[i].deltas, base, size, l)
  }

  lemma FewerInData(ss: seq<Section>, k: nat, n: nat, base: nat, size: nat, l: Layout)
    requires l.Valid() && k <= n && DeltasInData(ss, n, base, size, l)
    ensures DeltasInData(ss, k, base, size, l)
  {
  }

  lemma NotListedBefore(ss: seq<Section>, id: DefaultInfo, n: nat)
    requires n <= |ss| && forall i :: 0 <= i < n ==> id !in ss[i].infos
    ensures FirstListing(ss, id) >= n
  {
  }

  lemma DeltasUpToInData(ss: seq<Section>, k: nat, base: nat, size: nat, l: Layout)
    requires l.Valid() && k < |ss| && DeltasInData(ss, k, base, size, l)
    ensures InData(DeltasUpTo(ss, k), base, size, l)
  {
    if k > 0 {
      DeltasUpToInData(ss, k - 1, base, size, l);
    }
  }

  /** The base store with the deltas of the sections up to number k. */
  ghost function BoardStore(m: seq<byte>, ss: seq<Section>, k: nat, base: nat, l: Layout): seq<byte>
    requires l.Valid() && k < |ss| && DeltasInData(ss, k, base, |m|, l)
  {
    DeltasUpToInData(ss, k, base, |m|, l);
    Patched(m, DeltasUpTo(ss, k))
  }

  /** The delta loop of one section. patched is the store the HOB stands for before it. */
  method ApplyDeltas(
    hob: array<byte>, hobBase: nat, ds: seq<Delta>, ghost patched: seq<byte>, srcBase: nat, l: Layout)
    requires l.Valid() && Relocated(patched, srcBase, hob[..], hobBase, l)
    requires InData(ds, srcBase, |patched|, l)
    modifies hob
    ensures Relocated(Patched(patched, ds), srcBase, hob[..], hobBase, l)
  {
    hide Relocated, AlignedAt;
    ghost var now := patched;
    var from, to := GetStartPointer(srcBase, l), GetStartPointer(hobBase, l);
    assert ds[0..] == ds;
    for i := 0 to |ds|
      invariant |now| == |patched| && Patched(now, ds[i..]) == Patched(patched, ds)
      invariant Relocated(now, srcBase, hob[..], hobBase, l)
    {
      DeltaRelocated(now, srcBase, hob[..], hobBase, ds[i], l);
      assert ds[i..][1..] == ds[i + 1..];
      hob[ds[i].offset - from + to] := ds[i].value;
      now := now[ds[i].offset := ds[i].value];
    }
  }

  /** The signature of a store says that its records are authenticated; authGuid is that signature. */
  predicate IsAuthenticated(m: seq<byte>, authGuid: seq<byte>)
    requires |m| >= STORE_SIZE_AT
  {
    Sub(m, 0, STORE_SIZE_AT) == authGuid
  }

  /** The section loop: base is the store of the first section, at address srcBase. unused says that the
      HOB has been given the unused type, convert that the conversion to normal records is asked for once
      memory is there. */
  method CreateOptSizeHob(
    base: array<byte>, ss: seq<Section>, id: DefaultInfo, srcBase: nat, hobBase: nat, hobFree: bool, l: Layout,
    isRecovery: bool, authGuid: seq<byte>)
    returns (status: Status, hob: array?<byte>, unused: bool, convert: bool)
    requires l.Valid() && l.storeHeader <= base.Length && StoreSize(base[..]) == base.Length
    requires GetStartPointer(srcBase, l) <= base.Length && base.Length + l.align <= ALL_ONES_32
    requires DeltasInData(ss, FirstListing(ss, id), srcBase, base.Length, l)
    ensures ss == [] ==> status == NotFound && hob == null
    ensures ss != [] && !hobFree ==> status == OutOfResources && hob == null
    ensures ss != [] && hobFree ==>
              var k := FirstListing(ss, id);
              && hob != null && fresh(hob)
              && status == (if k < |ss| then Success else NotFound)
              && unused == (k == |ss|)
              && (k < |ss| ==>
                    && Relocated(BoardStore(base[..], ss, k, srcBase, l), srcBase, hob[..], hobBase, l)
                    && HoldsBoardData(base[..], ss, k, hob[..], GetStartPointer(srcBase, l), GetStartPointer(hobBase, l)))
    ensures base[..] == old(base[..])
    ensures convert <==> status == Success && isRecovery && base[..][..16] == authGuid
  {
    hide Relocated, AlignedAt, Field32, BoardStore, DeltasInData, FirstListing, HoldsBoardData;
    var m := base[..];
    var found, i := false, 0;
    hob, unused, convert := null, false, false;
    while i < |ss| && !found
      invariant i <= |ss| && base[..] == m
      invariant if i == 0 then hob == null else hob != null && fresh(hob) && hobFree
      invariant forall j :: 0 <= j < i - 1 ==> id !in ss[j].infos
      invariant i > 0 ==> i - 1 <= FirstListing(ss, id) && DeltasInData(ss, i - 1, srcBase, |m|, l)
      invariant i > 0 ==> Relocated(BoardStore(m, ss, i - 1, srcBase, l), srcBase, hob[..], hobBase, l)
      invariant found ==> i > 0 && id in ss[i - 1].infos
      invariant !found && i > 0 ==> id !in ss[i - 1].infos
    {
      NotListedBefore(ss, id, i);
      FewerInData(ss, i, FirstListing(ss, id), srcBase, |m|, l);
      if i == 0 {
        if !hobFree {
          return OutOfResources, null, false, false;
        }
        BoardStoreFirst(m, ss, srcBase, l);
        hob := RelocateStore(base, srcBase, hobBase, l);
      } else {
        BoardStoreNext(m, ss, i, srcBase, l);
        ApplyDeltas(hob, hobBase, ss[i].deltas, BoardStore(m, ss, i - 1, srcBase, l), srcBase, l);
      }
      found := ListsDefault(ss[i].infos, id);
      i := i + 1;
    }
    if !found {
      unused := hob != null;
      return NotFound, hob, unused, false;
    }
    convert := isRecovery && IsAuthenticated(base[..], authGuid);
    BoardBytes(m, ss, i - 1, srcBase, hob[..], hobBase, l);
    return Success, hob, false, convert;
  }

  /** The loop over the DEFAULT_INFO entries of a section. */
  method ListsDefault(infos: seq<DefaultInfo>, id: DefaultInfo) returns (found: bool)
    ensures found <==> id in infos
  {
    var j := 0;
    while j < |infos|
      invariant j <= |infos| && id !in infos[..j]
    {
      if infos[j].defaultId == id.defaultId && infos[j].boardId == id.boardId {
        return true;
      }
      j := j + 1;
    }
    return false;
  }

  /** Delta j of section i, among those of sections 1 to n, is the last one for this offset. */
  ghost predicate LastUpTo(ss: seq<Section>, n: nat, i: nat, j: nat, offset: nat) {
    && 1 <= i <= n < |ss| && LastFor(ss[i].deltas, j, offset)
    && forall i' :: i < i' <= n ==> NoneFor(ss[i'].deltas, offset)
  }

  ghost predicate NoneFor(ds: seq<Delta>, offset: nat) {
    forall j :: 0 <= j < |ds| ==> ds[j].offset != offset
  }

  lemma {:induction false} LastOfAll(ss: seq<Section>, n: nat, i: nat, j: nat, offset: nat)
    requires n < |ss|
    ensures (forall i' :: 1 <= i' <= n ==> NoneFor(ss[i'].deltas, offset)) ==> NoneFor(DeltasUpTo(ss, n), offset)
    ensures LastUpTo(ss, n, i, j, offset) ==>
              exists k: nat :: LastFor(DeltasUpTo(ss, n), k, offset) && DeltasUpTo(ss, n)[k] == ss[i].deltas[j]
    decreases n
  {
    if n > 0 {
      LastOfAll(ss, n - 1, i, j, offset);
      var before, ds := DeltasUpTo(ss, n - 1), ss[n].deltas;
      if LastUpTo(ss, n, i, j, offset) {
        if i == n {
          LastInRight(before, ds, j, offset);
          assert LastFor(DeltasUpTo(ss, n), |before| + j, offset);
        } else {
          assert LastUpTo(ss, n - 1, i, j, offset);
          var k: nat :| LastFor(before, k, offset) && before[k] == ss[i].deltas[j];
          LastInLeft(before, ds, k, offset);
          assert LastFor(DeltasUpTo(ss, n), k, offset);
        }
      }
    }
  }

  lemma LastInRight(a: seq<Delta>, b: seq<Delta>, j: nat, offset: nat)
    requires LastFor(b, j, offset)
    ensures LastFor(a + b, |a| + j, offset) && (a + b)[|a| + j] == b[j]
  {
  }

  lemma LastInLeft(a: seq<Delta>, b: seq<Delta>, k: nat, offset: nat)
    requires LastFor(a, k, offset) && NoneFor(b, offset)
    ensures LastFor(a + b, k, offset) && (a + b)[k] == a[k]
  {
  }

  /** b is the byte at x of the base store m after the deltas of the sections up to number n. */
  ghost predicate BoardByteIs(m: seq<byte>, ss: seq<Section>, n: nat, x: nat, b: byte)
    requires x < |m|
  {
    && (forall i: nat, j: nat :: LastUpTo(ss, n, i, j, x) ==> b == ss[i].deltas[j].value)
    && ((forall i :: 1 <= i <= n < |ss| ==> NoneFor(ss[i].deltas, x)) ==> b == m[x])
  }

  /** The HOB has these bytes, moved from position from to position to. */
  ghost predicate HoldsBoardData(m: seq<byte>, ss: seq<Section>, n: nat, hob: seq<byte>, from: nat, to: nat) {
    forall x :: from <= x < |m| ==> HoldsBoardByte(m, ss, n, hob, from, to, x)
  }

  ghost predicate HoldsBoardByte(m: seq<byte>, ss: seq<Section>, n: nat, hob: seq<byte>, from: nat, to: nat, x: nat)
    requires from <= x < |m|
  {
    x - from + to < |hob| && BoardByteIs(m, ss, n, x, hob[x - from + to])
  }

  lemma BoardBytes(m: seq<byte>, ss: seq<Section>, n: nat, srcBase: nat, hob: seq<byte>, hobBase: nat, l: Layout)
    requires l.Valid() && n < |ss| && DeltasInData(ss, n, srcBase, |m|, l)
    requires Relocated(BoardStore(m, ss, n, srcBase, l), srcBase, hob, hobBase, l)
    ensures HoldsBoardData(m, ss, n, hob, GetStartPointer(srcBase, l), GetStartPointer(hobBase, l))
  {
    hide AlignedAt, StoreSize, BoardByteIs, BoardStore, DeltasInData, Sub;
    var from, to := GetStartPointer(srcBase, l), GetStartPointer(hobBase, l);
    var patched := BoardStore(m, ss, n, srcBase, l);
    forall x | from <= x < |m|
      ensures HoldsBoardByte(m, ss, n, hob, from, to, x)
    {
      BoardByte(m, ss, n, srcBase, l, x);
      SameByte(patched, from, hob, to, |m| - from, x - from);
    }
  }

  lemma BoardByte(m: seq<byte>, ss: seq<Section>, n: nat, base: nat, l: Layout, x: nat)
    requires l.Valid() && n < |ss| && DeltasInData(ss, n, base, |m|, l) && x < |m|
    ensures |BoardStore(m, ss, n, base, l)| == |m|
    ensures BoardByteIs(m, ss, n, x, BoardStore(m, ss, n, base, l)[x])
  {
    hide Patched, DeltasUpTo, LastFor, DeltasInData;
    var ds := DeltasUpTo(ss, n);
    DeltasUpToInData(ss, n, base, |m|, l);
    PatchedAt(m, ds, x);
    LastOfAll(ss, n, 0, 0, x);
    forall i: nat, j: nat | LastUpTo(ss, n, i, j, x)
      ensures BoardStore(m, ss, n, base, l)[x] == ss[i].deltas[j].value
    {
      LastOfAll(ss, n, i, j, x);
    }
  }

  lemma BoardStoreFirst(m: seq<byte>, ss: seq<Section>, base: nat, l: Layout)
    requires l.Valid() && ss != [] && DeltasInData(ss, 0, base, |m|, l)
    ensures BoardStore(m, ss, 0, base, l) == m
  {
  }

  lemma BoardStoreNext(m: seq<byte>, ss: seq<Section>, k: nat, base: nat, l: Layout)
    requires l.Valid() && 0 < k < |ss| && DeltasInData(ss, k, base, |m|, l)
    ensures |BoardStore(m, ss, k - 1, base, l)| == |m|
    ensures InData(ss[k].deltas, base, |m|, l)
    ensures BoardStore(m, ss, k, base, l) == Patched(BoardStore(m, ss, k - 1, base, l), ss[k].deltas)
  {
    DeltasUpToInData(ss, k - 1, base, |m|, l);
    PatchedAppend(m, DeltasUpTo(ss, k - 1), ss[k].deltas);
  }

  /** The HOB of a board holds exactly the records of the base store with the deltas of the sections up
      to the first one that lists the board, whatever the alignments of the two addresses. */
  lemma OptSizeHobRecords(
    m: seq<byte>, ss: seq<Section>, id: DefaultInfo, srcBase: nat, hob: seq<byte>, hobBase: nat, l: Layout, f: Format)
    requires l.Valid() && f.Valid() && FirstListing(ss, id) < |ss| && DeltasInData(ss, FirstListing(ss, id), srcBase, |m|, l)
    requires var patched := BoardStore(m, ss, FirstListing(ss, id), srcBase, l);
             Relocated(patched, srcBase, hob, hobBase, l) && IsStore(patched, srcBase, l, f)
    ensures var patched := BoardStore(m, ss, FirstListing(ss, id), srcBase, l);
            && IsStore(hob, hobBase, l, f)
            && Records(hob, hobBase, l, f) == Records(patched, srcBase, l, f)
            && EndsAtEnd(hob, hobBase, l, f) == EndsAtEnd(patched, srcBase, l, f)
  {
    RelocatedRecords(BoardStore(m, ss, FirstListing(ss, id), srcBase, l), srcBase, hob, hobBase, l, f);
  }

  // ---- The plain library ----

  /** A section of the plain default data file: every one carries a whole store, at its own address. */
  datatype StoreSection = StoreSection(infos: seq<DefaultInfo>, store: array<byte>, base: nat)

  /** Copies the store of the first section that lists id. */
  method CreateDefaultVariableHob(
    ss: seq<StoreSection>, id: DefaultInfo, hobBase: nat, hobFree: bool, l: Layout, isRecovery: bool, authGuid: seq<byte>)
    returns (status: Status, hob: array?<byte>, convert: bool)
    requires l.Valid()
    requires forall i :: 0 <= i < |ss| ==>
               var m := ss[i].store;
               && l.storeHeader <= m.Length && StoreSize(m[..]) == m.Length
               && GetStartPointer(ss[i].base, l) <= m.Length && m.Length + l.align <= ALL_ONES_32
    ensures status == NotFound <==> forall i :: 0 <= i < |ss| ==> id !in ss[i].infos
    ensures status == OutOfResources ==> !hobFree
    ensures status != Success ==> hob == null
    ensures status == Success ==>
              exists k ::
                && 0 <= k < |ss| && id in ss[k].infos
                && (forall i :: 0 <= i < k ==> id !in ss[i].infos)
                && hob != null && fresh(hob)
                && Relocated(ss[k].store[..], ss[k].base, hob[..], hobBase, l)
                && (convert <==> isRecovery && ss[k].store[..][..16] == authGuid)
    ensures status != Success ==> !convert
  {
    hide Relocated, AlignedAt, Field32;
    var i, found := 0, false;
    while i < |ss| && !found
      invariant i <= |ss|
      invariant forall j :: 0 <= j < i - 1 ==> id !in ss[j].infos
      invariant found ==> i > 0 && id in ss[i - 1].infos
      invariant !found && i > 0 ==> id !in ss[i - 1].infos
    {
      found := ListsDefault(ss[i].infos, id);
      i := i + 1;
    }
    if !found {
      return NotFound, null, false;
    }
    if !hobFree {
      return OutOfResources, null, false;
    }
    hob := RelocateStore(ss[i - 1].store, ss[i - 1].base, hobBase, l);
    convert := isRecovery && IsAuthenticated(ss[i - 1].store[..], authGuid);
    return Success, hob, convert;
  }
}
