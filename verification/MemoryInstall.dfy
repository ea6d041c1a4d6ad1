/**
 Installing memory on a cold boot and on S3 resume: which memory PEI and the capsule get, which resource
 descriptors are emitted, and how the RMU shadow is found again by summing them.
 */
module MemoryInstall {
  import Bytes
  import opened MemoryMap

  // ---- PEI memory ----

  predicate FitsPei(r: Range, peiLength: nat, maxAddress: nat) {
    r.kind.MainMemory? && r.End() < maxAddress && r.length >= peiLength
  }

  /** The index of the last range that can hold PEI memory, -1 if none can. */
  function LastFitting(ranges: seq<Range>, peiLength: nat, maxAddress: nat): (k: int)
    ensures -1 <= k < |ranges|
    ensures k >= 0 ==> FitsPei(ranges[k], peiLength, maxAddress)
    ensures forall i :: k < i < |ranges| ==> !FitsPei(ranges[i], peiLength, maxAddress)
  {
    var n := |ranges|;
    if n == 0 then -1
    else if FitsPei(ranges[n - 1], peiLength, maxAddress) then n - 1
    else LastFitting(ranges[..n - 1], peiLength, maxAddress)
  }

  function PeiIndex(ranges: seq<Range>, peiLength: nat, maxAddress: nat): nat {
    var k := LastFitting(ranges, peiLength, maxAddress);
    if k < 0 then 0 else k
  }

  /** PEI memory is the top of that range. */
  function PeiBase(ranges: seq<Range>, peiLength: nat, maxAddress: nat): nat {
    var k := LastFitting(ranges, peiLength, maxAddress);
    if k < 0 then 0 else ranges[k].End() - peiLength
  }

  /** Main memory ranges come in ascending order and do not overlap. */
  ghost predicate Ascending(ranges: seq<Range>) {
    forall i, j :: 0 <= i < j < |ranges| && ranges[i].kind.MainMemory? && ranges[j].kind.MainMemory? ==>
      ranges[i].End() <= ranges[j].physical
  }

  /** No range that can hold PEI memory has a higher top. */
  lemma PeiMemoryIsHighest(ranges: seq<Range>, peiLength: nat, maxAddress: nat, i: nat)
    requires Ascending(ranges) && i < |ranges| && FitsPei(ranges[i], peiLength, maxAddress)
    ensures ranges[i].End() <= PeiBase(ranges, peiLength, maxAddress) + peiLength
  {
    var k := LastFitting(ranges, peiLength, maxAddress);
    if i < k {
      assert ranges[i].End() <= ranges[k].physical;
    }
  }

  /** A span of memory that is cleared. */
  datatype Span = Span(start: nat, length: nat)

  ghost predicate InSpans(spans: seq<Span>, a: nat) {
    exists j :: 0 <= j < |spans| && spans[j].start <= a < spans[j].start + spans[j].length
  }

  /** Exactly the bytes of main memory are in some span. */
  ghost predicate ClearsMainMemory(spans: seq<Span>, ranges: seq<Range>) {
    forall a: nat :: InSpans(spans, a) <==> InKind(ranges, MainMemory, a)
  }

  lemma MoreSpans(spans: seq<Span>, more: seq<Span>, a: nat)
    ensures InSpans(spans + more, a) <==> InSpans(spans, a) || InSpans(more, a)
  {
    if j :| 0 <= j < |more| && more[j].start <= a < more[j].start + more[j].length {
      assert (spans + more)[|spans| + j] == more[j];
    }
    if j :| 0 <= j < |spans| && spans[j].start <= a < spans[j].start + spans[j].length {
      assert (spans + more)[j] == spans[j];
    }
  }

  lemma MoreMainMemory(ranges: seq<Range>, r: Range, a: nat)
    ensures InKind(ranges + [r], MainMemory, a) <==> InKind(ranges, MainMemory, a) || (r.kind.MainMemory? && r.Contains(a))
  {
    var all := ranges + [r];
    assert all[|ranges|] == r;
    if i :| 0 <= i < |ranges| && ranges[i].kind.MainMemory? && ranges[i].Contains(a) {
      assert all[i] == ranges[i];
    }
  }

  /** What the loop clears for one range. */
  function ClearedFor(r: Range): seq<Span> {
    if !r.kind.MainMemory? || r.length == 0 then []
    else if r.physical == 0 then [Span(0, 1), Span(1, r.length - 1)]
    else [Span(r.physical, r.length)]
  }

  lemma ClearsMore(spans: seq<Span>, ranges: seq<Range>, r: Range)
    requires ClearsMainMemory(spans, ranges)
    ensures ClearsMainMemory(spans + ClearedFor(r), ranges + [r])
  {
    hide InKind;
    var more := ClearedFor(r);
    forall a: nat
      ensures InSpans(spans + more, a) <==> InKind(ranges + [r], MainMemory, a)
    {
      MoreSpans(spans, more, a);
      MoreMainMemory(ranges, r, a);
      if r.kind.MainMemory? && r.Contains(a) {
        var j := if r.physical == 0 && a > 0 then 1 else 0;
        assert more[j].start <= a < more[j].start + more[j].length;
      }
    }
  }

  /** The loop that chooses PEI memory. If the system asked for it, it also clears the memory that the system
      can use; at address 0 the first byte is cleared by itself. */
  method ChoosePeiMemory(memoryMap: array<Range>, numRanges: nat, peiLength: nat, maxAddress: nat, mor: bool)
    returns (base: nat, index: nat, cleared: seq<Span>)
    requires numRanges <= memoryMap.Length && Ascending(memoryMap[..numRanges])
    requires forall i :: 0 <= i < numRanges ==> memoryMap[i].End() < TWO_32
    ensures base == PeiBase(memoryMap[..numRanges], peiLength, maxAddress)
    ensures index == PeiIndex(memoryMap[..numRanges], peiLength, maxAddress)
    ensures if mor then ClearsMainMemory(cleared, memoryMap[..numRanges]) else cleared == []
  {
    base, index, cleared := 0, 0, [];
    ghost var ranges := memoryMap[..numRanges];
    for i := 0 to numRanges
      invariant if mor then ClearsMainMemory(cleared, ranges[..i]) else cleared == []
      invariant base == PeiBase(ranges[..i], peiLength, maxAddress)
      invariant index == PeiIndex(ranges[..i], peiLength, maxAddress)
    {
      var r := memoryMap[i];
      assert r == ranges[i];
      assert ranges[..i + 1][..i] == ranges[..i];
      var more: seq<Span> := [];
      if mor && r.kind.MainMemory? && r.length > 0 {
        if r.physical == 0 {
          more := [Span(0, 1), Span(1, r.length - 1)];
        } else {
          more := [Span(r.physical, r.length)];
        }
      }
      if mor {
        assert ranges[..i + 1] == ranges[..i] + [r];
        ClearsMore(cleared, ranges[..i], r);
      }
      cleared := cleared + more;
      ghost var k := LastFitting(ranges[..i], peiLength, maxAddress);
      assert k >= 0 && r.kind.MainMemory? ==> ranges[k].End() <= r.physical;
      if r.kind.MainMemory? && r.End() < maxAddress && r.physical >= base && r.length >= peiLength {
        base := r.End() - peiLength;
        index := i;
      }
    }
    assert ranges[..numRanges] == ranges;
  }

  // ---- The capsule buffer ----

  predicate Usable(r: Range, maxAddress: nat) {
    r.kind.MainMemory? && r.End() < maxAddress
  }

  /** What PEI memory leaves of range i. */
  function Available(ranges: seq<Range>, i: nat, peiIndex: nat, peiLength: nat): int
    requires i < |ranges|
  {
    if i == peiIndex then ranges[i].length - peiLength else ranges[i].length
  }

  /** The capsule buffer is the bottom of a usable range, short of PEI memory, and none is larger. */
  ghost predicate IsLargestFree(
    ranges: seq<Range>, peiIndex: nat, peiLength: nat, maxAddress: nat, start: nat, length: nat)
  {
    && (forall i :: 0 <= i < |ranges| && Usable(ranges[i], maxAddress) ==>
          Available(ranges, i, peiIndex, peiLength) <= length)
    && ((start == 0 && length == 0) ||
        exists i :: 0 <= i < |ranges| && Usable(ranges[i], maxAddress)
                    && start == ranges[i].physical && length == Available(ranges, i, peiIndex, peiLength))
  }

  method LargestFreeRange(memoryMap: array<Range>, numRanges: nat, peiIndex: nat, peiLength: nat, maxAddress: nat)
    returns (start: nat, length: nat)
    requires numRanges <= memoryMap.Length && peiIndex < numRanges && maxAddress <= TWO_64
    ensures FitsPei(memoryMap[peiIndex], peiLength, maxAddress) ==>
              IsLargestFree(memoryMap[..numRanges], peiIndex, peiLength, maxAddress, start, length)
    ensures (start == 0 && length == 0) ||
            exists j :: 0 <= j < numRanges && Usable(memoryMap[j], maxAddress) && start == memoryMap[j].physical
  {
    start, length := 0, 0;
    ghost var ranges := memoryMap[..numRanges];
    ghost var fits := FitsPei(ranges[peiIndex], peiLength, maxAddress);
    for i := 0 to numRanges
      invariant fits ==> forall j :: 0 <= j < i && Usable(ranges[j], maxAddress) ==>
                  Available(ranges, j, peiIndex, peiLength) <= length
      invariant (start == 0 && length == 0) ||
                exists j :: 0 <= j < |ranges| && Usable(ranges[j], maxAddress) && start == ranges[j].physical
                            && (fits ==> length == Available(ranges, j, peiIndex, peiLength))
    {
      var r := memoryMap[i];
      assert r == ranges[i];
      if r.kind.MainMemory? && r.End() < maxAddress {
        assert Usable(ranges[i], maxAddress);
        if i != peiIndex {
          if r.length > length {
            start, length := r.physical, r.length;
            assert length == Available(ranges, i, peiIndex, peiLength);
          }
        } else if Less64(r.length, peiLength) >= length {
          start, length := r.physical, Less64(r.length, peiLength);
          assert fits ==> length == Available(ranges, i, peiIndex, peiLength);
        }
      }
    }
  }

  /** The capsule buffer and PEI memory share no byte. */
  lemma CapsuleAvoidsPei(ranges: seq<Range>, peiLength: nat, maxAddress: nat, start: nat, length: nat, a: nat)
    requires Ascending(ranges) && LastFitting(ranges, peiLength, maxAddress) >= 0
    requires IsLargestFree(ranges, PeiIndex(ranges, peiLength, maxAddress), peiLength, maxAddress, start, length)
    requires start <= a < start + length
    ensures !(PeiBase(ranges, peiLength, maxAddress) <= a < PeiBase(ranges, peiLength, maxAddress) + peiLength)
  {
    var k := LastFitting(ranges, peiLength, maxAddress);
    var i :| 0 <= i < |ranges| && Usable(ranges[i], maxAddress)
             && start == ranges[i].physical && length == Available(ranges, i, k, peiLength);
    if i < k {
      assert ranges[i].End() <= ranges[k].physical;
    } else if k < i {
      assert ranges[k].End() <= ranges[i].physical;
    }
  }

  /** The capsule buffer and PEI memory lie in main memory, and end below the limit. */
  lemma BuffersInMain(ranges: seq<Range>, peiLength: nat, maxAddress: nat, start: nat, length: nat, a: nat)
    requires LastFitting(ranges, peiLength, maxAddress) >= 0
    requires IsLargestFree(ranges, PeiIndex(ranges, peiLength, maxAddress), peiLength, maxAddress, start, length)
    ensures start <= a < start + length ==> InKind(ranges, MainMemory, a) && a < maxAddress
    ensures var base := PeiBase(ranges, peiLength, maxAddress);
            base <= a < base + peiLength ==> InKind(ranges, MainMemory, a) && a < maxAddress
    ensures forall i :: 0 <= i < |ranges| && ranges[i].kind.MainMemory? && ranges[i].End() < maxAddress ==>
              ranges[i].length <= length || (i == LastFitting(ranges, peiLength, maxAddress) && ranges[i].length - peiLength <= length)
  {
    assert forall i :: 0 <= i < |ranges| && ranges[i].kind.MainMemory? && ranges[i].End() < maxAddress ==>
      Usable(ranges[i], maxAddress);
    var k, base := LastFitting(ranges, peiLength, maxAddress), PeiBase(ranges, peiLength, maxAddress);
    if start <= a < start + length {
      var i :| 0 <= i < |ranges| && Usable(ranges[i], maxAddress)
               && start == ranges[i].physical && length == Available(ranges, i, k, peiLength);
      assert ranges[i].Contains(a);
    }
    if base <= a < base + peiLength {
      assert ranges[k].Contains(a);
    }
  }

  // ---- Resource descriptors ----

  /** What the HOB list says about memory; every other HOB is Other. Of the attributes, those that differ
      between descriptors of a kind: whether system memory is tested, and whether reserved memory can be cached. */
  datatype Hob =
    | SystemMemory(start: nat, length: nat, tested: bool)
    | Reserved(start: nat, length: nat, writeBack: bool)
    | Other
  {
    predicate Contains(a: nat) {
      !Other? && start <= a < start + length
    }
  }

  const TWO_64: nat := 0x1_0000_0000_0000_0000

  /** The UINT64 difference of two lengths. */
  function Less64(length: nat, peiLength: nat): (d: nat)
    ensures peiLength <= length < TWO_64 ==> d == length - peiLength
  {
    (length - peiLength) % TWO_64
  }

  function RangeHob(r: Range, isPei: bool, peiLength: nat): Hob {
    if r.kind.MainMemory? then SystemMemory(r.physical, if isPei then Less64(r.length, peiLength) else r.length, false)
    else Reserved(r.physical, r.length, !r.kind.SmramNonCacheable? && !r.kind.GraphicsNonCacheable?)
  }

  /** The descriptors of the first n ranges. */
  function RangeHobs(ranges: seq<Range>, n: nat, peiIndex: nat, peiLength: nat): (hobs: seq<Hob>)
    requires n <= |ranges|
    ensures |hobs| == n
  {
    if n == 0 then []
    else RangeHobs(ranges, n - 1, peiIndex, peiLength) + [RangeHob(ranges[n - 1], n - 1 == peiIndex, peiLength)]
  }

  /** All descriptors of a cold boot: PEI memory first, then one for every range. */
  function Descriptors(ranges: seq<Range>, peiLength: nat, maxAddress: nat): seq<Hob> {
    [SystemMemory(PeiBase(ranges, peiLength, maxAddress), peiLength, true)]
    + RangeHobs(ranges, |ranges|, PeiIndex(ranges, peiLength, maxAddress), peiLength)
  }

  method BuildDescriptors(memoryMap: array<Range>, numRanges: nat, peiBase: nat, peiIndex: nat, peiLength: nat)
    returns (hobs: seq<Hob>)
    requires numRanges <= memoryMap.Length
    ensures hobs == [SystemMemory(peiBase, peiLength, true)] + RangeHobs(memoryMap[..numRanges], numRanges, peiIndex, peiLength)
  {
    hobs := [SystemMemory(peiBase, peiLength, true)];
    ghost var ranges := memoryMap[..numRanges];
    for i := 0 to numRanges
      invariant hobs == [SystemMemory(peiBase, peiLength, true)] + RangeHobs(ranges, i, peiIndex, peiLength)
    {
      var r := memoryMap[i];
      assert r == ranges[i];
      if r.kind.MainMemory? {
        if i == peiIndex {
          hobs := hobs + [SystemMemory(r.physical, Less64(r.length, peiLength), false)];
        } else {
          hobs := hobs + [SystemMemory(r.physical, r.length, false)];
        }
      } else {
        var uncacheable, writeBack := false, false;
        if r.kind.SmramNonCacheable? || r.kind.GraphicsNonCacheable? {
          uncacheable := true;
        }
        if r.kind.SmramCacheable? || r.kind.GraphicsCacheable? {
          uncacheable, writeBack := true, true;
        }
        if r.kind.ReservedMemory? {
          uncacheable, writeBack := true, true;
        }
        assert uncacheable;
        hobs := hobs + [Reserved(r.physical, r.length, writeBack)];
      }
    }
  }

  // ---- What the descriptors say of an address ----

  ghost predicate IsSystem(hobs: seq<Hob>, a: nat) {
    exists i :: 0 <= i < |hobs| && hobs[i].SystemMemory? && hobs[i].start <= a < hobs[i].start + hobs[i].length
  }

  ghost predicate IsReserved(hobs: seq<Hob>, a: nat) {
    exists i :: 0 <= i < |hobs| && hobs[i].Reserved? && hobs[i].start <= a < hobs[i].start + hobs[i].length
  }

  lemma {:induction false} RangeHobsIndex(ranges: seq<Range>, n: nat, peiIndex: nat, peiLength: nat, i: nat)
    requires i < n <= |ranges|
    ensures RangeHobs(ranges, n, peiIndex, peiLength)[i] == RangeHob(ranges[i], i == peiIndex, peiLength)
  {
    if i < n - 1 {
      RangeHobsIndex(ranges, n - 1, peiIndex, peiLength, i);
    }
  }

  lemma DescriptorsIndex(ranges: seq<Range>, peiLength: nat, maxAddress: nat)
    ensures var hobs, k := Descriptors(ranges, peiLength, maxAddress), PeiIndex(ranges, peiLength, maxAddress);
            && |hobs| == |ranges| + 1
            && hobs[0] == SystemMemory(PeiBase(ranges, peiLength, maxAddress), peiLength, true)
            && forall i :: 0 <= i < |ranges| ==> hobs[i + 1] == RangeHob(ranges[i], i == k, peiLength)
  {
    hide PeiIndex, PeiBase, RangeHob;
    var k := PeiIndex(ranges, peiLength, maxAddress);
    forall i | 0 <= i < |ranges|
      ensures Descriptors(ranges, peiLength, maxAddress)[i + 1] == RangeHob(ranges[i], i == k, peiLength)
    {
      RangeHobsIndex(ranges, |ranges|, k, peiLength, i);
    }
  }

  /** Reserved descriptors hold exactly what is not main memory. */
  lemma ReservedDescriptors(ranges: seq<Range>, peiLength: nat, maxAddress: nat, a: nat)
    ensures IsReserved(Descriptors(ranges, peiLength, maxAddress), a)
       <==> exists i :: 0 <= i < |ranges| && !ranges[i].kind.MainMemory? && ranges[i].Contains(a)
  {
    hide PeiIndex, PeiBase, Descriptors;
    DescriptorsIndex(ranges, peiLength, maxAddress);
    var hobs := Descriptors(ranges, peiLength, maxAddress);
    if IsReserved(hobs, a) {
      var j :| 0 <= j < |hobs| && hobs[j].Reserved? && hobs[j].start <= a < hobs[j].start + hobs[j].length;
      assert hobs[j] == hobs[(j - 1) + 1];
      assert !ranges[j - 1].kind.MainMemory? && ranges[j - 1].Contains(a);
    }
    if i :| 0 <= i < |ranges| && !ranges[i].kind.MainMemory? && ranges[i].Contains(a) {
      assert hobs[i + 1].Reserved?;
    }
  }

  /** If a range can hold PEI memory, system descriptors hold exactly main memory. */
  lemma SystemDescriptors(ranges: seq<Range>, peiLength: nat, maxAddress: nat, a: nat)
    requires LastFitting(ranges, peiLength, maxAddress) >= 0 && maxAddress <= TWO_64
    ensures IsSystem(Descriptors(ranges, peiLength, maxAddress), a) <==> InKind(ranges, MainMemory, a)
  {
    hide Descriptors, LastFitting;
    DescriptorsIndex(ranges, peiLength, maxAddress);
    var hobs, k := Descriptors(ranges, peiLength, maxAddress), LastFitting(ranges, peiLength, maxAddress);
    if IsSystem(hobs, a) {
      var j :| 0 <= j < |hobs| && hobs[j].SystemMemory? && hobs[j].start <= a < hobs[j].start + hobs[j].length;
      if j == 0 {
        assert ranges[k].Contains(a);
      } else {
        assert hobs[j] == hobs[(j - 1) + 1];
        assert ranges[j - 1].Contains(a);
      }
    }
    if InKind(ranges, MainMemory, a) {
      var i :| 0 <= i < |ranges| && ranges[i].kind == MainMemory && ranges[i].Contains(a);
      if i == k && a >= ranges[k].End() - peiLength {
        assert hobs[0].SystemMemory?;
      } else {
        assert hobs[i + 1].SystemMemory?;
      }
    }
  }

  /** The main memory that is not the legacy hole, and what is reserved, of a machine with so much memory. */
  predicate Main(a: nat, total: nat, tsegSize: nat)
    requires Fits(total, tsegSize)
  {
    a < 0xA_0000 || 0x10_0000 <= a < total - TsegLength(tsegSize) - 0x1_0000
  }

  /** What the cold path says of an address: main memory is system memory, if some range can hold PEI memory,
      and the legacy hole, the RMU shadow and TSEG are reserved. */
  lemma ColdKinds(total: nat, tsegSize: nat, peiLength: nat, maxAddress: nat, a: nat)
    requires Fits(total, tsegSize) && maxAddress <= TWO_64
    ensures var m := MapFor(total, tsegSize);
            var hobs := Descriptors(m, peiLength, maxAddress);
            && (IsReserved(hobs, a) <==> a < total && !Main(a, total, tsegSize))
            && (LastFitting(m, peiLength, maxAddress) >= 0 ==> (IsSystem(hobs, a) <==> Main(a, total, tsegSize)))
            && (InKind(m, MainMemory, a) <==> Main(a, total, tsegSize))
            && (forall i :: 0 <= i < |hobs| && hobs[i].SystemMemory? ==> (hobs[i].tested <==> i == 0))
            && (forall i :: 0 <= i < |hobs| && hobs[i].Reserved? ==> hobs[i].writeBack)
  {
    hide MapFor, Descriptors, LastFitting, TsegLength, InKind;
    var m := MapFor(total, tsegSize);
    MapKinds(total, tsegSize, a);
    ReservedDescriptors(m, peiLength, maxAddress, a);
    NotMain(m, a);
    Attributes(m, peiLength, maxAddress);
    if LastFitting(m, peiLength, maxAddress) >= 0 {
      SystemDescriptors(m, peiLength, maxAddress, a);
    }
  }

  lemma Attributes(ranges: seq<Range>, peiLength: nat, maxAddress: nat)
    requires forall i :: 0 <= i < |ranges| ==>
               ranges[i].kind.MainMemory? || ranges[i].kind.SmramCacheable? || ranges[i].kind.ReservedMemory?
    ensures var hobs := Descriptors(ranges, peiLength, maxAddress);
            && (forall i :: 0 <= i < |hobs| && hobs[i].SystemMemory? ==> (hobs[i].tested <==> i == 0))
            && (forall i :: 0 <= i < |hobs| && hobs[i].Reserved? ==> hobs[i].writeBack)
  {
    hide Descriptors;
    DescriptorsIndex(ranges, peiLength, maxAddress);
    var hobs := Descriptors(ranges, peiLength, maxAddress);
    forall i | 0 < i < |hobs|
      ensures hobs[i].SystemMemory? ==> !hobs[i].tested
      ensures hobs[i].Reserved? ==> hobs[i].writeBack
    {
      var j := i - 1;
      assert hobs[j + 1] == RangeHob(ranges[j], j == PeiIndex(ranges, peiLength, maxAddress), peiLength);
    }
  }

  lemma NotMain(ranges: seq<Range>, a: nat)
    requires forall i :: 0 <= i < |ranges| ==>
               ranges[i].kind.MainMemory? || ranges[i].kind.SmramCacheable? || ranges[i].kind.ReservedMemory?
    ensures (exists i :: 0 <= i < |ranges| && !ranges[i].kind.MainMemory? && ranges[i].Contains(a))
       <==> InKind(ranges, SmramCacheable, a) || InKind(ranges, ReservedMemory, a)
  {
  }

  /** How many descriptors contain the address a. */
  function HobsAt(hobs: seq<Hob>, a: nat): nat {
    if hobs == [] then 0 else HobsAt(hobs[..|hobs| - 1], a) + if hobs[|hobs| - 1].Contains(a) then 1 else 0
  }

  lemma HobsAtAppend(hobs: seq<Hob>, more: seq<Hob>, a: nat)
    ensures HobsAt(hobs + more, a) == HobsAt(hobs, a) + HobsAt(more, a)
    decreases more
  {
    if more == [] {
      assert hobs + more == hobs;
    } else {
      var n := |more| - 1;
      assert (hobs + more)[..|hobs| + n] == hobs + more[..n];
      HobsAtAppend(hobs, more[..n], a);
    }
  }

  lemma RangesAtAppend(ranges: seq<Range>, more: seq<Range>, a: nat)
    ensures RangesAt(ranges + more, a) == RangesAt(ranges, a) + RangesAt(more, a)
    decreases ranges
  {
    if ranges == [] {
      assert ranges + more == more;
    } else {
      assert (ranges + more)[1..] == ranges[1..] + more;
      RangesAtAppend(ranges[1..], more, a);
    }
  }

  lemma {:induction false} RangeHobsAt(ranges: seq<Range>, n: nat, peiIndex: nat, peiLength: nat, a: nat)
    requires n <= |ranges| && peiIndex < |ranges| && ranges[peiIndex].kind.MainMemory?
    requires peiLength <= ranges[peiIndex].length < TWO_64
    ensures HobsAt(RangeHobs(ranges, n, peiIndex, peiLength), a)
            + (if peiIndex < n && ranges[peiIndex].End() - peiLength <= a < ranges[peiIndex].End() then 1 else 0)
         == RangesAt(ranges[..n], a)
    decreases n
  {
    if n > 0 {
      RangeHobsAt(ranges, n - 1, peiIndex, peiLength, a);
      var hobs := RangeHobs(ranges, n, peiIndex, peiLength);
      assert hobs[..n - 1] == RangeHobs(ranges, n - 1, peiIndex, peiLength);
      assert ranges[..n] == ranges[..n - 1] + [ranges[n - 1]];
      RangesAtAppend(ranges[..n - 1], [ranges[n - 1]], a);
      assert [ranges[n - 1]][1..] == [];
    }
  }

  /** Splitting PEI memory off its range neither loses nor repeats an address: every address is in as many
      descriptors as ranges. */
  lemma {:induction false} DescriptorsCoverRanges(ranges: seq<Range>, peiLength: nat, maxAddress: nat, a: nat)
    requires LastFitting(ranges, peiLength, maxAddress) >= 0 && maxAddress <= TWO_64
    ensures HobsAt(Descriptors(ranges, peiLength, maxAddress), a) == RangesAt(ranges, a)
  {
    var k := LastFitting(ranges, peiLength, maxAddress);
    var pei := SystemMemory(PeiBase(ranges, peiLength, maxAddress), peiLength, true);
    HobsAtAppend([pei], RangeHobs(ranges, |ranges|, k, peiLength), a);
    assert [pei][..0] == [];
    RangeHobsAt(ranges, |ranges|, k, peiLength, a);
    assert ranges[..|ranges|] == ranges;
  }

  /** Every address below total is in exactly one descriptor, and no other address is in any. */
  ghost predicate IsPartition(hobs: seq<Hob>, total: nat) {
    forall a: nat :: HobsAt(hobs, a) == if a < total then 1 else 0
  }

  /** The descriptors of a cold boot are a partition of [0, total) exactly when some range can hold PEI
      memory. When none can, the code takes PEI memory off range 0 and the length wraps. */
  lemma {:induction false} ColdDescriptorsPartition(total: nat, tsegSize: nat, peiLength: nat, maxAddress: nat)
    requires Fits(total, tsegSize) && total < maxAddress <= TWO_64 / 2 && peiLength <= TWO_64 / 2
    ensures IsPartition(Descriptors(MapFor(total, tsegSize), peiLength, maxAddress), total)
        <==> LastFitting(MapFor(total, tsegSize), peiLength, maxAddress) >= 0
  {
    hide Descriptors, MapFor, HobsAt, LastFitting;
    var m := MapFor(total, tsegSize);
    if LastFitting(m, peiLength, maxAddress) >= 0 {
      forall a: nat
        ensures HobsAt(Descriptors(m, peiLength, maxAddress), a) == if a < total then 1 else 0
      {
        DescriptorsCoverRanges(m, peiLength, maxAddress, a);
        MapPartitions(total, tsegSize, a);
      }
    } else {
      WrappedDescriptor(total, tsegSize, peiLength, maxAddress);
      assert !(total < total);
    }
  }

  /** Without a range for PEI memory, the descriptor of range 0 runs past the end of memory. */
  lemma WrappedDescriptor(total: nat, tsegSize: nat, peiLength: nat, maxAddress: nat)
    requires Fits(total, tsegSize) && total < maxAddress <= TWO_64 / 2 && peiLength <= TWO_64 / 2
    requires LastFitting(MapFor(total, tsegSize), peiLength, maxAddress) < 0
    ensures HobsAt(Descriptors(MapFor(total, tsegSize), peiLength, maxAddress), total) > 0
  {
    hide TsegLength;
    var m := MapFor(total, tsegSize);
    assert !FitsPei(m[0], peiLength, maxAddress) && !FitsPei(m[2], peiLength, maxAddress);
    var hobs := Descriptors(m, peiLength, maxAddress);
    FirstRangeHob(m, 5, peiLength);
    Bytes.DivModUnique(LEGACY_TOP - peiLength, TWO_64, -1, TWO_64 + LEGACY_TOP - peiLength);
    assert hobs[1] == RangeHob(m[0], true, peiLength);
    HobCounts(hobs, 1, total);
  }

  lemma FirstRangeHob(ranges: seq<Range>, n: nat, peiLength: nat)
    requires 1 <= n <= |ranges|
    ensures RangeHobs(ranges, n, 0, peiLength)[0] == RangeHob(ranges[0], true, peiLength)
  {
    if n > 1 {
      FirstRangeHob(ranges, n - 1, peiLength);
    }
  }

  lemma HobCounts(hobs: seq<Hob>, i: nat, a: nat)
    requires i < |hobs| && hobs[i].Contains(a)
    ensures HobsAt(hobs, a) > 0
  {
    var n := |hobs| - 1;
    if i < n {
      HobCounts(hobs[..n], i, a);
    }
  }

  // ---- Finding the RMU shadow ----

  function LengthAboveOneMb(h: Hob): nat {
    if h.SystemMemory? && h.start >= ONE_MB then h.length else 0
  }

  function SumAboveOneMb(hobs: seq<Hob>): nat {
    if hobs == [] then 0 else SumAboveOneMb(hobs[..|hobs| - 1]) + LengthAboveOneMb(hobs[|hobs| - 1])
  }

  /** The first megabyte and all system memory above it, as a 32-bit number. */
  function MemoryTop(hobs: seq<Hob>): UInt32 {
    (ONE_MB + SumAboveOneMb(hobs)) % TWO_32
  }

  lemma NextSum(hobs: seq<Hob>, i: nat)
    requires i < |hobs|
    ensures SumAboveOneMb(hobs[..i + 1]) == SumAboveOneMb(hobs[..i]) + LengthAboveOneMb(hobs[i])
  {
    assert hobs[..i + 1][..i] == hobs[..i];
  }

  lemma AddModulo(a: nat, b: nat, n: nat)
    requires n > 0
    ensures (a % n + b) % n == (a + b) % n
  {
    var q := a / n;
    assert a + b == q * n + (a % n + b);
    Bytes.DivModUnique(a + b, n, q + (a % n + b) / n, (a % n + b) % n);
  }

  lemma Truncated(a: nat)
    ensures a % TWO_64 % TWO_32 == a % TWO_32
  {
  }

  /** The loop of InfoPostInstallMemory: 64-bit sums, cut to 32 bits in the end. */
  method SumSystemMemory(hobs: seq<Hob>) returns (length: UInt32)
    ensures length == MemoryTop(hobs)
  {
    hide SumAboveOneMb;
    var calcLength: nat := ONE_MB;
    NoSum();
    var i := 0;
    while i < |hobs|
      invariant i <= |hobs| && calcLength == (ONE_MB + SumAboveOneMb(hobs[..i])) % TWO_64
    {
      NextSum(hobs, i);
      AddModulo(ONE_MB + SumAboveOneMb(hobs[..i]), LengthAboveOneMb(hobs[i]), TWO_64);
      if hobs[i].SystemMemory? {
        if hobs[i].start >= ONE_MB {
          calcLength := (calcLength + hobs[i].length) % TWO_64;
        }
      }
      i := i + 1;
    }
    assert hobs[..i] == hobs;
    Truncated(ONE_MB + SumAboveOneMb(hobs));
    length := calcLength % TWO_32;
  }

  lemma NoSum()
    ensures SumAboveOneMb([]) == 0
  {
  }

  /** The loop of InitSleepSmmPlatform: 32-bit sums. */
  method SumAtSuspend(hobs: seq<Hob>) returns (memoryLength: UInt32)
    ensures memoryLength == MemoryTop(hobs)
  {
    hide SumAboveOneMb;
    memoryLength := ONE_MB;
    NoSum();
    var i := 0;
    while i < |hobs|
      invariant i <= |hobs| && memoryLength == (ONE_MB + SumAboveOneMb(hobs[..i])) % TWO_32
    {
      NextSum(hobs, i);
      AddModulo(ONE_MB + SumAboveOneMb(hobs[..i]), LengthAboveOneMb(hobs[i]), TWO_32);
      if hobs[i].SystemMemory? {
        if hobs[i].start >= ONE_MB {
          memoryLength := (memoryLength + hobs[i].length) % TWO_32;
        }
      }
      i := i + 1;
    }
    assert hobs[..i] == hobs;
  }

  lemma SumAppend(hobs: seq<Hob>, more: seq<Hob>)
    ensures SumAboveOneMb(hobs + more) == SumAboveOneMb(hobs) + SumAboveOneMb(more)
    decreases more
  {
    if more == [] {
      assert hobs + more == hobs;
    } else {
      var n := |more| - 1;
      assert (hobs + more)[..|hobs| + n] == hobs + more[..n];
      SumAppend(hobs, more[..n]);
    }
  }

  /** Descriptors that the sums skip. */
  ghost predicate Neutral(hobs: seq<Hob>) {
    SumAboveOneMb(hobs) == 0
  }

  /** The five descriptors after PEI memory sum to the length of the big range, less PEI memory if that is
      where PEI memory is. */
  lemma SumOfMap(total: nat, tsegSize: nat, peiIndex: nat, peiLength: nat)
    requires Fits(total, tsegSize)
    requires peiIndex < 5 && (peiIndex == 2 ==> peiLength <= MapFor(total, tsegSize)[2].length < TWO_64)
    ensures SumAboveOneMb(RangeHobs(MapFor(total, tsegSize), 5, peiIndex, peiLength))
         == RmuBase(total, tsegSize) - ONE_MB - (if peiIndex == 2 then peiLength else 0)
  {
    hide TsegLength, RmuBase, TsegBase;
    var m := MapFor(total, tsegSize);
    assert SumAboveOneMb(RangeHobs(m, 0, peiIndex, peiLength)) == 0;
    hide RangeHobs, SumAboveOneMb;
    RangeHobsStep(m, 4, peiIndex, peiLength);
    RangeHobsStep(m, 3, peiIndex, peiLength);
    RangeHobsStep(m, 2, peiIndex, peiLength);
    RangeHobsStep(m, 1, peiIndex, peiLength);
    RangeHobsStep(m, 0, peiIndex, peiLength);
  }

  lemma RangeHobsStep(ranges: seq<Range>, n: nat, peiIndex: nat, peiLength: nat)
    requires n < |ranges|
    ensures SumAboveOneMb(RangeHobs(ranges, n + 1, peiIndex, peiLength))
         == SumAboveOneMb(RangeHobs(ranges, n, peiIndex, peiLength))
            + LengthAboveOneMb(RangeHob(ranges[n], n == peiIndex, peiLength))
  {
    var hobs := RangeHobs(ranges, n + 1, peiIndex, peiLength);
    assert hobs[..n] == RangeHobs(ranges, n, peiIndex, peiLength);
  }

  lemma MapBelowTotal(total: nat, tsegSize: nat)
    requires Fits(total, tsegSize)
    ensures forall i :: 0 <= i < 5 ==> MapFor(total, tsegSize)[i].End() <= total
  {
    hide TsegLength;
  }

  /** On a cold boot the sum of the descriptors is the address that the map reserves for the RMU shadow,
      whatever other descriptors the list holds below 1 MB or of another type, and even if no range can hold
      PEI memory. */
  lemma ColdSumIsRmuBase(
    before: seq<Hob>, after: seq<Hob>, total: UInt32, tsegSize: nat, peiLength: nat, maxAddress: nat)
    requires Fits(total, tsegSize) && maxAddress <= TWO_64 && Neutral(before) && Neutral(after)
    ensures MemoryTop(before + Descriptors(MapFor(total, tsegSize), peiLength, maxAddress) + after)
         == RmuBase(total, tsegSize)
  {
    hide TsegLength, RmuBase, LastFitting;
    var m := MapFor(total, tsegSize);
    MapBelowTotal(total, tsegSize);
    assert m[4].End() <= total;
    var k, hobs := PeiIndex(m, peiLength, maxAddress), Descriptors(m, peiLength, maxAddress);
    var pei := SystemMemory(PeiBase(m, peiLength, maxAddress), peiLength, true);
    SumAppend(before + hobs, after);
    SumAppend(before, hobs);
    SumAppend([pei], RangeHobs(m, 5, k, peiLength));
    assert [pei][..0] == [];
    SumOfMap(total, tsegSize, k, peiLength);
  }

  lemma MapAscending(total: nat, tsegSize: nat)
    requires Fits(total, tsegSize)
    ensures Ascending(MapFor(total, tsegSize))
  {
    hide TsegLength;
  }

  /** The cold path: map, PEI memory, capsule buffer, descriptors. */
  method InstallEfiMemory(total: UInt32, tsegSize: nat, peiLength: nat, maxAddress: nat, maxRanges: nat, mor: bool)
    returns (hobs: seq<Hob>, smram: seq<SmramDescriptor>, cleared: seq<Span>, peiBase: nat, capsuleStart: nat,
             capsuleLength: nat)
    requires maxRanges >= 5 && Fits(total, tsegSize) && maxAddress <= TWO_64
    ensures var m := MapFor(total, tsegSize);
            && hobs == Descriptors(m, peiLength, maxAddress)
            && smram == SmramRanges(m)
            && peiBase == PeiBase(m, peiLength, maxAddress)
            && (forall a: nat :: IsReserved(hobs, a) <==> a < total && !Main(a, total, tsegSize))
            && (LastFitting(m, peiLength, maxAddress) >= 0 ==>
                  forall a: nat :: IsSystem(hobs, a) <==> Main(a, total, tsegSize))
            && (if mor then forall a: nat :: InSpans(cleared, a) <==> Main(a, total, tsegSize) else cleared == [])
            && (LastFitting(m, peiLength, maxAddress) >= 0 ==>
                  && IsLargestFree(m, PeiIndex(m, peiLength, maxAddress), peiLength, maxAddress, capsuleStart, capsuleLength)
                  && BuffersApart(total, tsegSize, maxAddress, peiBase, peiLength, capsuleStart, capsuleLength))
            && (TsegLength(tsegSize) > 0 ==>
                  var tseg := total - TsegLength(tsegSize);
                  smram == [SmramDescriptor(tseg, tseg, TsegLength(tsegSize), true)])
  {
    hide MapFor, Main, InKind, IsSystem, IsReserved, InSpans, LastFitting, IsLargestFree,
         PeiBase, RangeHobs, ClearsMainMemory, SmramRanges, BuffersApart, TsegLength;
    var memoryMap := new Range[maxRanges](i => ZERO_RANGE);
    var status, numRanges := GetMemoryMap(total, tsegSize, memoryMap, maxRanges);
    MapAscending(total, tsegSize);
    var index;
    MapBelowTotal(total, tsegSize);
    assert forall i :: 0 <= i < numRanges ==> memoryMap[i] == MapFor(total, tsegSize)[i];
    peiBase, index, cleared := ChoosePeiMemory(memoryMap, numRanges, peiLength, maxAddress, mor);
    assert memoryMap[index] == MapFor(total, tsegSize)[index];
    capsuleStart, capsuleLength := LargestFreeRange(memoryMap, numRanges, index, peiLength, maxAddress);
    hobs := BuildDescriptors(memoryMap, numRanges, peiBase, index, peiLength);
    smram := SmramDescriptors(memoryMap, numRanges);
    AllKinds(total, tsegSize, peiLength, maxAddress);
    if mor {
      ClearsMain(cleared, total, tsegSize);
    }
    if LastFitting(MapFor(total, tsegSize), peiLength, maxAddress) >= 0 {
      BuffersMain(total, tsegSize, peiLength, maxAddress, capsuleStart, capsuleLength);
    }
    if TsegLength(tsegSize) > 0 {
      TsegDescriptor(total, tsegSize);
    }
  }

  /** PEI memory and the capsule buffer lie in main memory below the limit, and share no byte. */
  ghost predicate BuffersApart(
    total: nat, tsegSize: nat, maxAddress: nat, base: nat, peiLength: nat, start: nat, length: nat)
    requires Fits(total, tsegSize)
  {
    && (forall a: nat :: base <= a < base + peiLength ==> Main(a, total, tsegSize) && a < maxAddress)
    && (forall a: nat :: start <= a < start + length ==>
          Main(a, total, tsegSize) && a < maxAddress && !(base <= a < base + peiLength))
  }

  lemma TsegDescriptor(total: nat, tsegSize: nat)
    requires Fits(total, tsegSize) && TsegLength(tsegSize) > 0
    ensures var tseg := total - TsegLength(tsegSize);
            SmramRanges(MapFor(total, tsegSize)) == [SmramDescriptor(tseg, tseg, TsegLength(tsegSize), true)]
  {
    MapSmram(total, tsegSize);
    hide SmramRanges, TsegLength;
  }

  lemma BuffersMain(total: nat, tsegSize: nat, peiLength: nat, maxAddress: nat, start: nat, length: nat)
    requires Fits(total, tsegSize) && maxAddress <= TWO_64
    requires var m := MapFor(total, tsegSize);
             && LastFitting(m, peiLength, maxAddress) >= 0
             && IsLargestFree(m, PeiIndex(m, peiLength, maxAddress), peiLength, maxAddress, start, length)
    ensures BuffersApart(total, tsegSize, maxAddress, PeiBase(MapFor(total, tsegSize), peiLength, maxAddress), peiLength,
                         start, length)
  {
    MapAscending(total, tsegSize);
    hide MapFor, Main, InKind, LastFitting, IsLargestFree, PeiBase, PeiIndex, Ascending, Descriptors;
    var m := MapFor(total, tsegSize);
    var base := PeiBase(m, peiLength, maxAddress);
    forall a: nat
      ensures base <= a < base + peiLength ==> Main(a, total, tsegSize) && a < maxAddress
      ensures start <= a < start + length ==>
                Main(a, total, tsegSize) && a < maxAddress && !(base <= a < base + peiLength)
    {
      ColdKinds(total, tsegSize, peiLength, maxAddress, a);
      BuffersInMain(m, peiLength, maxAddress, start, length, a);
      if start <= a < start + length {
        CapsuleAvoidsPei(m, peiLength, maxAddress, start, length, a);
      }
    }
  }

  lemma AllKinds(total: nat, tsegSize: nat, peiLength: nat, maxAddress: nat)
    requires Fits(total, tsegSize) && maxAddress <= TWO_64
    ensures var m := MapFor(total, tsegSize);
            var hobs := Descriptors(m, peiLength, maxAddress);
            && (forall a: nat :: IsReserved(hobs, a) <==> a < total && !Main(a, total, tsegSize))
            && (LastFitting(m, peiLength, maxAddress) >= 0 ==>
                  forall a: nat :: IsSystem(hobs, a) <==> Main(a, total, tsegSize))
  {
    hide MapFor, Main, InKind, IsSystem, IsReserved, LastFitting, Descriptors;
    var m := MapFor(total, tsegSize);
    var hobs := Descriptors(m, peiLength, maxAddress);
    forall a: nat
      ensures IsReserved(hobs, a) <==> a < total && !Main(a, total, tsegSize)
      ensures LastFitting(m, peiLength, maxAddress) >= 0 ==> (IsSystem(hobs, a) <==> Main(a, total, tsegSize))
    {
      ColdKinds(total, tsegSize, peiLength, maxAddress, a);
    }
  }

  lemma ClearsMain(cleared: seq<Span>, total: nat, tsegSize: nat)
    requires Fits(total, tsegSize) && ClearsMainMemory(cleared, MapFor(total, tsegSize))
    ensures forall a: nat :: InSpans(cleared, a) <==> Main(a, total, tsegSize)
  {
    hide MapFor, Main, InKind, InSpans;
    forall a: nat
      ensures InKind(MapFor(total, tsegSize), MainMemory, a) <==> Main(a, total, tsegSize)
    {
      ColdKinds(total, tsegSize, 0, 0, a);
    }
  }

  /** PEI memory taken from the range above 1 MB ends where the RMU shadow begins, which is the address
      that SetPlatformImrPolicy protects as the shadow. */
  lemma PeiTopIsRmuBase(total: nat, tsegSize: nat, peiLength: nat, maxAddress: nat)
    requires Fits(total, tsegSize)
    ensures var m := MapFor(total, tsegSize);
            FitsPei(m[2], peiLength, maxAddress) ==>
              PeiBase(m, peiLength, maxAddress) + peiLength == RmuBase(total, tsegSize)
  {
    hide TsegLength;
    var m := MapFor(total, tsegSize);
    if FitsPei(m[2], peiLength, maxAddress) {
      var k := LastFitting(m, peiLength, maxAddress);
      assert !m[3].kind.MainMemory? && !m[4].kind.MainMemory?;
    }
  }

  // ---- S3 resume ----

  /** RESERVED_ACPI_S3_RANGE, kept in the first page of TSEG. */
  datatype S3Range = S3Range(base: UInt32, size: UInt32, systemMemoryLength: UInt32)

  const S3_RANGE_OFFSET: nat := PAGE - 12

  /** EFI_SMRAM_DESCRIPTOR of a closed region. */
  datatype SmramDescriptor = SmramDescriptor(physicalStart: nat, cpuStart: nat, physicalSize: nat, cacheable: bool)

  function DescriptorOf(r: Range): SmramDescriptor {
    SmramDescriptor(r.physical, r.cpu, r.length, r.kind.SmramCacheable?)
  }

  function SmramRanges(ranges: seq<Range>): seq<SmramDescriptor> {
    if ranges == [] then []
    else
      var n := |ranges| - 1;
      SmramRanges(ranges[..n]) + if ranges[n].IsSmram() then [DescriptorOf(ranges[n])] else []
  }

  /** The loop that fills the SMRAM descriptors. */
  method SmramDescriptors(memoryMap: array<Range>, numRanges: nat) returns (descriptors: seq<SmramDescriptor>)
    requires numRanges <= memoryMap.Length
    ensures descriptors == SmramRanges(memoryMap[..numRanges])
  {
    descriptors := [];
    ghost var ranges := memoryMap[..numRanges];
    for i := 0 to numRanges
      invariant descriptors == SmramRanges(ranges[..i])
    {
      assert ranges[..i + 1][..i] == ranges[..i] && ranges[i] == memoryMap[i];
      if memoryMap[i].kind.SmramCacheable? || memoryMap[i].kind.SmramNonCacheable? {
        var r := memoryMap[i];
        if r.kind.SmramCacheable? {
          descriptors := descriptors + [SmramDescriptor(r.physical, r.cpu, r.length, true)];
        } else {
          descriptors := descriptors + [SmramDescriptor(r.physical, r.cpu, r.length, false)];
        }
      }
    }
    assert ranges[..numRanges] == ranges;
  }

  lemma MapSmram(total: nat, tsegSize: nat)
    requires Fits(total, tsegSize)
    ensures SmramRanges(MapFor(total, tsegSize)) == [DescriptorOf(MapFor(total, tsegSize)[3])]
  {
    hide TsegLength;
    var m := MapFor(total, tsegSize);
    assert m[..4][..3] == m[..3] && m[..3][..2] == m[..2] && m[..2][..1] == m[..1] && m[..1][..0] == [];
    assert SmramRanges(m[..1]) == [];
    assert SmramRanges(m[..2]) == [];
    assert SmramRanges(m[..3]) == [];
    assert SmramRanges(m[..4]) == [DescriptorOf(m[3])];
  }

  /** System memory that lives through S3, as far as the two sides use it. */
  class Smram {
    var s3: map<nat, S3Range>

    constructor ()
      ensures s3 == map[]
    {
      s3 := map[];
    }

    /** ReservedS3Memory: base and size are the ACPI memory, if isAllocated says that there is any. */
    method ReservedS3Memory(
      descriptors: seq<SmramDescriptor>, systemMemoryLength: UInt32, isAllocated: bool, base: UInt32, size: UInt32)
      requires descriptors != []
      modifies this
      ensures var at := descriptors[|descriptors| - 1].physicalStart + 0xFF4;
              && at in s3
              && s3[at].systemMemoryLength == systemMemoryLength
              && (isAllocated ==> s3[at].base == base && s3[at].size == size)
              && (!isAllocated && at in old(s3) ==> s3[at].base == old(s3[at].base) && s3[at].size == old(s3[at].size))
              && s3 == old(s3)[at := s3[at]]
    {
      var at := descriptors[|descriptors| - 1].physicalStart + S3_RANGE_OFFSET;
      var range := if at in s3 then s3[at] else S3Range(0, 0, 0);
      if isAllocated {
        range := range.(base := base, size := size);
      }
      range := range.(systemMemoryLength := systemMemoryLength);
      s3 := s3[at := range];
    }
  }

  /** The descriptors of the resume path, from the length found in TSEG. The difference is a 32-bit one, and
      the assertion about it cannot fail. */
  function ResumeHobs(ranges: seq<Range>, saved: UInt32): seq<Hob> {
    [SystemMemory(ONE_MB, (saved - ONE_MB) % TWO_32, false)] + LowHobs(ranges)
  }

  function LowHobs(ranges: seq<Range>): seq<Hob> {
    if ranges == [] then []
    else
      var n := |ranges| - 1;
      var r := ranges[n];
      LowHobs(ranges[..n]) + if r.kind.MainMemory? && r.End() < ONE_MB then [SystemMemory(r.physical, r.length, false)] else []
  }

  /** The resume path: the same map, the range data found in TSEG, and the descriptors. */
  method InstallS3Memory(total: nat, tsegSize: nat, maxRanges: nat, smram: Smram)
    returns (hobs: seq<Hob>, peiBase: nat, peiSize: nat)
    requires maxRanges >= 5 && Fits(total, tsegSize)
    requires var at := MapFor(total, tsegSize)[3].physical + S3_RANGE_OFFSET;
             at in smram.s3
    ensures var saved := smram.s3[MapFor(total, tsegSize)[3].physical + 0xFF4].systemMemoryLength;
            saved >= 0x10_0000 ==> forall a: nat :: IsSystem(hobs, a) <==> a < 0xA_0000 || 0x10_0000 <= a < saved
    ensures var saved := smram.s3[MapFor(total, tsegSize)[3].physical + S3_RANGE_OFFSET];
            hobs == ResumeHobs(MapFor(total, tsegSize), saved.systemMemoryLength)
            && peiBase == saved.base && peiSize == saved.size
  {
    hide MapFor;
    var memoryMap := new Range[maxRanges](i => ZERO_RANGE);
    var status, numRanges := GetMemoryMap(total, tsegSize, memoryMap, maxRanges);
    var descriptors := SmramDescriptors(memoryMap, numRanges);
    MapSmram(total, tsegSize);
    var saved := smram.s3[descriptors[|descriptors| - 1].physicalStart + S3_RANGE_OFFSET];
    peiBase, peiSize := saved.base, saved.size;
    hobs := ResumeDescriptors(memoryMap, numRanges, saved.systemMemoryLength);
    if saved.systemMemoryLength >= 0x10_0000 {
      ResumeKinds(total, tsegSize, saved.systemMemoryLength);
    }
  }

  /** On resume, system memory is what is below the legacy hole and what is from 1 MB up to the saved length. */
  lemma ResumeKinds(total: nat, tsegSize: nat, saved: UInt32)
    requires Fits(total, tsegSize) && saved >= 0x10_0000
    ensures forall a: nat :: IsSystem(ResumeHobs(MapFor(total, tsegSize), saved), a) <==>
              a < 0xA_0000 || 0x10_0000 <= a < saved
  {
    LowOfMap(total, tsegSize);
    hide MapFor, LowHobs;
    var hobs := ResumeHobs(MapFor(total, tsegSize), saved);
    assert hobs == [SystemMemory(0x10_0000, saved - 0x10_0000, false), SystemMemory(0, 0xA_0000, false)];
    assert hobs[0].SystemMemory? && hobs[1].SystemMemory?;
  }

  lemma LowOfMap(total: nat, tsegSize: nat)
    requires Fits(total, tsegSize)
    ensures LowHobs(MapFor(total, tsegSize)) == [SystemMemory(0, 0xA_0000, false)]
  {
    hide TsegLength;
    var m := MapFor(total, tsegSize);
    assert m[..4][..3] == m[..3] && m[..3][..2] == m[..2] && m[..2][..1] == m[..1] && m[..1][..0] == [];
    assert LowHobs(m[..1]) == [SystemMemory(0, 0xA_0000, false)];
    assert LowHobs(m[..2]) == LowHobs(m[..1]);
    assert LowHobs(m[..3]) == LowHobs(m[..2]);
    assert LowHobs(m[..4]) == LowHobs(m[..3]);
  }

  method ResumeDescriptors(memoryMap: array<Range>, numRanges: nat, saved: UInt32) returns (hobs: seq<Hob>)
    requires numRanges <= memoryMap.Length
    ensures hobs == ResumeHobs(memoryMap[..numRanges], saved)
  {
    hobs := [SystemMemory(ONE_MB, (saved - ONE_MB) % TWO_32, false)];
    ghost var first, ranges := hobs, memoryMap[..numRanges];
    for i := 0 to numRanges
      invariant hobs == first + LowHobs(ranges[..i])
    {
      var r := memoryMap[i];
      assert ranges[..i + 1][..i] == ranges[..i] && ranges[i] == r;
      if r.kind.MainMemory? && r.End() < ONE_MB {
        hobs := hobs + [SystemMemory(r.physical, r.length, false)];
      }
    }
    assert ranges[..numRanges] == ranges;
  }

  lemma LowHobsNeutral(ranges: seq<Range>)
    ensures Neutral(LowHobs(ranges))
  {
    if ranges != [] {
      var n := |ranges| - 1;
      LowHobsNeutral(ranges[..n]);
      var r := ranges[n];
      var low := SystemMemory(r.physical, r.length, false);
      SumAppend(LowHobs(ranges[..n]), [low]);
      assert [low][..0] == [];
      assert SumAboveOneMb([low]) == LengthAboveOneMb(low);
      assert LowHobs(ranges[..n]) + [] == LowHobs(ranges[..n]);
    }
  }

  /** The sum on resume gives back the length saved at suspend. */
  lemma ResumeSumIsSaved(before: seq<Hob>, after: seq<Hob>, ranges: seq<Range>, saved: UInt32)
    requires Neutral(before) && Neutral(after)
    ensures MemoryTop(before + ResumeHobs(ranges, saved) + after) == saved
  {
    var hobs, first := ResumeHobs(ranges, saved), [SystemMemory(ONE_MB, (saved - ONE_MB) % TWO_32, false)];
    SumAppend(before + hobs, after);
    SumAppend(before, hobs);
    SumAppend(first, LowHobs(ranges));
    LowHobsNeutral(ranges);
    assert first[..0] == [];
  }

  /** Cold boot and resume agree: the length that the suspend side sums over the cold descriptors and
      saves makes the sum over the resume descriptors the RMU address of the cold map. */
  lemma BootsAgreeOnRmu(total: UInt32, tsegSize: nat, peiLength: nat, maxAddress: nat)
    requires Fits(total, tsegSize) && maxAddress <= TWO_64
    ensures var m := MapFor(total, tsegSize);
            var saved := MemoryTop(Descriptors(m, peiLength, maxAddress));
            && MemoryTop(ResumeHobs(m, saved)) == saved == RmuBase(total, tsegSize) == m[4].physical
  {
    hide TsegLength;
    var m := MapFor(total, tsegSize);
    var cold := Descriptors(m, peiLength, maxAddress);
    ColdSumIsRmuBase([], [], total, tsegSize, peiLength, maxAddress);
    assert [] + cold + [] == cold;
    var saved := MemoryTop(cold);
    ResumeSumIsSaved([], [], m, saved);
    assert [] + ResumeHobs(m, saved) + [] == ResumeHobs(m, saved);
  }

  /** A cold boot, a suspend and a resume, each in a HOB list of its own: every sum finds the RMU shadow
      where the map of the cold boot reserved it. */
  method ColdBootThenResume(
    total: UInt32, tsegSize: nat, peiLength: nat, maxAddress: nat, maxRanges: nat, mor: bool, smram: Smram,
    isAllocated: bool, base: UInt32, size: UInt32, before: seq<Hob>, after: seq<Hob>, before': seq<Hob>, after': seq<Hob>)
    returns (coldRmu: UInt32, resumeRmu: UInt32)
    requires maxRanges >= 5 && Fits(total, tsegSize) && maxAddress <= TWO_64
    requires Neutral(before) && Neutral(after) && Neutral(before') && Neutral(after')
    modifies smram
    ensures coldRmu == resumeRmu == RmuBase(total, tsegSize)
  {
    hide MapFor, LastFitting, TsegLength, RmuBase, Neutral, SumAboveOneMb, MemoryTop;
    var cold, descriptors, cleared, peiBase, capsuleStart, capsuleLength :=
      InstallEfiMemory(total, tsegSize, peiLength, maxAddress, maxRanges, mor);
    ColdSumIsRmuBase(before, after, total, tsegSize, peiLength, maxAddress);
    coldRmu := SumSystemMemory(before + cold + after);
    var saved := SumAtSuspend(before + cold + after);
    MapSmram(total, tsegSize);
    smram.ReservedS3Memory(descriptors, saved, isAllocated, base, size);
    var resumed, s3Base, s3Size := InstallS3Memory(total, tsegSize, maxRanges, smram);
    resumeRmu := SumSystemMemory(before' + resumed + after');
    ResumeSumIsSaved(before', after', MapFor(total, tsegSize), coldRmu);
  }

  // ---- How much PEI memory ----

  /** EFI_MEMORY_TYPE_INFORMATION; the entry of type EfiMaxMemoryType ends the list. */
  datatype TypeInfo = TypeInfo(isMax: bool, pages: nat)

  const PEI_MIN_MEMORY_SIZE: nat := 6 * 0x80_0000
  const DXE_PAGES: nat := 0x20
  const DEFAULT_INFO: seq<TypeInfo> :=
    [TypeInfo(false, 0x20), TypeInfo(false, 0x60), TypeInfo(false, 0x20), TypeInfo(false, 0x80), TypeInfo(false, 0x20),
     TypeInfo(true, 0)]

  function SumPages(info: seq<TypeInfo>): nat {
    if info == [] then 0 else SumPages(info[..|info| - 1]) + info[|info| - 1].pages
  }

  /** Every entry counts once. */
  lemma SumPagesOf(before: seq<TypeInfo>, x: TypeInfo, after: seq<TypeInfo>)
    ensures SumPages(before + [x] + after) == SumPages(before + after) + x.pages
    decreases |after|
  {
    if after == [] {
      assert before + [x] + after == before + [x] && before + after == before;
    } else {
      var n := |after| - 1;
      assert (before + [x] + after)[..|before| + 1 + n] == before + [x] + after[..n];
      assert (before + after)[..|before| + n] == before + after[..n];
      SumPagesOf(before, x, after[..n]);
    }
  }

  /** The entries before the end marker. */
  function BeforeMax(info: seq<TypeInfo>): (k: nat)
    ensures k <= |info|
    ensures forall i :: 0 <= i < k ==> !info[i].isMax
    ensures k < |info| ==> info[k].isMax
  {
    if info == [] || info[0].isMax then 0 else 1 + BeforeMax(info[1..])
  }

  /** found is the memory type variable; recovery boots do not read it. The type information used is
      handed on in a HOB. */
  method GetPlatformMemorySize(isRecovery: bool, isFound: bool, found: seq<TypeInfo>)
    returns (size: nat, used: seq<TypeInfo>)
    ensures used == (if isRecovery || !isFound then DEFAULT_INFO else found)
    ensures size == 48 * 0x10_0000 + SumPages(used) * 0x1000
  {
    used := if isRecovery || !isFound then DEFAULT_INFO else found;
    size := PEI_MIN_MEMORY_SIZE;
    for i := 0 to |used|
      invariant size == PEI_MIN_MEMORY_SIZE + SumPages(used[..i]) * PAGE
    {
      assert used[..i + 1][..i] == used[..i];
      size := size + used[i].pages * PAGE;
    }
    assert used[..|used|] == used;
  }

  function RequiredSize(info: seq<TypeInfo>): nat {
    var pages := SumPages(info[..BeforeMax(info)]);
    if pages == 0 then 0 else (pages + DXE_PAGES) * PAGE
  }

  /** info is the type information HOB, which has an end marker. */
  method RetriveRequiredMemorySize(info: seq<TypeInfo>) returns (size: nat)
    requires BeforeMax(info) < |info|
    ensures size == RequiredSize(info)
    ensures exists k :: 0 <= k < |info| && info[k].isMax && (forall i :: 0 <= i < k ==> !info[i].isMax)
                        && size == if SumPages(info[..k]) == 0 then 0 else (SumPages(info[..k]) + 32) * 0x1000
  {
    var pages, i := 0, 0;
    while !info[i].isMax
      invariant i <= BeforeMax(info) && pages == SumPages(info[..i])
      decreases |info| - i
    {
      assert info[..i + 1][..i] == info[..i];
      pages := pages + info[i].pages;
      i := i + 1;
    }
    if pages == 0 {
      return 0;
    }
    size := (pages + DXE_PAGES) * PAGE;
  }

  lemma {:induction false} SumPagesPrefix(info: seq<TypeInfo>, k: nat)
    requires k <= |info|
    ensures SumPages(info[..k]) <= SumPages(info)
    decreases |info|
  {
    if k < |info| {
      SumPagesPrefix(info[..|info| - 1], k);
      assert info[..|info| - 1][..k] == info[..k];
    } else {
      assert info[..k] == info;
    }
  }

  /** The memory kept for ACPI and runtime use at the top of PEI memory always leaves PEI 48 MB less the
      pages of the DXE memory manager. */
  lemma RequiredFitsPei(info: seq<TypeInfo>)
    ensures RequiredSize(info) + (PEI_MIN_MEMORY_SIZE - DXE_PAGES * PAGE)
         <= PEI_MIN_MEMORY_SIZE + SumPages(info) * PAGE
  {
    SumPagesPrefix(info, BeforeMax(info));
  }
}
