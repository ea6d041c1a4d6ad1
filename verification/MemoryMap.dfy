/** The memory map: how TSEG and the RMU shadow are carved from the top of memory. */
module MemoryMap {

  datatype Kind =
    | MainMemory | SmramCacheable | SmramNonCacheable | GraphicsCacheable | GraphicsNonCacheable | ReservedMemory

  datatype Range = Range(physical: nat, cpu: nat, length: nat, kind: Kind) {
    function End(): nat { physical + length }

    predicate Contains(a: nat) { physical <= a < physical + length }

    predicate IsSmram() { kind.SmramCacheable? || kind.SmramNonCacheable? }
  }

  /** An entry of a zeroed map. */
  const ZERO_RANGE := Range(0, 0, 0, MainMemory)

  const KB: nat := 1024
  const ONE_MB: nat := 0x10_0000
  const LEGACY_TOP: nat := 0xA_0000
  const RMU_SIZE: nat := 0x1_0000
  const TSEG_BLOCK: nat := 128 * KB
  const PAGE: nat := 0x1000
  const TWO_32: nat := 0x1_0000_0000

  type UInt32 = n: nat | n < 0x1_0000_0000

  // ---- TSEG ----

  predicate IsPow2(n: nat) {
    n == 1 || (n >= 2 && n % 2 == 0 && IsPow2(n / 2))
  }

  /** Powers of two are a factor of two apart. */
  lemma Pow2Gap(k: nat, n: nat)
    requires IsPow2(k) && IsPow2(n) && k < 2 * n
    ensures k <= n
  {
    if k >= 2 && n >= 2 {
      Pow2Gap(k / 2, n / 2);
    }
  }

  /** The size field of the SMRAM mask that ChooseRanges derives from the configured TSEG size. */
  function TsegMask(tsegSize: nat): nat {
    tsegSize / 0x2_0000
  }

  /** The count of 128 KB blocks: the top bit of the mask, 0 if the mask is 0. */
  function BlockCount(mask: nat): (n: nat)
    ensures mask == 0 <==> n == 0
    ensures mask > 0 ==> IsPow2(n) && n <= mask < 2 * n
  {
    if mask == 0 then 0 else if mask == 1 then 1 else 2 * BlockCount(mask / 2)
  }

  function TsegLength(tsegSize: nat): nat {
    BlockCount(TsegMask(tsegSize)) * TSEG_BLOCK
  }

  /** A power of two of 128 KB blocks. */
  predicate ArePow2Blocks(n: nat, length: nat) { IsPow2(n) && length == n * 0x2_0000 }

  /** TSEG takes the largest power-of-two count of blocks that is not above the configured size. */
  lemma TsegIsLargest(tsegSize: nat, k: nat)
    ensures TsegLength(tsegSize) <= tsegSize
    ensures TsegLength(tsegSize) == 0 || exists n :: ArePow2Blocks(n, TsegLength(tsegSize))
    ensures IsPow2(k) && k * 0x2_0000 <= tsegSize ==> k * 0x2_0000 <= TsegLength(tsegSize)
  {
    var n := BlockCount(TsegMask(tsegSize));
    assert n > 0 ==> ArePow2Blocks(n, TsegLength(tsegSize));
    if IsPow2(k) && k * 0x2_0000 <= tsegSize {
      assert k <= TsegMask(tsegSize);
      Pow2Positive(k);
      Pow2Gap(k, n);
    }
  }

  lemma Pow2Positive(k: nat)
    requires IsPow2(k)
    ensures k >= 1
  {
  }

  lemma DoubleEither(x: nat, y: nat)
    ensures (2 * x) * y == x * (y * 2)
  {
  }

  /** The shifting loop: mask goes down while the count goes up. */
  method LargestBlockCount(mask: nat) returns (count: nat)
    ensures count == BlockCount(mask)
  {
    var m: nat := mask;
    count := 1;
    while m > 0
      invariant m > 0 ==> BlockCount(mask) == BlockCount(m) * count
      invariant m == 0 ==> count == if mask == 0 then 1 else 2 * BlockCount(mask)
      decreases m
    {
      if m > 1 {
        DoubleEither(BlockCount(m / 2), count);
      }
      m := m / 2;
      count := count * 2;
    }
    count := count / 2;
  }

  // ---- GetMemoryMap ----

  /** There is room for the low megabyte, TSEG and the RMU shadow. */
  predicate Fits(total: nat, tsegSize: nat) {
    total >= ONE_MB + TsegLength(tsegSize) + RMU_SIZE
  }

  function TsegBase(total: nat, tsegSize: nat): nat
    requires Fits(total, tsegSize)
  {
    total - TsegLength(tsegSize)
  }

  function RmuBase(total: nat, tsegSize: nat): nat
    requires Fits(total, tsegSize)
  {
    TsegBase(total, tsegSize) - RMU_SIZE
  }

  /** The map for a total size. Without a TSEG block the code leaves the zeroed addresses of its entry. */
  function MapFor(total: nat, tsegSize: nat): (map_: seq<Range>)
    requires Fits(total, tsegSize)
    ensures |map_| == 5
  {
    var rmu, tseg := RmuBase(total, tsegSize), TsegBase(total, tsegSize);
    [Range(0, 0, LEGACY_TOP, MainMemory),
     Range(LEGACY_TOP, LEGACY_TOP, ONE_MB - LEGACY_TOP, ReservedMemory),
     Range(ONE_MB, ONE_MB, rmu - ONE_MB, MainMemory),
     if tseg < total then Range(tseg, tseg, total - tseg, SmramCacheable) else ZERO_RANGE.(kind := SmramCacheable),
     Range(rmu, rmu, RMU_SIZE, ReservedMemory)]
  }

  datatype Status = Success | BufferTooSmall

  method GetMemoryMap(total: nat, tsegSize: nat, memoryMap: array<Range>, maxRanges: nat)
    returns (status: Status, numRanges: nat)
    requires maxRanges >= 5 && Fits(total, tsegSize)
    requires forall i :: 0 <= i < memoryMap.Length ==> memoryMap[i] == ZERO_RANGE
    modifies memoryMap
    ensures status == BufferTooSmall <==> memoryMap.Length < maxRanges
    ensures status == BufferTooSmall ==> memoryMap[..] == old(memoryMap[..])
    ensures status == Success ==> numRanges == 5 && memoryMap[..5] == MapFor(total, tsegSize)
  {
    hide BlockCount;
    numRanges := 0;
    if memoryMap.Length < maxRanges {
      return BufferTooSmall, memoryMap.Length;
    }
    var memorySize, rowLength := 0, total;
    memoryMap[numRanges] := Range(memorySize, memorySize, LEGACY_TOP, MainMemory);
    numRanges := numRanges + 1;
    memoryMap[numRanges] := Range(LEGACY_TOP, LEGACY_TOP, 0x6_0000, ReservedMemory);
    numRanges := numRanges + 1;
    rowLength := rowLength - (ONE_MB - memorySize);
    memorySize := ONE_MB;
    memoryMap[numRanges] := Range(memorySize, memorySize, rowLength, MainMemory);
    numRanges := numRanges + 1;
    memorySize := memorySize + rowLength;
    var extended := numRanges - 1;

    var blocks := LargestBlockCount(TsegMask(tsegSize));
    if blocks != 0 {
      var length := blocks * 128 * 1024;
      memorySize := memorySize - length;
      memoryMap[numRanges] := Range(memorySize, memorySize, length, ZERO_RANGE.kind);
      memoryMap[extended] := memoryMap[extended].(length := memoryMap[extended].length - length);
    }
    memoryMap[numRanges] := memoryMap[numRanges].(kind := SmramCacheable);
    numRanges := numRanges + 1;

    memorySize := memorySize - RMU_SIZE;
    memoryMap[numRanges] := Range(memorySize, memorySize, RMU_SIZE, ReservedMemory);
    memoryMap[extended] := memoryMap[extended].(length := memoryMap[extended].length - RMU_SIZE);
    numRanges := numRanges + 1;
    return Success, numRanges;
  }

  /** How many ranges of a map contain the address a. */
  function RangesAt(ranges: seq<Range>, a: nat): nat {
    if ranges == [] then 0 else (if ranges[0].Contains(a) then 1 else 0) + RangesAt(ranges[1..], a)
  }

  /** The map is a partition of [0, total): every address is in exactly one range, and no other is in any. */
  lemma MapPartitions(total: nat, tsegSize: nat, a: nat)
    requires Fits(total, tsegSize)
    ensures RangesAt(MapFor(total, tsegSize), a) == if a < total then 1 else 0
  {
    hide TsegLength;
    var m := MapFor(total, tsegSize);
    RangesAtFive(m[0], m[1], m[2], m[3], m[4], a);
    assert m == [m[0], m[1], m[2], m[3], m[4]];
  }

  /** Some range of this kind contains the address a. */
  ghost predicate InKind(ranges: seq<Range>, kind: Kind, a: nat) {
    exists i :: 0 <= i < |ranges| && ranges[i].kind == kind && ranges[i].Contains(a)
  }

  /** What every address is: main memory but for the legacy hole, SMRAM at the top, the RMU shadow below it. */
  lemma MapKinds(total: nat, tsegSize: nat, a: nat)
    requires Fits(total, tsegSize)
    ensures var m, tseg := MapFor(total, tsegSize), total - TsegLength(tsegSize);
            && (InKind(m, MainMemory, a) <==> a < 0xA_0000 || 0x10_0000 <= a < tseg - 0x1_0000)
            && (InKind(m, SmramCacheable, a) <==> tseg <= a < total)
            && (InKind(m, ReservedMemory, a) <==> 0xA_0000 <= a < 0x10_0000 || tseg - 0x1_0000 <= a < tseg)
            && forall i :: 0 <= i < |m| ==>
                 m[i].cpu == m[i].physical && (m[i].kind.MainMemory? || m[i].kind.SmramCacheable? || m[i].kind.ReservedMemory?)
  {
    hide TsegLength;
    var m, tseg := MapFor(total, tsegSize), total - TsegLength(tsegSize);
    if a < 0xA_0000 {
      assert m[0].Contains(a) && m[0].kind.MainMemory?;
    } else if a < 0x10_0000 {
      assert m[1].Contains(a) && m[1].kind.ReservedMemory?;
    } else if a < tseg - 0x1_0000 {
      assert m[2].Contains(a) && m[2].kind.MainMemory?;
    } else if a < tseg {
      assert m[4].Contains(a) && m[4].kind.ReservedMemory?;
    } else if a < total {
      assert m[3].Contains(a) && m[3].kind.SmramCacheable?;
    }
  }

  lemma RangesAtFive(r0: Range, r1: Range, r2: Range, r3: Range, r4: Range, a: nat)
    ensures RangesAt([r0, r1, r2, r3, r4], a)
         == (if r0.Contains(a) then 1 else 0) + (if r1.Contains(a) then 1 else 0) + (if r2.Contains(a) then 1 else 0)
            + (if r3.Contains(a) then 1 else 0) + (if r4.Contains(a) then 1 else 0)
  {
    RangesAtHead(r4, [], a);
    RangesAtHead(r3, [r4], a);
    RangesAtHead(r2, [r3, r4], a);
    RangesAtHead(r1, [r2, r3, r4], a);
    RangesAtHead(r0, [r1, r2, r3, r4], a);
    assert [r4] == [r4] + [] && [r3] + [r4] == [r3, r4] && [r2] + [r3, r4] == [r2, r3, r4];
    assert [r1] + [r2, r3, r4] == [r1, r2, r3, r4];
    assert [r0] + [r1, r2, r3, r4] == [r0, r1, r2, r3, r4];
  }

  lemma RangesAtHead(r: Range, rest: seq<Range>, a: nat)
    ensures RangesAt([r] + rest, a) == (if r.Contains(a) then 1 else 0) + RangesAt(rest, a)
  {
    assert ([r] + rest)[1..] == rest;
  }
}
