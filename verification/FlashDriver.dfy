/**
 The firmware volume block driver. Flash is one byte array; a program operation can only clear bits, and an
 erase operation sets one sector to 0xFF. A failing operation may have been carried out in part.
 */
module FlashDriver {
  import opened BlockMap
  import opened FlashAttributes

  const SECTOR: nat := 0x1000
  const ERASED: bv8 := 0xFF
  const TWO_32: nat := 0x1_0000_0000

  const TWO_64: nat := 0x1_0000_0000_0000_0000

  /** Flash takes half of the 32-bit address space at most. */
  const MAX_FLASH: nat := 0x8000_0000

  // ---- Flash contents ----

  function Programmed(m: seq<bv8>, at: nat, data: seq<bv8>): (m': seq<bv8>)
    requires at + |data| <= |m|
    ensures |m'| == |m|
  {
    seq(|m|, i requires 0 <= i < |m| => if at <= i < at + |data| then m[i] & data[i - at] else m[i])
  }

  function Erased(m: seq<bv8>, at: nat, n: nat): (m': seq<bv8>)
    requires at + n <= |m|
    ensures |m'| == |m|
  {
    seq(|m|, i requires 0 <= i < |m| => if at <= i < at + n then ERASED else m[i])
  }

  /** m' differs from m at most in the n bytes from at on. */
  ghost predicate SameOutside(m: seq<bv8>, m': seq<bv8>, at: nat, n: nat) {
    |m'| == |m| && forall i :: 0 <= i < |m| && !(at <= i < at + n) ==> m'[i] == m[i]
  }

  /** Programming erased bytes stores the data. */
  lemma ProgramErased(x: bv8)
    ensures ERASED & x == x
  {
  }

  // ---- Volumes ----

  /** One EFI_FW_VOL_INSTANCE. base is the position of the volume in flash. */
  datatype Volume = Volume(base: nat, blocks: seq<Entry>, numOfBlocks: nat, writeEnabled: bool, attributes: bv32) {
    function Size(): nat { BlockOffset(blocks, Reachable(blocks)) }

    function BlockAt(lba: nat): nat
      requires lba <= Reachable(blocks)
    {
      base + BlockOffset(blocks, lba)
    }

    predicate CanWrite() { writeEnabled && Has(attributes, WRITE_STATUS) }

    predicate CanRead() { Has(attributes, READ_STATUS) }

    /** The volume as initialisation leaves it, in a flash of the given size; blocks are whole sectors. */
    ghost predicate Valid(flashSize: nat) {
      && Terminated(blocks) && WellTerminated(blocks) && numOfBlocks == Counted(blocks) < TWO_32
      && base % SECTOR == 0 && base + Size() <= flashSize
      && forall i :: 0 <= i < Reachable(blocks) ==> BlockLength(blocks, i) % SECTOR == 0
    }

    predicate Holds(at: nat) { base <= at < base + Size() }
  }

  lemma BlockInVolume(v: Volume, flashSize: nat, lba: nat)
    requires v.Valid(flashSize) && lba < Reachable(v.blocks)
    ensures v.base <= v.BlockAt(lba)
    ensures v.BlockAt(lba) + BlockLength(v.blocks, lba) <= v.base + v.Size()
    ensures v.BlockAt(lba) % SECTOR == 0 && BlockLength(v.blocks, lba) % SECTOR == 0
    ensures v.numOfBlocks == Reachable(v.blocks)
  {
    hide BlockOffset, BlockLength, Counted, Reachable, WellTerminated;
    CountsAgree(v.blocks);
    ExtentsDisjoint(v.blocks, lba, Reachable(v.blocks));
    OffsetInSectors(v.blocks, lba);
    SumInSectors(v.base, BlockOffset(v.blocks, lba));
  }

  lemma SumInSectors(a: nat, b: nat)
    requires a % SECTOR == 0 && b % SECTOR == 0
    ensures (a + b) % SECTOR == 0
  {
  }

  lemma {:induction false} OffsetInSectors(blocks: seq<Entry>, lba: nat)
    requires lba <= Reachable(blocks)
    requires forall i :: 0 <= i < Reachable(blocks) ==> BlockLength(blocks, i) % SECTOR == 0
    ensures BlockOffset(blocks, lba) % SECTOR == 0
  {
    if lba > 0 {
      OffsetInSectors(blocks, lba - 1);
      SumInSectors(BlockOffset(blocks, lba - 1), BlockLength(blocks, lba - 1));
    }
  }

  // ---- The device ----

  /** One program operation. A faultless device carries it out; another may stop anywhere. */
  method Program(flash: array<bv8>, at: nat, data: seq<bv8>, faultless: bool) returns (ok: bool)
    requires at + |data| <= flash.Length
    modifies flash
    ensures faultless ==> ok
    ensures ok ==> flash[..] == Programmed(old(flash[..]), at, data)
    ensures SameOutside(old(flash[..]), flash[..], at, |data|)
  {
    // How many bytes the device gets to program.
    var done: nat :| done <= |data| && (faultless ==> done == |data|);
    forall i | 0 <= i < done {
      flash[at + i] := flash[at + i] & data[i];
    }
    ok := done == |data|;
  }

  /** One erase operation: the sector that holds position at. */
  method EraseSector(flash: array<bv8>, at: nat, faultless: bool) returns (ok: bool)
    requires at < flash.Length && flash.Length % SECTOR == 0
    modifies flash
    ensures faultless ==> ok
    ensures var s := at / SECTOR * SECTOR;
            && s + SECTOR <= flash.Length
            && (ok ==> flash[..] == Erased(old(flash[..]), s, SECTOR))
            && SameOutside(old(flash[..]), flash[..], s, SECTOR)
  {
    var s := at / SECTOR * SECTOR;
    var done: nat :| done <= SECTOR && (faultless ==> done == SECTOR);
    forall i | 0 <= i < done {
      flash[s + i] := ERASED;
    }
    ok := done == SECTOR;
  }

  lemma ErasedStep(m: seq<bv8>, at: nat, n: nat, k: nat)
    requires at + n + k <= |m|
    ensures Erased(Erased(m, at, n), at + n, k) == Erased(m, at, n + k)
  {
  }

  lemma ErasedNothing(m: seq<bv8>, at: nat)
    requires at <= |m|
    ensures Erased(m, at, 0) == m
  {
  }

  lemma OutsideWider(m: seq<bv8>, m': seq<bv8>, at: nat, n: nat, at': nat, n': nat)
    requires SameOutside(m, m', at, n) && at' <= at && at + n <= at' + n'
    ensures SameOutside(m, m', at', n')
  {
  }

  lemma OutsideThen(m: seq<bv8>, m1: seq<bv8>, m2: seq<bv8>, at: nat, n: nat)
    requires SameOutside(m, m1, at, n) && SameOutside(m1, m2, at, n)
    ensures SameOutside(m, m2, at, n)
  {
  }

  // ---- What the checks of the operations answer ----

  /** The bytes of a transfer that stay inside the block. */
  function Clipped(length: nat, offset: nat, n: nat): nat
    requires offset <= length
  {
    if length < n + offset then length - offset else n
  }

  function TransferCheck(v: Volume, lba: nat, offset: nat, n: nat, enabled: bool): Status {
    if n == 0 || lba >= Reachable(v.blocks) then InvalidParameter
    else if !enabled then AccessDenied
    else if offset > BlockLength(v.blocks, lba) then InvalidParameter
    else if BlockLength(v.blocks, lba) < n + offset then BadBufferSize
    else Success
  }

  function ReadCheck(v: Volume, lba: nat, offset: nat, n: nat, present: bool): Status {
    if !present then InvalidParameter else TransferCheck(v, lba, offset, n, v.CanRead())
  }

  function WriteCheck(v: Volume, lba: nat, offset: nat, n: nat, present: bool): Status {
    if !v.writeEnabled then AccessDenied
    else if !present then InvalidParameter
    else TransferCheck(v, lba, offset, n, v.CanWrite())
  }

  function EraseCheck(v: Volume, lba: nat): Status {
    if !v.CanWrite() then AccessDenied
    else if lba >= Reachable(v.blocks) then InvalidParameter
    else Success
  }

  /** The answer to a read, by the bits of the attributes: 0x04 is the read status. */
  lemma ReadCheckMeans(v: Volume, lba: nat, offset: nat, n: nat, present: bool)
    ensures var status, good := ReadCheck(v, lba, offset, n, present), present && n > 0 && lba < Reachable(v.blocks);
            && (status == AccessDenied <==> good && v.attributes & 0x04 == 0)
            && (status == BadBufferSize <==>
                  good && v.attributes & 0x04 != 0 && offset <= BlockLength(v.blocks, lba) < offset + n)
            && (status == Success <==>
                  good && v.attributes & 0x04 != 0 && offset + n <= BlockLength(v.blocks, lba))
            && status != DeviceError
  {
    hide BlockLength, Reachable;
    StatusBitsMean(v.attributes);
  }

  /** The answer to a write: 0x20 is the write status. */
  lemma WriteCheckMeans(v: Volume, lba: nat, offset: nat, n: nat, present: bool)
    ensures var status, good := WriteCheck(v, lba, offset, n, present), present && n > 0 && lba < Reachable(v.blocks);
            && (status == AccessDenied <==> !v.writeEnabled || (good && v.attributes & 0x20 == 0))
            && (status == BadBufferSize <==>
                  v.writeEnabled && good && v.attributes & 0x20 != 0 && offset <= BlockLength(v.blocks, lba) < offset + n)
            && (status == Success <==>
                  v.writeEnabled && good && v.attributes & 0x20 != 0 && offset + n <= BlockLength(v.blocks, lba))
            && status != DeviceError
  {
    hide BlockLength, Reachable;
    StatusBitsMean(v.attributes);
  }

  /** The answer to an erase. */
  lemma EraseCheckMeans(v: Volume, lba: nat)
    ensures EraseCheck(v, lba) == AccessDenied <==> !v.writeEnabled || v.attributes & 0x20 == 0
    ensures EraseCheck(v, lba) == Success <==> v.writeEnabled && v.attributes & 0x20 != 0 && lba < Reachable(v.blocks)
    ensures EraseCheck(v, lba) != BadBufferSize && EraseCheck(v, lba) != DeviceError
  {
    hide BlockLength, Reachable;
    StatusBitsMean(v.attributes);
  }

  /** A transfer is as long as asked for, or up to the end of the block. */
  lemma ClippedMeans(length: nat, offset: nat, n: nat)
    requires offset <= length
    ensures var r := Clipped(length, offset, n); offset + r <= length && r <= n && (r == n || offset + r == length)
  {
  }

  /** The checks let the operation go to the device. */
  predicate GoesOn(status: Status) { status == Success || status == BadBufferSize }

  ghost predicate Disjoint(v: Volume, w: Volume) {
    v.base + v.Size() <= w.base || w.base + w.Size() <= v.base
  }

  ghost predicate ValidVolumes(volumes: seq<Volume>, flashSize: nat, scratchSize: nat) {
    && (forall i :: 0 <= i < |volumes| ==> volumes[i].Valid(flashSize))
    && (forall i, lba :: 0 <= i < |volumes| && 0 <= lba < Reachable(volumes[i].blocks) ==>
          BlockLength(volumes[i].blocks, lba) <= scratchSize)
    && (forall i, j :: 0 <= i < j < |volumes| ==> Disjoint(volumes[i], volumes[j]))
  }

  // ---- Erase requests ----

  predicate InBlock(v: Volume, lba: nat, at: nat)
    requires lba < Reachable(v.blocks)
  {
    v.BlockAt(lba) <= at < v.BlockAt(lba) + BlockLength(v.blocks, lba)
  }

  /** A 64-bit block number that is not the terminator of the argument list, and a 32-bit count. */
  type Lba = n: nat | n < 0xFFFF_FFFF_FFFF_FFFF
  type Count = n: nat | n < 0x1_0000_0000

  /** A pair of the argument list: a first block and a count. */
  datatype Request = Request(lba: Lba, count: Count)

  /** The pair is non-empty and ends inside the volume. */
  predicate InRange(v: Volume, r: Request) { r.count > 0 && r.lba + r.count <= v.numOfBlocks }

  predicate AllInRange(v: Volume, rs: seq<Request>) {
    forall j :: 0 <= j < |rs| ==> InRange(v, rs[j])
  }

  /** What the validation loop tests: the sum is a 64-bit one. */
  predicate Accepts(v: Volume, r: Request) { r.count > 0 && (r.lba + r.count) % TWO_64 <= v.numOfBlocks }

  predicate Accepted(v: Volume, rs: seq<Request>) {
    forall j :: 0 <= j < |rs| ==> Accepts(v, rs[j])
  }

  predicate Wraps(r: Request) { r.lba + r.count >= TWO_64 }

  /** The first pair whose sum wraps, |rs| if none does. */
  function FirstWrap(rs: seq<Request>): (k: nat)
    ensures k <= |rs|
    ensures k < |rs| ==> Wraps(rs[k])
    ensures forall j :: 0 <= j < k ==> !Wraps(rs[j])
  {
    if rs == [] || Wraps(rs[0]) then 0 else 1 + FirstWrap(rs[1..])
  }

  /** Accepted pairs are in range unless they wrap; those that do start behind the volume. */
  lemma AcceptedPair(v: Volume, r: Request)
    requires Accepts(v, r) && v.numOfBlocks < TWO_32
    ensures InRange(v, r) <==> !Wraps(r)
    ensures Wraps(r) ==> r.lba >= v.numOfBlocks
  {
  }

  /** A pair that does not wrap is accepted exactly if it is in range. */
  lemma PlainPair(v: Volume, r: Request)
    requires !Wraps(r)
    ensures Accepts(v, r) <==> InRange(v, r)
  {
  }

  lemma AcceptedPrefix(v: Volume, rs: seq<Request>)
    requires Accepted(v, rs) && v.numOfBlocks < TWO_32
    ensures AllInRange(v, rs[..FirstWrap(rs)])
    ensures AllInRange(v, rs) <==> FirstWrap(rs) == |rs|
  {
    hide Accepts, InRange, Wraps;
    forall j | 0 <= j < |rs|
      ensures InRange(v, rs[j]) <==> !Wraps(rs[j])
    {
      AcceptedPair(v, rs[j]);
    }
    var k := FirstWrap(rs);
    if k < |rs| {
      assert !InRange(v, rs[k]);
    }
  }

  /** at lies in a requested block. */
  ghost predicate InRequests(v: Volume, rs: seq<Request>, at: nat) {
    exists j, lba :: 0 <= j < |rs| && rs[j].lba <= lba < rs[j].lba + rs[j].count
                     && lba < Reachable(v.blocks) && InBlock(v, lba, at)
  }

  /** Flash after the first count blocks of one request. */
  ghost function ErasedRun(m: seq<bv8>, v: Volume, lba: nat, count: nat): (m': seq<bv8>)
    requires v.Valid(|m|) && lba + count <= Reachable(v.blocks)
    ensures |m'| == |m|
  {
    if count == 0 then m
    else
      BlockInVolume(v, |m|, lba + count - 1);
      Erased(ErasedRun(m, v, lba, count - 1), v.BlockAt(lba + count - 1), BlockLength(v.blocks, lba + count - 1))
  }

  /** Flash after the first k requests. */
  ghost function ErasedRequests(m: seq<bv8>, v: Volume, rs: seq<Request>, k: nat): (m': seq<bv8>)
    requires v.Valid(|m|) && AllInRange(v, rs) && k <= |rs|
    ensures |m'| == |m|
  {
    if k == 0 then m
    else
      CountsAgree(v.blocks);
      ErasedRun(ErasedRequests(m, v, rs, k - 1), v, rs[k - 1].lba, rs[k - 1].count)
  }

  lemma {:induction false} ErasedRunAt(m: seq<bv8>, v: Volume, lba: nat, count: nat, at: nat)
    requires v.Valid(|m|) && lba + count <= Reachable(v.blocks) && at < |m|
    ensures ErasedRun(m, v, lba, count)[at]
         == if exists b :: lba <= b < lba + count && InBlock(v, b, at) then ERASED else m[at]
  {
    hide BlockOffset, BlockLength, Reachable;
    if count > 0 {
      ErasedRunAt(m, v, lba, count - 1, at);
      BlockInVolume(v, |m|, lba + count - 1);
      var last := lba + count - 1;
      if InBlock(v, last, at) {
        assert lba <= last < lba + count;
      }
    }
  }

  /** Erasing the requests sets the bytes of exactly the requested blocks and leaves every other byte. */
  lemma {:induction false} ErasedRequestsAt(m: seq<bv8>, v: Volume, rs: seq<Request>, k: nat, at: nat)
    requires v.Valid(|m|) && AllInRange(v, rs) && k <= |rs| && at < |m|
    ensures ErasedRequests(m, v, rs, k)[at] == if InRequests(v, rs[..k], at) then ERASED else m[at]
  {
    hide BlockOffset, BlockLength, Reachable, InBlock, ErasedRun;
    CountsAgree(v.blocks);
    if k > 0 {
      ErasedRequestsAt(m, v, rs, k - 1, at);
      ErasedRunAt(ErasedRequests(m, v, rs, k - 1), v, rs[k - 1].lba, rs[k - 1].count, at);
      RequestsPrefix(v, rs, k, at);
    }
  }

  lemma RequestsPrefix(v: Volume, rs: seq<Request>, k: nat, at: nat)
    requires 0 < k <= |rs| && AllInRange(v, rs) && v.numOfBlocks == Reachable(v.blocks)
    ensures InRequests(v, rs[..k], at)
        <==> InRequests(v, rs[..k - 1], at)
             || exists b :: rs[k - 1].lba <= b < rs[k - 1].lba + rs[k - 1].count && InBlock(v, b, at)
  {
    hide InBlock;
    var r := rs[k - 1];
    if InRequests(v, rs[..k], at) {
      var j, b :| 0 <= j < k && rs[j].lba <= b < rs[j].lba + rs[j].count && b < Reachable(v.blocks) && InBlock(v, b, at);
      if j < k - 1 {
        assert rs[..k - 1][j] == rs[j];
      }
    }
    if InRequests(v, rs[..k - 1], at) {
      var j, b :| 0 <= j < k - 1 && rs[j].lba <= b < rs[j].lba + rs[j].count && b < Reachable(v.blocks) && InBlock(v, b, at);
      assert rs[..k][j] == rs[j];
    }
    if b :| r.lba <= b < r.lba + r.count && InBlock(v, b, at) {
      assert rs[..k][k - 1] == r;
    }
  }

  /** m' differs from m in requested blocks only. */
  ghost predicate SameUnrequested(m: seq<bv8>, m': seq<bv8>, v: Volume, rs: seq<Request>) {
    |m'| == |m| && forall at :: 0 <= at < |m| && !InRequests(v, rs, at) ==> m'[at] == m[at]
  }

  // ---- What a call with an argument list does ----

  /** Flash after FvbProtocolEraseBlocks, when no device operation fails: a list that the validation lets
      through is served up to the first pair that wraps. */
  ghost function AfterEraseCall(m: seq<bv8>, v: Volume, rs: seq<Request>): (m': seq<bv8>)
    requires v.Valid(|m|)
    ensures |m'| == |m|
  {
    if Accepted(v, rs) && v.CanWrite() then
      AcceptedPrefix(v, rs);
      ErasedRequests(m, v, rs[..FirstWrap(rs)], FirstWrap(rs))
    else m
  }

  /** A list with an empty or out-of-range pair leaves every flash unchanged exactly if the validation
      rejects it, or its first pair is the one that wraps, or the volume cannot be written. */
  lemma OutOfRangeUnchangedWhen(v: Volume, rs: seq<Request>, flashSize: nat)
    requires v.Valid(flashSize) && !AllInRange(v, rs)
    ensures (forall m: seq<bv8> :: |m| == flashSize ==> AfterEraseCall(m, v, rs) == m)
       <==> !Accepted(v, rs) || FirstWrap(rs) == 0 || !v.CanWrite()
  {
    hide BlockOffset, BlockLength, Reachable, Has, ErasedRun, Accepted, AllInRange, Volume.Valid;
    if Accepted(v, rs) && FirstWrap(rs) > 0 && v.CanWrite() {
      var m := seq(flashSize, i => 0 as bv8);
      FirstPairErased(m, v, rs);
      assert AfterEraseCall(m, v, rs)[v.BlockAt(rs[0].lba)] != m[v.BlockAt(rs[0].lba)];
    }
  }

  /** The first block of an accepted list whose first pair does not wrap gets erased. */
  lemma FirstPairErased(m: seq<bv8>, v: Volume, rs: seq<Request>)
    requires v.Valid(|m|) && Accepted(v, rs) && FirstWrap(rs) > 0 && v.CanWrite()
    ensures rs[0].lba < Reachable(v.blocks) && v.BlockAt(rs[0].lba) < |m|
    ensures AfterEraseCall(m, v, rs)[v.BlockAt(rs[0].lba)] == ERASED
  {
    hide BlockOffset, BlockLength, Reachable, Has, ErasedRun, ErasedRequests;
    var k := FirstWrap(rs);
    AcceptedPrefix(v, rs);
    CountsAgree(v.blocks);
    assert InRange(v, rs[..k][0]);
    BlockInVolume(v, |m|, rs[0].lba);
    var at := v.BlockAt(rs[0].lba);
    ErasedRequestsAt(m, v, rs[..k], k, at);
    assert rs[..k][..k][0] == rs[0] && InBlock(v, rs[0].lba, at);
  }

  /** A list without wrapping sums that is not in range is rejected, and so changes nothing. */
  lemma PlainListRejected(v: Volume, rs: seq<Request>)
    requires !AllInRange(v, rs) && forall j :: 0 <= j < |rs| ==> !Wraps(rs[j])
    ensures !Accepted(v, rs)
  {
    hide Wraps, InRange, Accepts;
    var j :| 0 <= j < |rs| && !InRange(v, rs[j]);
    PlainPair(v, rs[j]);
  }

  /** The validation lets this list through, although block 0xFFFF_FFFF_FFFF_FFFE does not exist: block 0
      is erased before that is found out. */
  lemma WrappingList(m: seq<bv8>, v: Volume)
    requires v.Valid(|m|) && v.CanWrite() && v.numOfBlocks > 0
    ensures var rs := [Request(0, 1), Request(0xFFFF_FFFF_FFFF_FFFE, 2)];
            && Accepted(v, rs) && !AllInRange(v, rs) && FirstWrap(rs) == 1
            && 0 < Reachable(v.blocks) && v.BlockAt(0) < |m| && AfterEraseCall(m, v, rs)[v.BlockAt(0)] == ERASED
  {
    hide BlockOffset, BlockLength, Reachable, Has, ErasedRun, AfterEraseCall;
    var rs := [Request(0, 1), Request(0xFFFF_FFFF_FFFF_FFFE, 2)];
    assert !Wraps(rs[0]) && Wraps(rs[1]) && !InRange(v, rs[1]);
    assert Accepts(v, rs[0]) && Accepts(v, rs[1]);
    FirstPairErased(m, v, rs);
  }

  lemma StillUnrequested(m: seq<bv8>, m1: seq<bv8>, m2: seq<bv8>, v: Volume, rs: seq<Request>, j: nat, lba: nat)
    requires SameUnrequested(m, m1, v, rs) && j < |rs| && rs[j].lba <= lba < rs[j].lba + rs[j].count
    requires lba < Reachable(v.blocks) && SameOutside(m1, m2, v.BlockAt(lba), BlockLength(v.blocks, lba))
    ensures SameUnrequested(m, m2, v, rs)
  {
    hide BlockOffset, BlockLength, Reachable;
    forall at | 0 <= at < |m| && !InRequests(v, rs, at)
      ensures m2[at] == m[at]
    {
      assert !InBlock(v, lba, at);
    }
  }

  // ---- Erasing a custom range ----

  /** Both blocks are in the volume, and the scratch space can hold either. */
  ghost predicate Spans(v: Volume, flashSize: nat, scratchSize: nat, first: nat, last: nat) {
    && flashSize <= MAX_FLASH && v.Valid(flashSize) && first <= last < Reachable(v.blocks)
    && BlockLength(v.blocks, first) <= scratchSize && BlockLength(v.blocks, last) <= scratchSize
  }

  /** The scratch space after an attempt to read a block into it. */
  ghost function Saved(m: seq<bv8>, s: seq<bv8>, v: Volume, lba: nat): (s': seq<bv8>)
    requires v.Valid(|m|) && lba < Reachable(v.blocks) && BlockLength(v.blocks, lba) <= |s|
    ensures |s'| == |s|
  {
    BlockInVolume(v, |m|, lba);
    var at, length := v.BlockAt(lba), BlockLength(v.blocks, lba);
    if v.CanRead() then m[at..at + length] + s[length..] else s
  }

  /** The first block erased, and its bytes below offset written from the scratch space. */
  ghost function AfterFirst(m: seq<bv8>, s: seq<bv8>, v: Volume, lba: nat, offset: nat): (m': seq<bv8>)
    requires v.Valid(|m|) && lba < Reachable(v.blocks) && BlockLength(v.blocks, lba) <= |s|
    ensures |m'| == |m|
  {
    BlockInVolume(v, |m|, lba);
    var at, length := v.BlockAt(lba), BlockLength(v.blocks, lba);
    var m1 := Erased(m, at, length);
    if offset == 0 then m1 else Programmed(m1, at, s[..Clipped(length, 0, offset)])
  }

  /** The blocks between the first and the last erased. */
  ghost function AfterMiddle(m: seq<bv8>, v: Volume, first: nat, last: nat): (m': seq<bv8>)
    requires v.Valid(|m|) && first <= last < Reachable(v.blocks)
    ensures |m'| == |m|
  {
    if last > first + 1 then ErasedRun(m, v, first + 1, last - first - 1) else m
  }

  ghost function AfterLast(m: seq<bv8>, v: Volume, first: nat, last: nat): (m': seq<bv8>)
    requires v.Valid(|m|) && first <= last < Reachable(v.blocks)
    ensures |m'| == |m|
  {
    BlockInVolume(v, |m|, last);
    if last > first then Erased(m, v.BlockAt(last), BlockLength(v.blocks, last)) else m
  }

  /** Flash before the last block is dealt with, and the scratch space after it was. */
  ghost function BeforeLast(m: seq<bv8>, s: seq<bv8>, v: Volume, first: nat, offsetStart: nat, last: nat): (m': seq<bv8>)
    requires Spans(v, |m|, |s|, first, last)
    ensures |m'| == |m|
  {
    AfterMiddle(AfterFirst(m, Saved(m, s, v, first), v, first, offsetStart), v, first, last)
  }

  ghost function FinalScratch(m: seq<bv8>, s: seq<bv8>, v: Volume, first: nat, offsetStart: nat, last: nat): (s': seq<bv8>)
    requires Spans(v, |m|, |s|, first, last)
    ensures |s'| == |s|
  {
    var s1 := Saved(m, s, v, first);
    if last > first then Saved(BeforeLast(m, s, v, first, offsetStart, last), s1, v, last) else s1
  }

  /** The offset behind the end offset, as a 32-bit sum. */
  function Behind(offsetLast: nat): (offset: nat)
    ensures offset < TWO_32
    ensures offsetLast < TWO_32 - 1 ==> offset == offsetLast + 1
  {
    (offsetLast + 1) % TWO_32
  }

  /** The number of bytes that the final write stores. The code sizes it by the start offset. */
  function TailCount(length: nat, offsetStart: nat, offsetLast: nat): nat
    requires offsetStart < length
  {
    var n := length - (offsetStart + 1);
    if n == 0 || Behind(offsetLast) > length then 0 else Clipped(length, Behind(offsetLast), n)
  }

  /** The final write behind the end offset, from the front of the scratch space. */
  ghost function AfterTail(m: seq<bv8>, s: seq<bv8>, v: Volume, last: nat, offsetStart: nat, offsetLast: nat): (m': seq<bv8>)
    requires v.Valid(|m|) && last < Reachable(v.blocks) && offsetStart < BlockLength(v.blocks, last) <= |s|
    ensures |m'| == |m|
  {
    BlockInVolume(v, |m|, last);
    var n := TailCount(BlockLength(v.blocks, last), offsetStart, offsetLast);
    if n == 0 then m else Programmed(m, v.BlockAt(last) + Behind(offsetLast), s[..n])
  }

  /** Flash after the whole operation on a writable volume, s being the scratch space before it, when no device
      operation fails. */
  ghost function CustomErased(
    m: seq<bv8>, s: seq<bv8>, v: Volume, first: nat, offsetStart: nat, last: nat, offsetLast: nat): (m': seq<bv8>)
    requires Spans(v, |m|, |s|, first, last) && offsetStart < BlockLength(v.blocks, last)
    ensures |m'| == |m|
  {
    AfterTail(AfterLast(BeforeLast(m, s, v, first, offsetStart, last), v, first, last),
              FinalScratch(m, s, v, first, offsetStart, last), v, last, offsetStart, offsetLast)
  }

  /** Byte k of a block as the scratch space has it: the byte of the block, or a stale one. */
  ghost function SavedByte(m: seq<bv8>, s: seq<bv8>, v: Volume, lba: nat, k: nat): bv8
    requires v.Valid(|m|) && lba < Reachable(v.blocks) && k < BlockLength(v.blocks, lba) <= |s|
  {
    BlockInVolume(v, |m|, lba);
    if v.CanRead() then m[v.BlockAt(lba) + k] else s[k]
  }

  /** The byte at p before the final write, if the blocks are erased up to end. */
  ghost function ErasedByte(m: seq<bv8>, s: seq<bv8>, v: Volume, first: nat, offsetStart: nat, end: nat, p: nat): bv8
    requires v.Valid(|m|) && first < Reachable(v.blocks) && BlockLength(v.blocks, first) <= |s| && p < |m|
  {
    if !(v.BlockAt(first) <= p < end) then m[p]
    else if InBlock(v, first, p) && p < v.BlockAt(first) + offsetStart then SavedByte(m, s, v, first, p - v.BlockAt(first))
    else ERASED
  }

  /** The byte at p afterwards. */
  ghost function CustomErasedByte(
    m: seq<bv8>, s: seq<bv8>, v: Volume, first: nat, offsetStart: nat, last: nat, offsetLast: nat, p: nat): bv8
    requires Spans(v, |m|, |s|, first, last) && offsetStart < BlockLength(v.blocks, last) && p < |m|
  {
    var length, tail := BlockLength(v.blocks, last), v.BlockAt(last) + Behind(offsetLast);
    var before := ErasedByte(m, s, v, first, offsetStart, v.BlockAt(last) + length, p);
    if tail <= p < tail + TailCount(length, offsetStart, offsetLast)
      then before & SavedByte(m, s, v, last, p - tail)
    else before
  }

  // ---- What one call may do ----

  /** Flash changes in n bytes of volume v only, and only if the volume can be written. */
  ghost predicate Touched(m: seq<bv8>, m': seq<bv8>, v: Volume, at: nat, n: nat) {
    SameOutside(m, m', at, n) && (!v.CanWrite() ==> m' == m)
  }

  ghost predicate FlashStep(m: seq<bv8>, m': seq<bv8>, v: Volume) {
    Touched(m, m', v, v.base, v.Size())
  }

  lemma TouchedWider(m: seq<bv8>, m': seq<bv8>, v: Volume, at: nat, n: nat, at': nat, n': nat)
    requires Touched(m, m', v, at, n) && at' <= at && at + n <= at' + n'
    ensures Touched(m, m', v, at', n')
  {
  }

  lemma TouchedThen(m: seq<bv8>, m1: seq<bv8>, m2: seq<bv8>, v: Volume, at: nat, n: nat)
    requires Touched(m, m1, v, at, n) && Touched(m1, m2, v, at, n)
    ensures Touched(m, m2, v, at, n)
  {
  }

  lemma NothingTouched(m: seq<bv8>, v: Volume, at: nat, n: nat)
    ensures Touched(m, m, v, at, n)
  {
  }

  /** What the contract of an erase or a write says about flash, as an effect on one block. */
  lemma EraseTouches(m: seq<bv8>, m': seq<bv8>, v: Volume, lba: nat)
    requires EraseCheck(v, lba) != Success ==> m' == m
    requires EraseCheck(v, lba) == Success ==> SameOutside(m, m', v.BlockAt(lba), BlockLength(v.blocks, lba))
    ensures lba < Reachable(v.blocks) ==> Touched(m, m', v, v.BlockAt(lba), BlockLength(v.blocks, lba))
    ensures lba >= Reachable(v.blocks) ==> m' == m
  {
    hide BlockOffset, BlockLength, Reachable;
  }

  lemma WriteTouches(m: seq<bv8>, m': seq<bv8>, v: Volume, lba: nat, offset: nat, n: nat)
    requires !GoesOn(WriteCheck(v, lba, offset, n, true)) ==> m' == m
    requires GoesOn(WriteCheck(v, lba, offset, n, true)) ==>
               SameOutside(m, m', v.BlockAt(lba) + offset, Clipped(BlockLength(v.blocks, lba), offset, n))
    ensures lba < Reachable(v.blocks) ==> Touched(m, m', v, v.BlockAt(lba), BlockLength(v.blocks, lba))
    ensures lba >= Reachable(v.blocks) ==> m' == m
  {
    hide BlockOffset, BlockLength, Reachable;
  }

  /** Blocks from first to last lie inside the volume, lba among them. */
  lemma BlockSpan(v: Volume, flashSize: nat, first: nat, lba: nat, last: nat)
    requires v.Valid(flashSize) && first <= lba <= last < Reachable(v.blocks)
    ensures v.base <= v.BlockAt(first) <= v.BlockAt(lba)
    ensures v.BlockAt(lba) + BlockLength(v.blocks, lba) <= v.BlockAt(last) + BlockLength(v.blocks, last)
    ensures v.BlockAt(last) + BlockLength(v.blocks, last) <= v.base + v.Size()
  {
    hide BlockOffset, BlockLength, Reachable;
    BlockInVolume(v, flashSize, last);
    if first < lba {
      ExtentsDisjoint(v.blocks, first, lba);
    }
    if lba < last {
      ExtentsDisjoint(v.blocks, lba, last);
    }
  }

  /** The bytes of the blocks from first to last. */
  ghost function SpanLength(v: Volume, flashSize: nat, first: nat, last: nat): (n: nat)
    requires v.Valid(flashSize) && first <= last < Reachable(v.blocks)
    ensures v.BlockAt(first) + n == v.BlockAt(last) + BlockLength(v.blocks, last)
  {
    BlockSpan(v, flashSize, first, first, last);
    v.BlockAt(last) + BlockLength(v.blocks, last) - v.BlockAt(first)
  }

  /** Erasing requested blocks touches the volume only. */
  lemma RequestsTouch(m: seq<bv8>, m': seq<bv8>, v: Volume, rs: seq<Request>)
    requires v.Valid(|m|) && v.CanWrite() && SameUnrequested(m, m', v, rs)
    ensures FlashStep(m, m', v)
  {
    hide BlockOffset, BlockLength, Reachable, Volume.Size;
    forall at | 0 <= at < |m| && !(v.base <= at < v.base + v.Size())
      ensures m'[at] == m[at]
    {
      if InRequests(v, rs, at) {
        var j, lba :| 0 <= j < |rs| && rs[j].lba <= lba < rs[j].lba + rs[j].count
                      && lba < Reachable(v.blocks) && InBlock(v, lba, at);
        BlockInVolume(v, |m|, lba);
        assert false;
      }
    }
  }

  /** Only the attributes of volume i change, by a permitted step. */
  ghost predicate VolumeStep(volumes: seq<Volume>, volumes': seq<Volume>, i: nat) {
    && i < |volumes| == |volumes'|
    && (forall j :: 0 <= j < |volumes| && j != i ==> volumes'[j] == volumes[j])
    && volumes'[i] == volumes[i].(attributes := volumes'[i].attributes)
    && AttributeStep(volumes[i].attributes, volumes'[i].attributes)
  }

  /** The part of the driver's state that calls change. */
  datatype State = State(volumes: seq<Volume>, flash: seq<bv8>)

  /** A call on some volume. */
  ghost predicate Step(s: State, s': State) {
    exists i :: 0 <= i < |s.volumes| && VolumeStep(s.volumes, s'.volumes, i) && FlashStep(s.flash, s'.flash, s.volumes[i])
  }

  ghost predicate Frozen(v: Volume) { IsLocked(v.attributes) && !Has(v.attributes, WRITE_STATUS) }

  /** The bytes of a volume are the same in both. */
  ghost predicate SameBytes(m: seq<bv8>, m': seq<bv8>, v: Volume) {
    |m| == |m'| && forall at :: 0 <= at < |m| && v.Holds(at) ==> m'[at] == m[at]
  }

  ghost predicate DisjointVolumes(volumes: seq<Volume>) {
    forall i, j :: 0 <= i < j < |volumes| ==> Disjoint(volumes[i], volumes[j])
  }

  /** One call leaves a locked volume without write status as it is, attributes and bytes. */
  lemma FrozenStep(s: State, s': State, k: nat)
    requires Step(s, s') && k < |s.volumes| && DisjointVolumes(s.volumes) && Frozen(s.volumes[k])
    ensures k < |s'.volumes| && s'.volumes[k] == s.volumes[k] && SameBytes(s.flash, s'.flash, s.volumes[k])
  {
    hide Has, Volume.Size;
    var i :| 0 <= i < |s.volumes| && VolumeStep(s.volumes, s'.volumes, i) && FlashStep(s.flash, s'.flash, s.volumes[i]);
    if i < k {
      assert Disjoint(s.volumes[i], s.volumes[k]);
    } else if k < i {
      assert Disjoint(s.volumes[k], s.volumes[i]);
    }
  }

  lemma NoStep(attributes: bv32)
    ensures AttributeStep(attributes, attributes)
  {
  }

  /** Attributes have no part in what makes volumes valid. */
  lemma StillValid(volumes: seq<Volume>, volumes': seq<Volume>, i: nat, flashSize: nat, scratchSize: nat)
    requires ValidVolumes(volumes, flashSize, scratchSize) && VolumeStep(volumes, volumes', i)
    ensures ValidVolumes(volumes', flashSize, scratchSize)
  {
    hide BlockOffset, BlockLength, Reachable, AttributeStep, WellTerminated, Counted;
    assert forall j :: 0 <= j < |volumes| ==>
      volumes'[j].blocks == volumes[j].blocks && volumes'[j].base == volumes[j].base
      && volumes'[j].numOfBlocks == volumes[j].numOfBlocks;
    forall a, b | 0 <= a < b < |volumes|
      ensures Disjoint(volumes'[a], volumes'[b])
    {
      assert Disjoint(volumes[a], volumes[b]);
    }
  }

  lemma StepKeepsLayout(s: State, s': State)
    requires Step(s, s') && DisjointVolumes(s.volumes)
    ensures |s'.volumes| == |s.volumes| && DisjointVolumes(s'.volumes)
    ensures forall k :: 0 <= k < |s.volumes| ==>
              CapabilitiesOf(s'.volumes[k].attributes) == CapabilitiesOf(s.volumes[k].attributes)
  {
    hide CapabilitiesOf, FixedOf;
    var i :| 0 <= i < |s.volumes| && VolumeStep(s.volumes, s'.volumes, i) && FlashStep(s.flash, s'.flash, s.volumes[i]);
    StepKeepsCapabilities(s.volumes[i].attributes, s'.volumes[i].attributes);
    forall a, b | 0 <= a < b < |s.volumes|
      ensures Disjoint(s'.volumes[a], s'.volumes[b])
    {
      assert Disjoint(s.volumes[a], s.volumes[b]);
    }
  }

  ghost predicate IsRun(run: seq<State>) {
    |run| > 0 && forall j :: 0 <= j < |run| - 1 ==> Step(run[j], run[j + 1])
  }

  lemma RunPrefix(run: seq<State>)
    requires IsRun(run) && |run| > 1
    ensures IsRun(run[..|run| - 1]) && Step(run[|run| - 2], run[|run| - 1])
  {
    hide Step;
    var shorter := run[..|run| - 1];
    forall j: nat | j < |shorter| - 1
      ensures Step(shorter[j], shorter[j + 1])
    {
      assert Step(run[j], run[j + 1]);
    }
    var j := |run| - 2;
    assert Step(run[j], run[j + 1]);
  }

  lemma {:induction false} LayoutForever(run: seq<State>)
    requires IsRun(run) && DisjointVolumes(run[0].volumes)
    ensures |run[|run| - 1].volumes| == |run[0].volumes| && DisjointVolumes(run[|run| - 1].volumes)
    decreases |run|
  {
    hide Step, DisjointVolumes;
    if |run| > 1 {
      RunPrefix(run);
      LayoutForever(run[..|run| - 1]);
      StepKeepsLayout(run[|run| - 2], run[|run| - 1]);
    }
  }

  /** No run of calls on any volumes changes a byte or an attribute of a volume once it is locked with
      its write status clear. */
  lemma {:induction false} FrozenForever(run: seq<State>, k: nat)
    requires IsRun(run) && DisjointVolumes(run[0].volumes)
    requires k < |run[0].volumes| && Frozen(run[0].volumes[k])
    ensures var s, s' := run[0], run[|run| - 1];
            k < |s'.volumes| && s'.volumes[k] == s.volumes[k] && SameBytes(s.flash, s'.flash, s.volumes[k])
    decreases |run|
  {
    hide Step, Has, Frozen, DisjointVolumes, Volume.Holds;
    if |run| > 1 {
      RunPrefix(run);
      var shorter := run[..|run| - 1];
      LayoutForever(shorter);
      FrozenForever(shorter, k);
      FrozenStep(run[|run| - 2], run[|run| - 1], k);
    }
  }

  /** Capability bits never change in any run. */
  lemma {:induction false} CapabilitiesForever(run: seq<State>, k: nat)
    requires IsRun(run) && DisjointVolumes(run[0].volumes) && k < |run[0].volumes|
    ensures var s, s' := run[0], run[|run| - 1];
            && k < |s'.volumes|
            && CapabilitiesOf(s'.volumes[k].attributes) == CapabilitiesOf(s.volumes[k].attributes)
    decreases |run|
  {
    hide Step, CapabilitiesOf, DisjointVolumes;
    if |run| > 1 {
      RunPrefix(run);
      LayoutForever(run[..|run| - 1]);
      CapabilitiesForever(run[..|run| - 1], k);
      StepKeepsLayout(run[|run| - 2], run[|run| - 1]);
    }
  }

  // ---- The bytes of a custom-range erase ----

  lemma SavedAt(m: seq<bv8>, s: seq<bv8>, v: Volume, lba: nat, k: nat)
    requires v.Valid(|m|) && lba < Reachable(v.blocks) && k < BlockLength(v.blocks, lba) <= |s|
    ensures Saved(m, s, v, lba)[k] == SavedByte(m, s, v, lba, k)
  {
    hide BlockOffset, BlockLength, Reachable;
    BlockInVolume(v, |m|, lba);
  }

  lemma AfterFirstAt(m: seq<bv8>, s: seq<bv8>, v: Volume, lba: nat, offset: nat, p: nat)
    requires v.Valid(|m|) && lba < Reachable(v.blocks) && BlockLength(v.blocks, lba) <= |s| && p < |m|
    ensures AfterFirst(m, s, v, lba, offset)[p]
         == if !InBlock(v, lba, p) then m[p] else if p < v.BlockAt(lba) + offset then s[p - v.BlockAt(lba)] else ERASED
  {
    hide BlockOffset, BlockLength, Reachable;
    BlockInVolume(v, |m|, lba);
    if InBlock(v, lba, p) && p < v.BlockAt(lba) + offset {
      ProgramErased(s[p - v.BlockAt(lba)]);
    }
  }

  lemma AfterMiddleAt(m: seq<bv8>, v: Volume, first: nat, last: nat, p: nat)
    requires v.Valid(|m|) && first <= last < Reachable(v.blocks) && p < |m|
    ensures AfterMiddle(m, v, first, last)[p]
         == if v.BlockAt(first) + BlockLength(v.blocks, first) <= p < v.BlockAt(last) && first < last then ERASED else m[p]
  {
    hide BlockOffset, BlockLength, Reachable, ErasedRun;
    if last > first + 1 {
      ErasedRunAt(m, v, first + 1, last - first - 1, p);
      BlocksBetween(v, first, last, p);
    } else if last == first + 1 {
      NextBlock(v, first);
    }
  }

  lemma NextBlock(v: Volume, lba: nat)
    requires lba < Reachable(v.blocks)
    ensures v.BlockAt(lba + 1) == v.BlockAt(lba) + BlockLength(v.blocks, lba)
  {
  }

  /** The span between the first and the last block is tiled by the blocks between them. */
  lemma BlocksBetween(v: Volume, first: nat, last: nat, p: nat)
    requires first < last < Reachable(v.blocks)
    ensures (exists b :: first + 1 <= b < last && InBlock(v, b, p))
        <==> v.BlockAt(first) + BlockLength(v.blocks, first) <= p < v.BlockAt(last)
  {
    hide BlockOffset, BlockLength, Reachable;
    NextBlock(v, first);
    if b :| first + 1 <= b < last && InBlock(v, b, p) {
      ExtentsDisjoint(v.blocks, first, b);
      ExtentsDisjoint(v.blocks, b, last);
    }
    if v.BlockAt(first + 1) <= p < v.BlockAt(last) {
      BlockOfOffset(v.blocks, last, p - v.base);
      var b :| 0 <= b < last && BlockOffset(v.blocks, b) <= p - v.base < BlockOffset(v.blocks, b) + BlockLength(v.blocks, b);
      if b <= first {
        if b < first {
          ExtentsDisjoint(v.blocks, b, first);
        }
      } else {
        assert InBlock(v, b, p);
      }
    }
  }

  /** Before the last block is erased. */
  lemma BeforeLastAt(m: seq<bv8>, s: seq<bv8>, v: Volume, first: nat, offsetStart: nat, last: nat, p: nat)
    requires Spans(v, |m|, |s|, first, last) && p < |m|
    ensures BeforeLast(m, s, v, first, offsetStart, last)[p]
         == ErasedByte(m, s, v, first, offsetStart,
                       if first < last then v.BlockAt(last) else v.BlockAt(first) + BlockLength(v.blocks, first), p)
  {
    hide BlockOffset, BlockLength, Reachable, AfterFirst, AfterMiddle, Saved, SavedByte;
    BlockInVolume(v, |m|, first);
    var s1 := Saved(m, s, v, first);
    AfterFirstAt(m, s1, v, first, offsetStart, p);
    AfterMiddleAt(AfterFirst(m, s1, v, first, offsetStart), v, first, last, p);
    if InBlock(v, first, p) {
      SavedAt(m, s, v, first, p - v.BlockAt(first));
    }
    if first < last {
      ExtentsDisjoint(v.blocks, first, last);
    }
  }

  /** Before the tail is written: everything behind the front of the first block is erased. */
  lemma BeforeTailAt(m: seq<bv8>, s: seq<bv8>, v: Volume, first: nat, offsetStart: nat, last: nat, p: nat)
    requires Spans(v, |m|, |s|, first, last) && p < |m|
    ensures AfterLast(BeforeLast(m, s, v, first, offsetStart, last), v, first, last)[p]
         == ErasedByte(m, s, v, first, offsetStart, v.BlockAt(last) + BlockLength(v.blocks, last), p)
  {
    hide BlockOffset, BlockLength, Reachable, BeforeLast, SavedByte;
    BlockInVolume(v, |m|, last);
    BeforeLastAt(m, s, v, first, offsetStart, last, p);
    if first < last {
      ExtentsDisjoint(v.blocks, first, last);
    }
  }

  /** In the end the scratch space holds the last block as it was before the whole operation, or is stale. */
  lemma FinalScratchAt(m: seq<bv8>, s: seq<bv8>, v: Volume, first: nat, offsetStart: nat, last: nat, k: nat)
    requires Spans(v, |m|, |s|, first, last) && k < BlockLength(v.blocks, last)
    ensures FinalScratch(m, s, v, first, offsetStart, last)[k] == SavedByte(m, s, v, last, k)
  {
    hide BlockOffset, BlockLength, Reachable, BeforeLast;
    BlockInVolume(v, |m|, last);
    BeforeLastAt(m, s, v, first, offsetStart, last, v.BlockAt(last) + k);
    SavedAt(m, s, v, first, 0);
    if first == last {
      SavedAt(m, s, v, last, k);
    }
  }

  /** The final bytes, byte by byte. */
  lemma CustomErasedAt(m: seq<bv8>, s: seq<bv8>, v: Volume, first: nat, offsetStart: nat, last: nat, offsetLast: nat, p: nat)
    requires Spans(v, |m|, |s|, first, last) && offsetStart < BlockLength(v.blocks, last) && p < |m|
    ensures CustomErased(m, s, v, first, offsetStart, last, offsetLast)[p]
         == CustomErasedByte(m, s, v, first, offsetStart, last, offsetLast, p)
  {
    hide BlockOffset, BlockLength, Reachable, BeforeLast, AfterLast, FinalScratch, SavedByte, ErasedByte, Behind;
    BlockInVolume(v, |m|, last);
    BeforeTailAt(m, s, v, first, offsetStart, last, p);
    var tail := v.BlockAt(last) + Behind(offsetLast);
    if tail <= p < tail + TailCount(BlockLength(v.blocks, last), offsetStart, offsetLast) {
      FinalScratchAt(m, s, v, first, offsetStart, last, p - tail);
    }
  }

  /** Readable or not, the requested span is erased and nothing outside the blocks from first to last changes. */
  lemma CustomEraseMeetsRequest(
    m: seq<bv8>, s: seq<bv8>, v: Volume, first: nat, offsetStart: nat, last: nat, offsetLast: nat, p: nat)
    requires Spans(v, |m|, |s|, first, last) && offsetStart < BlockLength(v.blocks, last) && p < |m|
    requires offsetLast < BlockLength(v.blocks, last)
    ensures var m' := CustomErased(m, s, v, first, offsetStart, last, offsetLast);
            && (v.BlockAt(first) + offsetStart <= p <= v.BlockAt(last) + offsetLast ==> m'[p] == ERASED)
            && (p < v.BlockAt(first) || p >= v.BlockAt(last) + BlockLength(v.blocks, last) ==> m'[p] == m[p])
  {
    hide BlockOffset, BlockLength, Reachable, CustomErased, SavedByte, Behind;
    CustomErasedAt(m, s, v, first, offsetStart, last, offsetLast, p);
    BlockInVolume(v, |m|, first);
    BlockInVolume(v, |m|, last);
    if first < last {
      ExtentsDisjoint(v.blocks, first, last);
    }
  }

  /** The block has the same bytes below offset. */
  ghost predicate FrontKept(m: seq<bv8>, m': seq<bv8>, v: Volume, lba: nat, offset: nat)
    requires lba < Reachable(v.blocks)
  {
    |m'| == |m| && forall p :: 0 <= p < |m| && InBlock(v, lba, p) && p < v.BlockAt(lba) + offset ==> m'[p] == m[p]
  }

  /** Below the start offset the first block gets back what was saved of it. */
  lemma FrontWritten(
    m: seq<bv8>, s: seq<bv8>, v: Volume, first: nat, offsetStart: nat, last: nat, offsetLast: nat, p: nat)
    requires Spans(v, |m|, |s|, first, last) && offsetStart < BlockLength(v.blocks, last) && p < |m|
    requires first == last ==> offsetStart <= Behind(offsetLast)
    requires InBlock(v, first, p) && p < v.BlockAt(first) + offsetStart
    ensures CustomErased(m, s, v, first, offsetStart, last, offsetLast)[p]
         == SavedByte(m, s, v, first, p - v.BlockAt(first))
  {
    hide BlockOffset, BlockLength, Reachable, CustomErased, SavedByte, Behind;
    CustomErasedAt(m, s, v, first, offsetStart, last, offsetLast, p);
    if first < last {
      ExtentsDisjoint(v.blocks, first, last);
    }
  }

  /** A writable volume that cannot be read: the front of the first block is overwritten with whatever the
      scratch space held before. */
  lemma StaleFront(m: seq<bv8>, s: seq<bv8>, v: Volume, first: nat, offsetStart: nat, last: nat, offsetLast: nat, k: nat)
    requires Spans(v, |m|, |s|, first, last) && offsetStart < BlockLength(v.blocks, last)
    requires first == last ==> offsetStart <= Behind(offsetLast)
    requires !v.CanRead() && k < offsetStart && k < BlockLength(v.blocks, first)
    ensures v.BlockAt(first) + k < |m|
    ensures CustomErased(m, s, v, first, offsetStart, last, offsetLast)[v.BlockAt(first) + k] == s[k]
  {
    hide BlockOffset, BlockLength, Reachable, CustomErased, Behind;
    BlockInVolume(v, |m|, first);
    FrontWritten(m, s, v, first, offsetStart, last, offsetLast, v.BlockAt(first) + k);
  }

  /** Whatever the scratch space holds, the first block keeps its bytes below the start offset: exactly if the
      volume can be read, or there are no such bytes. */
  lemma FrontKeptExactlyWhen(
    m: seq<bv8>, scratchSize: nat, v: Volume, first: nat, offsetStart: nat, last: nat, offsetLast: nat)
    requires Spans(v, |m|, scratchSize, first, last) && offsetStart < BlockLength(v.blocks, last)
    requires first == last ==> offsetStart <= Behind(offsetLast)
    ensures (forall s: seq<bv8> :: |s| == scratchSize ==>
               FrontKept(m, CustomErased(m, s, v, first, offsetStart, last, offsetLast), v, first, offsetStart))
       <==> v.CanRead() || offsetStart == 0
  {
    hide BlockOffset, BlockLength, Reachable, CustomErased, Behind;
    BlockInVolume(v, |m|, first);
    var at := v.BlockAt(first);
    if v.CanRead() || offsetStart == 0 {
      forall s: seq<bv8>, p | |s| == scratchSize && 0 <= p < |m| && InBlock(v, first, p) && p < at + offsetStart
        ensures CustomErased(m, s, v, first, offsetStart, last, offsetLast)[p] == m[p]
      {
        FrontWritten(m, s, v, first, offsetStart, last, offsetLast, p);
      }
    } else {
      var stale: bv8 := if m[at] == 0 then 1 else 0;
      var s := seq(scratchSize, i => stale);
      StaleFront(m, s, v, first, offsetStart, last, offsetLast, 0);
      assert InBlock(v, first, at) && !FrontKept(m, CustomErased(m, s, v, first, offsetStart, last, offsetLast), v, first, offsetStart);
    }
  }

  /** An unlocked volume whose capabilities allow it becomes such a volume by one change of attributes. */
  lemma UnreadableAllowed(attributes: bv32)
    requires !IsLocked(attributes)
    requires Has(attributes, READ_DISABLED_CAP) && Has(attributes, WRITE_ENABLED_CAP)
    ensures Supported(attributes, WRITE_STATUS)
    ensures forall new_ :: StatusOf(new_) == StatusOf(WRITE_STATUS) ==> !Has(new_, READ_STATUS) && Has(new_, WRITE_STATUS)
  {
    StatusBits(WRITE_STATUS);
    forall new_ | StatusOf(new_) == StatusOf(WRITE_STATUS)
      ensures !Has(new_, READ_STATUS) && Has(new_, WRITE_STATUS)
    {
      StatusBits(new_);
    }
  }

  /** Behind the end offset the last block does not keep its bytes: it gets the bytes saved from its own
      front, as many as the start offset leaves, and is erased after them. */
  lemma CustomEraseTail(m: seq<bv8>, s: seq<bv8>, v: Volume, first: nat, offsetStart: nat, last: nat, offsetLast: nat, k: nat)
    requires Spans(v, |m|, |s|, first, last) && offsetStart < BlockLength(v.blocks, last)
    requires first == last ==> offsetStart <= offsetLast + 1
    requires offsetLast + 1 + k < BlockLength(v.blocks, last)
    ensures var at := v.BlockAt(last) + offsetLast + 1 + k;
            && at < |m|
            && CustomErased(m, s, v, first, offsetStart, last, offsetLast)[at]
               == if k < BlockLength(v.blocks, last) - (offsetStart + 1) then SavedByte(m, s, v, last, k) else ERASED
  {
    hide BlockOffset, BlockLength, Reachable, CustomErased, SavedByte, Behind;
    BlockInVolume(v, |m|, last);
    if first < last {
      BlockInVolume(v, |m|, first);
      ExtentsDisjoint(v.blocks, first, last);
    }
    CustomErasedAt(m, s, v, first, offsetStart, last, offsetLast, v.BlockAt(last) + offsetLast + 1 + k);
    if k < BlockLength(v.blocks, last) - (offsetStart + 1) {
      ProgramErased(SavedByte(m, s, v, last, k));
    }
  }

  lemma ErasedRunNothing(m: seq<bv8>, v: Volume, lba: nat)
    requires v.Valid(|m|) && lba <= Reachable(v.blocks)
    ensures ErasedRun(m, v, lba, 0) == m
  {
  }

  lemma ErasedRunStep(m: seq<bv8>, v: Volume, lba: nat, count: nat)
    requires v.Valid(|m|) && lba + count < Reachable(v.blocks)
    ensures v.BlockAt(lba + count) + BlockLength(v.blocks, lba + count) <= |m|
    ensures ErasedRun(m, v, lba, count + 1)
         == Erased(ErasedRun(m, v, lba, count), v.BlockAt(lba + count), BlockLength(v.blocks, lba + count))
  {
    hide BlockOffset, Reachable, BlockLength, Erased;
    BlockInVolume(v, |m|, lba + count);
  }

  lemma UnrequestedThen(m: seq<bv8>, m1: seq<bv8>, m2: seq<bv8>, v: Volume, rs: seq<Request>, j: nat)
    requires j < |rs| && SameUnrequested(m, m1, v, rs)
    requires SameUnrequested(m1, m2, v, [rs[j]]) || m2 == m1
    ensures SameUnrequested(m, m2, v, rs)
  {
    hide InBlock;
    forall at | 0 <= at < |m| && !InRequests(v, rs, at)
      ensures m2[at] == m[at]
    {
      assert !InRequests(v, [rs[j]], at);
    }
  }

  lemma SameIsUnrequested(m: seq<bv8>, v: Volume, rs: seq<Request>)
    ensures SameUnrequested(m, m, v, rs)
  {
  }

  lemma SameIsOutside(m: seq<bv8>)
    ensures forall at, n :: SameOutside(m, m, at, n)
  {
  }

  lemma SectorAt(at: nat, index: nat)
    requires at % SECTOR == 0
    ensures (at + index * SECTOR) / SECTOR * SECTOR == at + index * SECTOR
  {
  }

  lemma StepOf(s: State, s': State, i: nat)
    requires VolumeStep(s.volumes, s'.volumes, i) && FlashStep(s.flash, s'.flash, s.volumes[i])
    ensures Step(s, s')
  {
  }

  ghost predicate SameBlocks(volumes: seq<Volume>, volumes': seq<Volume>) {
    |volumes| == |volumes'| && forall k :: 0 <= k < |volumes| ==> volumes'[k].blocks == volumes[k].blocks
  }

  lemma StepKeepsBlocks(s: State, s': State)
    requires Step(s, s')
    ensures SameBlocks(s.volumes, s'.volumes)
  {
    hide AttributeStep, FlashStep;
  }

  ghost function Extended(run: seq<State>, s: State): (run': seq<State>)
    requires IsRun(run) && Step(run[|run| - 1], s)
    ensures IsRun(run') && run'[0] == run[0] && run'[|run'| - 1] == s
  {
    hide Step;
    var run' := run + [s];
    assert forall j :: 0 <= j < |run'| - 1 ==> run'[j] == run[j];
    run'
  }

  lemma ValidAt(volumes: seq<Volume>, i: nat, flashSize: nat, scratchSize: nat)
    requires ValidVolumes(volumes, flashSize, scratchSize) && i < |volumes|
    ensures volumes[i].Valid(flashSize)
  {
  }

  lemma ValidIsDisjoint(volumes: seq<Volume>, flashSize: nat, scratchSize: nat)
    requires ValidVolumes(volumes, flashSize, scratchSize)
    ensures DisjointVolumes(volumes)
  {
  }

  /** An effect on one block is one on the volume; there is none on a block that the volume does not have. */
  lemma BlockTouch(m: seq<bv8>, m': seq<bv8>, v: Volume, lba: nat)
    requires v.Valid(|m|)
    requires lba < Reachable(v.blocks) ==> Touched(m, m', v, v.BlockAt(lba), BlockLength(v.blocks, lba))
    requires lba >= Reachable(v.blocks) ==> m' == m
    ensures FlashStep(m, m', v)
  {
    hide BlockOffset, BlockLength, Reachable, Volume.Size;
    if lba < Reachable(v.blocks) {
      BlockInVolume(v, |m|, lba);
    }
  }

  lemma TouchedInSpan(m: seq<bv8>, m1: seq<bv8>, m2: seq<bv8>, v: Volume, first: nat, lba: nat, last: nat)
    requires v.Valid(|m|) && first <= lba <= last < Reachable(v.blocks)
    requires Touched(m, m1, v, v.BlockAt(first), SpanLength(v, |m|, first, last))
    requires Touched(m1, m2, v, v.BlockAt(lba), BlockLength(v.blocks, lba))
    ensures Touched(m, m2, v, v.BlockAt(first), SpanLength(v, |m|, first, last))
  {
    hide BlockOffset, BlockLength, Reachable, Touched, SpanLength;
    BlockSpan(v, |m|, first, lba, last);
    var at, n := v.BlockAt(first), SpanLength(v, |m|, first, last);
    TouchedWider(m1, m2, v, v.BlockAt(lba), BlockLength(v.blocks, lba), at, n);
    TouchedThen(m, m1, m2, v, at, n);
  }

  lemma FourSteps(m: seq<bv8>, m1: seq<bv8>, m2: seq<bv8>, m3: seq<bv8>, m4: seq<bv8>, v: Volume)
    requires FlashStep(m, m1, v) && FlashStep(m1, m2, v) && FlashStep(m2, m3, v) && FlashStep(m3, m4, v)
    ensures FlashStep(m, m4, v)
  {
    hide Touched, Volume.Size;
    TouchedThen(m, m1, m2, v, v.base, v.Size());
    TouchedThen(m, m2, m3, v, v.base, v.Size());
    TouchedThen(m, m3, m4, v, v.base, v.Size());
  }

  /** The four parts of a custom-range erase stay inside the blocks from the first to the last. */
  lemma FourTouches(m: seq<bv8>, m1: seq<bv8>, m2: seq<bv8>, m3: seq<bv8>, m4: seq<bv8>, v: Volume, first: nat, last: nat)
    requires v.Valid(|m|) && first <= last < Reachable(v.blocks) && |m1| == |m2| == |m|
    requires Touched(m, m1, v, v.BlockAt(first), BlockLength(v.blocks, first))
    requires Touched(m1, m2, v, v.BlockAt(first), SpanLength(v, |m|, first, last))
    requires Touched(m2, m3, v, v.BlockAt(last), BlockLength(v.blocks, last))
    requires Touched(m3, m4, v, v.BlockAt(last), BlockLength(v.blocks, last))
    ensures Touched(m, m4, v, v.BlockAt(first), SpanLength(v, |m|, first, last))
  {
    hide BlockOffset, BlockLength, Reachable, Touched, SpanLength;
    var at, n := v.BlockAt(first), SpanLength(v, |m|, first, last);
    NothingTouched(m, v, at, n);
    TouchedInSpan(m, m, m1, v, first, first, last);
    TouchedThen(m, m1, m2, v, at, n);
    TouchedInSpan(m, m2, m3, v, first, last, last);
    TouchedInSpan(m, m3, m4, v, first, last, last);
  }

  /** What the local for the block length holds at the final write: size if no lookup set it. */
  function FinalLength(blocks: seq<Entry>, first: nat, last: nat, size: nat): nat {
    if first < last && last < Reachable(blocks) then BlockLength(blocks, last)
    else if first < Reachable(blocks) then BlockLength(blocks, first)
    else size
  }

  /** Of the lookups that find their block, the last one counts; that of the last block is made only if it comes
      after the first. */
  lemma FinalLengthMeans(blocks: seq<Entry>, first: nat, last: nat, size: nat)
    ensures first < last < Reachable(blocks) ==> FinalLength(blocks, first, last, size) == BlockLength(blocks, last)
    ensures first < Reachable(blocks) && (last <= first || last >= Reachable(blocks)) ==>
              FinalLength(blocks, first, last, size) == BlockLength(blocks, first)
    ensures first >= Reachable(blocks) ==> FinalLength(blocks, first, last, size) == size
  {
  }

  lemma FinalLengthFits(v: Volume, flashSize: nat, first: nat, last: nat, size: nat)
    requires v.Valid(flashSize)
    ensures FinalLength(v.blocks, first, last, size) <= if first < Reachable(v.blocks) then flashSize else size
  {
    hide BlockOffset, BlockLength, Reachable;
    if first < Reachable(v.blocks) {
      BlockInVolume(v, flashSize, first);
    }
    if last < Reachable(v.blocks) {
      BlockInVolume(v, flashSize, last);
    }
  }

  /** The sum of the clip test, which is made for an offset inside the block, is below 2^32: the bytes lie
      in a buffer beside flash in a 32-bit address space. */
  predicate ClipFits(blocks: seq<Entry>, lba: nat, offset: nat, n: nat) {
    lba < Reachable(blocks) && offset <= BlockLength(blocks, lba) ==> n + offset < TWO_32
  }

  /** The start offset is below the block length that is used, so that the byte count of the final write does not
      underflow. A length that no lookup set is below half of the address space too. */
  predicate CustomFits(blocks: seq<Entry>, first: nat, offsetStart: nat, last: nat, size: nat) {
    offsetStart < FinalLength(blocks, first, last, size) && (first >= Reachable(blocks) ==> size < MAX_FLASH)
  }

  /** The calls that can change flash or attributes. */
  datatype Call =
    | Write(lba: nat, offset: nat, data: seq<bv8>)
    | Erase(requests: seq<Request>)
    | EraseCustom(first: nat, offsetStart: nat, last: nat, offsetLast: nat, size: nat)
    | ChangeAttributes(requested: bv32)

  /** No byte count of the call underflows, and none wraps with its offset. */
  predicate NoWrap(blocks: seq<Entry>, call: Call) {
    && (call.Write? ==> ClipFits(blocks, call.lba, call.offset, |call.data|))
    && (call.EraseCustom? ==>
          call.size < TWO_32 && CustomFits(blocks, call.first, call.offsetStart, call.last, call.size))
  }

  // ---- Initialisation ----

  /** What initialisation finds of a volume: its position, its block map and its attributes. It enables
      writes for every volume. */
  datatype VolumeMap = VolumeMap(base: nat, blocks: seq<Entry>, attributes: bv32) {
    function Numbered(numOfBlocks: nat): Volume { Volume(base, blocks, numOfBlocks, true, attributes) }
  }

  ghost function VolumesOf(maps: seq<VolumeMap>): (volumes: seq<Volume>)
    ensures |volumes| == |maps|
  {
    seq(|maps|, i requires 0 <= i < |maps| => maps[i].Numbered(Counted(maps[i].blocks)))
  }

  /** The block maps are those of disjoint volumes of whole sectors in a flash of the given size. */
  ghost predicate ValidMaps(maps: seq<VolumeMap>, flashSize: nat) {
    && (forall i :: 0 <= i < |maps| ==> Terminated(maps[i].blocks) && VolumesOf(maps)[i].Valid(flashSize))
    && DisjointVolumes(VolumesOf(maps))
  }

  /** No block of any volume is longer. */
  ghost predicate Longest(volumes: seq<Volume>, length: nat) {
    forall i, lba :: 0 <= i < |volumes| && 0 <= lba < Reachable(volumes[i].blocks) ==>
      BlockLength(volumes[i].blocks, lba) <= length
  }

  /** The loop of FvbInitialize over the volumes, as far as it counts blocks. */
  method CountVolumes(maps: seq<VolumeMap>) returns (volumes: seq<Volume>, longest: nat)
    requires forall i :: 0 <= i < |maps| ==> Terminated(maps[i].blocks)
    ensures volumes == VolumesOf(maps) && Longest(volumes, longest)
  {
    hide Terminated, Reachable, BlockLength, Counted;
    volumes, longest := [], 0;
    for i := 0 to |maps|
      invariant |volumes| == i && Longest(volumes, longest)
      invariant forall j :: 0 <= j < i ==> volumes[j] == VolumesOf(maps)[j]
    {
      var count, length := CountBlocks(maps[i].blocks);
      if longest < length {
        longest := length;
      }
      volumes := volumes + [maps[i].Numbered(count)];
    }
  }

  // ---- The driver ----

  class FvbDriver {
    const flash: array<bv8>
    /** FvbScratchSpace, as long as the longest block of any volume. */
    const scratch: array<bv8>
    /** No device operation fails. */
    const faultless: bool
    var volumes: seq<Volume>

    ghost predicate Valid()
      reads this
    {
      && flash != scratch && flash.Length % SECTOR == 0 && flash.Length <= MAX_FLASH
      && ValidVolumes(volumes, flash.Length, scratch.Length)
    }

    /** The driver after FvbInitialize: blocks counted, and scratch space for the longest one. */
    constructor (flash: array<bv8>, maps: seq<VolumeMap>, faultless: bool)
      requires flash.Length % SECTOR == 0 && flash.Length <= MAX_FLASH && ValidMaps(maps, flash.Length)
      ensures Valid() && this.flash == flash && this.faultless == faultless && fresh(scratch)
      ensures volumes == VolumesOf(maps)
    {
      hide Terminated, Reachable, BlockLength, Counted, Volume.Valid, Disjoint;
      var counted, longest := CountVolumes(maps);
      this.flash, this.faultless, volumes := flash, faultless, counted;
      scratch := new bv8[longest];
    }

    /** FvbReadBlock: n is the number of bytes that came back. */
    method FvbReadBlock(i: nat, lba: nat, offset: nat, numBytes: nat, buffer: array?<bv8>) returns (status: Status, n: nat)
      requires Valid() && i < |volumes|
      requires ClipFits(volumes[i].blocks, lba, offset, numBytes)
      requires buffer != flash
      requires buffer != null && GoesOn(ReadCheck(volumes[i], lba, offset, numBytes, true)) ==>
                 Clipped(BlockLength(volumes[i].blocks, lba), offset, numBytes) <= buffer.Length
      modifies buffer
      ensures status == ReadCheck(volumes[i], lba, offset, numBytes, buffer != null)
      ensures !GoesOn(status) ==> n == numBytes && (buffer != null ==> buffer[..] == old(buffer[..]))
      ensures GoesOn(status) ==>
                && n == Clipped(BlockLength(volumes[i].blocks, lba), offset, numBytes) <= buffer.Length
                && volumes[i].BlockAt(lba) + offset + n <= flash.Length
                && buffer[..n] == flash[volumes[i].BlockAt(lba) + offset..volumes[i].BlockAt(lba) + offset + n]
                && buffer[n..] == old(buffer[n..])
    {
      hide BlockOffset, Reachable, BlockLength, Has;
      n := numBytes;
      if buffer == null || numBytes == 0 {
        return InvalidParameter, n;
      }
      var v := volumes[i];
      var found := FindBlock(v.blocks, lba);
      if found.NotFound? {
        return InvalidParameter, n;
      }
      if !v.CanRead() {
        return AccessDenied, n;
      }
      if offset > found.length {
        return InvalidParameter, n;
      }
      BlockInVolume(v, flash.Length, lba);
      status := Success;
      if found.length < n + offset {
        n := found.length - offset;
        status := BadBufferSize;
      }
      var at := v.base + found.offset + offset;
      forall k | 0 <= k < n {
        buffer[k] := flash[at + k];
      }
      assert at == v.BlockAt(lba) + offset;
      assert buffer[..n] == flash[at..at + n];
      assert buffer[n..] == old(buffer[n..]);
    }

    /** FvbWriteBlock: n is the number of bytes that the device was asked to program. */
    method FvbWriteBlock(i: nat, lba: nat, offset: nat, numBytes: nat, buffer: array?<bv8>) returns (status: Status, n: nat)
      requires Valid() && i < |volumes| && buffer != flash
      requires ClipFits(volumes[i].blocks, lba, offset, numBytes)
      requires buffer != null && GoesOn(WriteCheck(volumes[i], lba, offset, numBytes, true)) ==>
                 Clipped(BlockLength(volumes[i].blocks, lba), offset, numBytes) <= buffer.Length
      modifies flash
      ensures var check := WriteCheck(volumes[i], lba, offset, numBytes, buffer != null);
              && (!GoesOn(check) ==> status == check && n == numBytes && flash[..] == old(flash[..]))
              && (GoesOn(check) ==>
                    var at := volumes[i].BlockAt(lba) + offset;
                    && n == Clipped(BlockLength(volumes[i].blocks, lba), offset, numBytes) <= buffer.Length
                    && at + n <= flash.Length
                    && (status == check || (status == DeviceError && !faultless))
                    && (status == check ==> flash[..] == Programmed(old(flash[..]), at, buffer[..n]))
                    && SameOutside(old(flash[..]), flash[..], at, n))
    {
      hide BlockOffset, Reachable, BlockLength, Has, Programmed, SameOutside;
      n := numBytes;
      SameIsOutside(flash[..]);
      var v := volumes[i];
      if !v.writeEnabled {
        return AccessDenied, n;
      }
      if buffer == null || numBytes == 0 {
        return InvalidParameter, n;
      }
      var found := FindBlock(v.blocks, lba);
      if found.NotFound? {
        return InvalidParameter, n;
      }
      if !Has(v.attributes, WRITE_STATUS) {
        return AccessDenied, n;
      }
      if offset > found.length {
        return InvalidParameter, n;
      }
      BlockInVolume(v, flash.Length, lba);
      status := Success;
      if found.length < n + offset {
        n := found.length - offset;
        status := BadBufferSize;
      }
      var ok := Program(flash, v.base + found.offset + offset, buffer[..n], faultless);
      if !ok {
        return DeviceError, n;
      }
    }

    /** FvbEraseBlock: one erase operation for every sector of the block. */
    method FvbEraseBlock(i: nat, lba: nat) returns (status: Status)
      requires Valid() && i < |volumes|
      modifies flash
      ensures var v, check := volumes[i], EraseCheck(volumes[i], lba);
              && (check != Success ==> status == check && flash[..] == old(flash[..]))
              && (check == Success ==>
                    && v.BlockAt(lba) + BlockLength(v.blocks, lba) <= flash.Length
                    && (status == Success || (status == DeviceError && !faultless))
                    && (status == Success ==>
                          flash[..] == Erased(old(flash[..]), v.BlockAt(lba), BlockLength(v.blocks, lba)))
                    && SameOutside(old(flash[..]), flash[..], v.BlockAt(lba), BlockLength(v.blocks, lba)))
    {
      hide BlockOffset, Reachable, BlockLength, Has, Erased, SameOutside;
      var v := volumes[i];
      if !v.CanWrite() {
        return AccessDenied;
      }
      var found := FindBlock(v.blocks, lba);
      if found.NotFound? {
        return InvalidParameter;
      }
      BlockInVolume(v, flash.Length, lba);
      var at := v.base + found.offset;
      ghost var before := flash[..];
      ErasedNothing(before, at);
      SameIsOutside(before);
      var index := 0;
      status := Success;
      while index < found.length / SECTOR
        invariant index <= found.length / SECTOR
        invariant flash[..] == Erased(before, at, index * SECTOR)
        invariant SameOutside(before, flash[..], at, found.length)
      {
        ghost var now := flash[..];
        SectorAt(at, index);
        var ok := EraseSector(flash, at + index * SECTOR, faultless);
        OutsideWider(now, flash[..], at + index * SECTOR, SECTOR, at, found.length);
        OutsideThen(before, now, flash[..], at, found.length);
        if !ok {
          return DeviceError;
        }
        ErasedStep(before, at, index * SECTOR, SECTOR);
        index := index + 1;
      }
    }

    /** The loop over the blocks of one pair. */
    method EraseRequest(i: nat, r: Request) returns (status: Status)
      requires Valid() && i < |volumes| && r.count > 0
      requires InRange(volumes[i], r) || r.lba >= volumes[i].numOfBlocks
      modifies flash
      ensures !volumes[i].CanWrite() ==> status == AccessDenied && flash[..] == old(flash[..])
      ensures volumes[i].CanWrite() && !InRange(volumes[i], r) ==>
                status == InvalidParameter && flash[..] == old(flash[..])
      ensures volumes[i].CanWrite() && InRange(volumes[i], r) ==>
                && r.lba + r.count <= Reachable(volumes[i].blocks)
                && (status == Success || (status == DeviceError && !faultless))
                && (status == Success ==> flash[..] == ErasedRun(old(flash[..]), volumes[i], r.lba, r.count))
                && SameUnrequested(old(flash[..]), flash[..], volumes[i], [r])
    {
      hide BlockOffset, Reachable, BlockLength, Has, Erased, SameOutside, SameUnrequested, ErasedRun, InRequests;
      var v := volumes[i];
      CountsAgree(v.blocks);
      ghost var before := flash[..];
      SameIsUnrequested(before, v, [r]);
      var lba: nat, left: nat := r.lba, r.count;
      if InRange(v, r) {
        ErasedRunNothing(before, v, lba);
      }
      while left > 0
        invariant left <= r.count && lba == r.lba + r.count - left
        invariant left < r.count ==> v.CanWrite() && InRange(v, r)
        invariant InRange(v, r) ==> flash[..] == ErasedRun(before, v, r.lba, r.count - left)
        invariant left == r.count ==> flash[..] == before
        invariant SameUnrequested(before, flash[..], v, [r])
      {
        ghost var now := flash[..];
        status := FvbEraseBlock(i, lba);
        if EraseCheck(v, lba) == Success {
          StillUnrequested(before, now, flash[..], v, [r], 0, lba);
        }
        if status != Success {
          return status;
        }
        ErasedRunStep(before, v, r.lba, r.count - left);
        lba := lba + 1;
        left := left - 1;
      }
      return Success;
    }

    /** FvbProtocolEraseBlocks: the whole argument list is checked before any block is erased. */
    method FvbProtocolEraseBlocks(i: nat, rs: seq<Request>) returns (status: Status)
      requires Valid() && i < |volumes|
      modifies flash
      ensures !Accepted(volumes[i], rs) ==> status == InvalidParameter && flash[..] == old(flash[..])
      ensures Accepted(volumes[i], rs) && rs != [] && !volumes[i].CanWrite() ==>
                status == AccessDenied && flash[..] == old(flash[..])
      ensures Accepted(volumes[i], rs) && (rs == [] || volumes[i].CanWrite()) ==>
                && (status == (if AllInRange(volumes[i], rs) then Success else InvalidParameter)
                    || (status == DeviceError && !faultless && FirstWrap(rs) > 0))
                && SameUnrequested(old(flash[..]), flash[..], volumes[i], rs[..FirstWrap(rs)])
      ensures status != DeviceError ==> flash[..] == AfterEraseCall(old(flash[..]), volumes[i], rs)
    {
      hide BlockOffset, Reachable, BlockLength, Has, Erased, SameOutside, SameUnrequested, ErasedRun, InRequests,
           InRange, Wraps, AllInRange;
      var v := volumes[i];
      CountsAgree(v.blocks);
      ghost var before := flash[..];
      for j := 0 to |rs|
        invariant forall k :: 0 <= k < j ==> Accepts(v, rs[k])
      {
        if rs[j].count == 0 {
          return InvalidParameter;
        }
        if (rs[j].lba + rs[j].count) % TWO_64 > v.numOfBlocks {
          return InvalidParameter;
        }
      }
      AcceptedPrefix(v, rs);
      ghost var good := rs[..FirstWrap(rs)];
      SameIsUnrequested(before, v, good);
      for j := 0 to |rs|
        invariant j <= |good| && flash[..] == ErasedRequests(before, v, good, j)
        invariant SameUnrequested(before, flash[..], v, good)
        invariant j > 0 ==> v.CanWrite()
        invariant forall k :: 0 <= k < |rs| ==> Accepts(v, rs[k])
      {
        ghost var now := flash[..];
        AcceptedPair(v, rs[j]);
        status := EraseRequest(i, rs[j]);
        if j < |good| {
          assert good[j] == rs[j];
          UnrequestedThen(before, now, flash[..], v, good, j);
        }
        if status != Success {
          return status;
        }
      }
      return Success;
    }

    /** FvbSetVolumeAttributes: on success the caller gets the new attributes back. */
    method FvbSetVolumeAttributes(i: nat, requested: bv32) returns (status: Status, attributes: bv32)
      requires Valid() && i < |volumes|
      modifies this`volumes
      ensures Valid()
      ensures var a := old(volumes[i]).attributes;
              && (status == Success <==>
                    Supported(a, requested) && (IsLocked(a) ==> StatusOf(a) == StatusOf(requested)))
              && (status == AccessDenied <==> IsLocked(a) && StatusOf(a) != StatusOf(requested))
              && (status == Success || status == AccessDenied || status == InvalidParameter)
      ensures status != Success ==> volumes == old(volumes) && attributes == requested
      ensures VolumeStep(old(volumes), volumes, i)
      ensures status == Success ==> volumes[i].attributes == attributes && StatusOf(attributes) == StatusOf(requested)
    {
      hide Has, StatusOf, FixedOf, Supported, AttributeStep, BlockOffset, BlockLength, Reachable;
      var v := volumes[i];
      attributes := requested;
      var new_;
      status, new_ := SetAttributes(v.attributes, requested);
      if status == Success {
        SuccessIsStep(v.attributes, requested, new_);
        volumes := volumes[i := v.(attributes := new_)];
        attributes := new_;
      } else {
        NoStep(v.attributes);
      }
      StillValid(old(volumes), volumes, i, flash.Length, scratch.Length);
    }

    /** The first block: read to the scratch space, erased, and its front written back. size is what the
        local for the block length holds; a lookup that fails leaves it alone. */
    method EraseFirst(i: nat, lba: nat, offset: nat, size: nat) returns (length: nat)
      requires Valid() && i < |volumes| && offset < TWO_32
      modifies flash, scratch
      ensures length == (if lba < Reachable(volumes[i].blocks) then BlockLength(volumes[i].blocks, lba) else size)
      ensures FlashStep(old(flash[..]), flash[..], volumes[i])
      ensures lba < Reachable(volumes[i].blocks) ==>
                && Touched(old(flash[..]), flash[..], volumes[i], volumes[i].BlockAt(lba), length)
                && scratch[..] == Saved(old(flash[..]), old(scratch[..]), volumes[i], lba)
                && (volumes[i].CanWrite() && faultless ==>
                      flash[..] == AfterFirst(old(flash[..]), scratch[..], volumes[i], lba, offset))
    {
      hide BlockOffset, Reachable, BlockLength, Has, Erased, Programmed, SameOutside, Touched;
      var v := volumes[i];
      ghost var m := flash[..];
      length := ReadBlockLength(i, lba, size);
      var read, n := FvbReadBlock(i, lba, 0, length, scratch);
      var erased := FvbEraseBlock(i, lba);
      ghost var m1 := flash[..];
      EraseTouches(m, m1, v, lba);
      if offset > 0 {
        var written, count := FvbWriteBlock(i, lba, 0, offset, scratch);
        WriteTouches(m1, flash[..], v, lba, 0, offset);
        if lba < Reachable(v.blocks) {
          TouchedThen(m, m1, flash[..], v, v.BlockAt(lba), length);
        }
      }
      BlockTouch(m, flash[..], v, lba);
    }

    /** The lookup of a block length, which sets the local only if it succeeds. */
    method ReadBlockLength(i: nat, lba: nat, size: nat) returns (length: nat)
      requires Valid() && i < |volumes|
      ensures length == (if lba < Reachable(volumes[i].blocks) then BlockLength(volumes[i].blocks, lba) else size)
      ensures lba < Reachable(volumes[i].blocks) ==>
                && length <= scratch.Length
                && volumes[i].BlockAt(lba) + length <= flash.Length
    {
      hide BlockOffset, Reachable, BlockLength;
      var v := volumes[i];
      var found := FindBlock(v.blocks, lba);
      if found.NotFound? {
        return size;
      }
      BlockInVolume(v, flash.Length, lba);
      return found.length;
    }

    /** The blocks between the first and the last. */
    method EraseMiddle(i: nat, first: nat, last: nat)
      requires Valid() && i < |volumes|
      modifies flash
      ensures FlashStep(old(flash[..]), flash[..], volumes[i])
      ensures first <= last < Reachable(volumes[i].blocks) ==>
                && Touched(old(flash[..]), flash[..], volumes[i], volumes[i].BlockAt(first),
                           SpanLength(volumes[i], flash.Length, first, last))
                && (volumes[i].CanWrite() && faultless ==>
                      flash[..] == AfterMiddle(old(flash[..]), volumes[i], first, last))
    {
      hide BlockOffset, Reachable, BlockLength, Has, Erased, Touched, ErasedRun, SpanLength;
      var v := volumes[i];
      ghost var m := flash[..];
      ghost var inside := first <= last < Reachable(v.blocks);
      NothingTouched(m, v, v.base, v.Size());
      if inside {
        NothingTouched(m, v, v.BlockAt(first), SpanLength(v, |m|, first, last));
      }
      if last > first + 1 {
        if inside {
          ErasedRunNothing(m, v, first + 1);
        }
        for lba := first + 1 to last
          invariant FlashStep(m, flash[..], v)
          invariant inside ==> Touched(m, flash[..], v, v.BlockAt(first), SpanLength(v, |m|, first, last))
          invariant inside && v.CanWrite() && faultless ==> flash[..] == ErasedRun(m, v, first + 1, lba - first - 1)
        {
          ghost var now := flash[..];
          var status := FvbEraseBlock(i, lba);
          EraseTouches(now, flash[..], v, lba);
          BlockTouch(now, flash[..], v, lba);
          TouchedThen(m, now, flash[..], v, v.base, v.Size());
          if inside {
            TouchedInSpan(m, now, flash[..], v, first, lba, last);
            ErasedRunStep(m, v, first + 1, lba - first - 1);
          }
        }
      }
    }

    /** The last block, if it comes after the first. */
    method EraseLast(i: nat, first: nat, last: nat, size: nat) returns (length: nat)
      requires Valid() && i < |volumes|
      modifies flash, scratch
      ensures length == (if first < last && last < Reachable(volumes[i].blocks) then BlockLength(volumes[i].blocks, last) else size)
      ensures FlashStep(old(flash[..]), flash[..], volumes[i])
      ensures last <= first ==> scratch[..] == old(scratch[..])
      ensures first < last < Reachable(volumes[i].blocks) ==>
                && BlockLength(volumes[i].blocks, last) <= scratch.Length
                && scratch[..] == Saved(old(flash[..]), old(scratch[..]), volumes[i], last)
      ensures first <= last < Reachable(volumes[i].blocks) ==>
                && Touched(old(flash[..]), flash[..], volumes[i], volumes[i].BlockAt(last), BlockLength(volumes[i].blocks, last))
                && (volumes[i].CanWrite() && faultless ==> flash[..] == AfterLast(old(flash[..]), volumes[i], first, last))
    {
      hide BlockOffset, Reachable, BlockLength, Has, Erased, Touched, SameOutside;
      var v := volumes[i];
      ghost var m := flash[..];
      NothingTouched(m, v, v.base, v.Size());
      length := size;
      if last > first {
        length := ReadBlockLength(i, last, size);
        var read, n := FvbReadBlock(i, last, 0, length, scratch);
        var erased := FvbEraseBlock(i, last);
        EraseTouches(m, flash[..], v, last);
        BlockTouch(m, flash[..], v, last);
      } else if last < Reachable(v.blocks) {
        NothingTouched(m, v, v.BlockAt(last), BlockLength(v.blocks, last));
      }
    }

    /** The final write behind the end offset, from the front of the scratch space. */
    method WriteTail(i: nat, last: nat, offsetStart: nat, offsetLast: nat, length: nat) returns (status: Status)
      requires Valid() && i < |volumes| && offsetStart < length && (last < Reachable(volumes[i].blocks) ==> length <= MAX_FLASH)
      modifies flash
      ensures FlashStep(old(flash[..]), flash[..], volumes[i])
      ensures last < Reachable(volumes[i].blocks) ==>
                && Touched(old(flash[..]), flash[..], volumes[i], volumes[i].BlockAt(last), BlockLength(volumes[i].blocks, last))
                && (length == BlockLength(volumes[i].blocks, last) <= scratch.Length && volumes[i].CanWrite() && faultless ==>
                      flash[..] == AfterTail(old(flash[..]), scratch[..], volumes[i], last, offsetStart, offsetLast))
      ensures var check := WriteCheck(volumes[i], last, Behind(offsetLast), length - (offsetStart + 1), true);
              status == check || (status == DeviceError && GoesOn(check) && !faultless)
    {
      hide BlockOffset, Reachable, BlockLength, Has, Programmed, Touched, Behind;
      var v := volumes[i];
      ghost var m := flash[..];
      if last < Reachable(v.blocks) {
        BlockInVolume(v, flash.Length, last);
      }
      var count;
      status, count := FvbWriteBlock(i, last, Behind(offsetLast), length - (offsetStart + 1), scratch);
      WriteTouches(m, flash[..], v, last, Behind(offsetLast), length - (offsetStart + 1));
      BlockTouch(m, flash[..], v, last);
    }

    /** FvbEraseCustomBlockRange, for any block numbers. What the inner calls answer is not looked at; the
        answer is that of the final write. size is what the local for the block length holds before. */
    method FvbEraseCustomBlockRange(i: nat, first: nat, offsetStart: nat, last: nat, offsetLast: nat, size: nat)
      returns (status: Status)
      requires Valid() && i < |volumes| && size < TWO_32 && CustomFits(volumes[i].blocks, first, offsetStart, last, size)
      modifies flash, scratch
      ensures FlashStep(old(flash[..]), flash[..], volumes[i])
      ensures first <= last < Reachable(volumes[i].blocks) ==>
                && Touched(old(flash[..]), flash[..], volumes[i], volumes[i].BlockAt(first),
                           SpanLength(volumes[i], flash.Length, first, last))
                && Spans(volumes[i], flash.Length, scratch.Length, first, last)
                && (volumes[i].CanWrite() && faultless ==>
                      flash[..] == CustomErased(old(flash[..]), old(scratch[..]), volumes[i], first, offsetStart, last, offsetLast))
      ensures var check := WriteCheck(volumes[i], last, Behind(offsetLast),
                                      FinalLength(volumes[i].blocks, first, last, size) - (offsetStart + 1), true);
              status == check || (status == DeviceError && GoesOn(check) && !faultless)
    {
      hide BlockOffset, Reachable, BlockLength, Has, Touched, AfterFirst, AfterMiddle, AfterLast, Saved, AfterTail,
           Behind, SameOutside, Volume.BlockAt, Volume.Size, WriteCheck, SpanLength;
      var v := volumes[i];
      ghost var m := flash[..];
      ghost var inside := first <= last < Reachable(v.blocks);
      FinalLengthFits(v, flash.Length, first, last, size);
      var length := EraseFirst(i, first, offsetStart, size);
      ghost var m1 := flash[..];
      EraseMiddle(i, first, last);
      ghost var m2 := flash[..];
      length := EraseLast(i, first, last, length);
      ghost var m3 := flash[..];
      status := WriteTail(i, last, offsetStart, offsetLast, length);
      FourSteps(m, m1, m2, m3, flash[..], v);
      if inside {
        FourTouches(m, m1, m2, m3, flash[..], v, first, last);
      }
    }

    ghost function Snapshot(): State
      reads this, flash
    {
      State(volumes, flash[..])
    }

    /** One call that can change the driver's state is a permitted step of the driver. */
    method Serve(i: nat, call: Call)
      requires Valid() && i < |volumes| && NoWrap(volumes[i].blocks, call)
      modifies this`volumes, flash, scratch
      ensures Valid() && Step(old(Snapshot()), Snapshot())
    {
      hide BlockOffset, Reachable, BlockLength, Has, AttributeStep, Volume.BlockAt, Volume.Size, Volume.Valid, ValidVolumes,
           SameOutside, InRequests, Programmed;
      ghost var s := Snapshot();
      ValidAt(volumes, i, flash.Length, scratch.Length);
      NoStep(volumes[i].attributes);
      NothingTouched(flash[..], volumes[i], volumes[i].base, volumes[i].Size());
      match call {
        case Write(lba, offset, data) =>
          var buffer := new bv8[|data|](k requires 0 <= k < |data| => data[k]);
          var status, n := FvbWriteBlock(i, lba, offset, |data|, buffer);
          WriteTouches(s.flash, flash[..], volumes[i], lba, offset, |data|);
          BlockTouch(s.flash, flash[..], volumes[i], lba);
        case Erase(requests) =>
          var status := FvbProtocolEraseBlocks(i, requests);
          if volumes[i].CanWrite() && Accepted(volumes[i], requests) {
            RequestsTouch(s.flash, flash[..], volumes[i], requests[..FirstWrap(requests)]);
          }
        case EraseCustom(first, offsetStart, last, offsetLast, size) =>
          var status := FvbEraseCustomBlockRange(i, first, offsetStart, last, offsetLast, size);
        case ChangeAttributes(requested) =>
          var status, attributes := FvbSetVolumeAttributes(i, requested);
      }
      StepOf(s, Snapshot(), i);
    }

    /** Whatever calls are served: a volume that is locked with its write status clear keeps its bytes and
        its attributes, and every volume keeps its capabilities. */
    method ServeAll(calls: seq<(nat, Call)>)
      requires Valid()
      requires forall k :: 0 <= k < |calls| ==>
                 calls[k].0 < |volumes| && NoWrap(volumes[calls[k].0].blocks, calls[k].1)
      modifies this`volumes, flash, scratch
      ensures Valid() && |volumes| == |old(volumes)|
      ensures forall k :: 0 <= k < |volumes| && Frozen(old(volumes)[k]) ==>
                volumes[k] == old(volumes)[k] && SameBytes(old(flash[..]), flash[..], volumes[k])
      ensures forall k :: 0 <= k < |volumes| ==>
                CapabilitiesOf(volumes[k].attributes) == CapabilitiesOf(old(volumes)[k].attributes)
    {
      hide Step, Frozen, CapabilitiesOf, SameBytes, NoWrap, ValidVolumes;
      ghost var run := [Snapshot()];
      ghost var layout := volumes;
      ValidIsDisjoint(volumes, flash.Length, scratch.Length);
      for n := 0 to |calls|
        invariant Valid() && IsRun(run) && run[0] == old(Snapshot()) && run[|run| - 1] == Snapshot()
        invariant SameBlocks(layout, volumes)
      {
        Serve(calls[n].0, calls[n].1);
        StepKeepsBlocks(run[|run| - 1], Snapshot());
        run := Extended(run, Snapshot());
      }
      LayoutForever(run);
      forall k | 0 <= k < |volumes|
        ensures Frozen(run[0].volumes[k]) ==>
                  volumes[k] == run[0].volumes[k] && SameBytes(run[0].flash, flash[..], volumes[k])
        ensures CapabilitiesOf(volumes[k].attributes) == CapabilitiesOf(run[0].volumes[k].attributes)
      {
        CapabilitiesForever(run, k);
        if Frozen(run[0].volumes[k]) {
          FrozenForever(run, k);
        }
      }
    }
  }
}
