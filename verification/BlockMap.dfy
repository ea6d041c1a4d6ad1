/** The block map of a firmware volume: runs of blocks of equal length, ended by an empty entry. */
module BlockMap {

  datatype Entry = Entry(num: nat, length: nat)

  /** The map has an entry of no blocks, which is where counting stops. */
  ghost predicate Terminated(blocks: seq<Entry>) {
    exists i :: 0 <= i < |blocks| && blocks[i].num == 0
  }

  /** The blocks that a lookup can find: it stops at an entry with either field 0. */
  function Reachable(blocks: seq<Entry>): nat {
    if blocks == [] || blocks[0].num == 0 || blocks[0].length == 0 then 0
    else blocks[0].num + Reachable(blocks[1..])
  }

  /** The blocks that initialisation counts: it stops at an entry with no blocks. */
  function Counted(blocks: seq<Entry>): nat {
    if blocks == [] || blocks[0].num == 0 then 0 else blocks[0].num + Counted(blocks[1..])
  }

  /** No entry of zero-length blocks stands before the end. */
  predicate WellTerminated(blocks: seq<Entry>) {
    blocks == [] || blocks[0].num == 0 || (blocks[0].length > 0 && WellTerminated(blocks[1..]))
  }

  /** The two counts agree exactly for well-terminated maps. */
  lemma {:induction false} CountsAgree(blocks: seq<Entry>)
    ensures Reachable(blocks) <= Counted(blocks)
    ensures Reachable(blocks) == Counted(blocks) <==> WellTerminated(blocks)
  {
    if blocks != [] && blocks[0].num != 0 && blocks[0].length != 0 {
      CountsAgree(blocks[1..]);
    }
  }

  function BlockLength(blocks: seq<Entry>, i: nat): (n: nat)
    requires i < Reachable(blocks)
    ensures n > 0
  {
    if i < blocks[0].num then blocks[0].length else BlockLength(blocks[1..], i - blocks[0].num)
  }

  /** Where block i starts: the summed lengths of all earlier blocks. */
  function BlockOffset(blocks: seq<Entry>, i: nat): nat
    requires i <= Reachable(blocks)
  {
    if i == 0 then 0 else BlockOffset(blocks, i - 1) + BlockLength(blocks, i - 1)
  }

  /** Within the first entry blocks are equally long. */
  lemma {:induction false} OffsetInFirst(blocks: seq<Entry>, i: nat)
    requires blocks != [] && i <= blocks[0].num && i <= Reachable(blocks)
    ensures BlockOffset(blocks, i) == i * blocks[0].length
  {
    if i > 0 {
      OffsetInFirst(blocks, i - 1);
    }
  }

  /** Past the first entry, offsets continue those of the rest of the map. */
  lemma {:induction false} OffsetPastFirst(blocks: seq<Entry>, i: nat)
    requires blocks != [] && blocks[0].num <= i <= Reachable(blocks) && Reachable(blocks) > 0
    ensures BlockOffset(blocks, i) == blocks[0].num * blocks[0].length + BlockOffset(blocks[1..], i - blocks[0].num)
    decreases i
  {
    if i == blocks[0].num {
      OffsetInFirst(blocks, i);
    } else {
      OffsetPastFirst(blocks, i - 1);
    }
  }

  /** Blocks follow each other: the extent of an earlier block ends at or before the start of a later one. */
  lemma {:induction false} ExtentsDisjoint(blocks: seq<Entry>, i: nat, j: nat)
    requires i < j <= Reachable(blocks)
    ensures BlockOffset(blocks, i) + BlockLength(blocks, i) <= BlockOffset(blocks, j)
    decreases j
  {
    if i < j - 1 {
      ExtentsDisjoint(blocks, i, j - 1);
    }
  }

  /** Every offset of the volume lies in some block; by ExtentsDisjoint in no other. */
  lemma {:induction false} BlockOfOffset(blocks: seq<Entry>, n: nat, at: nat)
    requires n <= Reachable(blocks) && at < BlockOffset(blocks, n)
    ensures exists i :: 0 <= i < n && BlockOffset(blocks, i) <= at < BlockOffset(blocks, i) + BlockLength(blocks, i)
    decreases n
  {
    if at < BlockOffset(blocks, n - 1) {
      BlockOfOffset(blocks, n - 1, at);
    }
  }

  datatype Found = Found(offset: nat, length: nat, run: nat) | NotFound

  /** left is what remains of the map after start blocks of offset bytes in all. */
  ghost predicate Remaining(blocks: seq<Entry>, start: nat, offset: nat, left: seq<Entry>) {
    && Reachable(blocks) == start + Reachable(left)
    && (forall j :: start <= j < Reachable(blocks) ==> BlockLength(blocks, j) == BlockLength(left, j - start))
    && (forall j :: start <= j <= Reachable(blocks) ==>
          BlockOffset(blocks, j) == offset + BlockOffset(left, j - start))
  }

  lemma NextRemaining(blocks: seq<Entry>, start: nat, offset: nat, left: seq<Entry>)
    requires Remaining(blocks, start, offset, left) && left != [] && left[0].num > 0 && left[0].length > 0
    ensures Remaining(blocks, start + left[0].num, offset + left[0].num * left[0].length, left[1..])
  {
    var next := start + left[0].num;
    forall j | next <= j <= Reachable(blocks)
      ensures BlockOffset(blocks, j) == offset + left[0].num * left[0].length + BlockOffset(left[1..], j - next)
    {
      OffsetPastFirst(left, j - start);
    }
    forall j | next <= j < Reachable(blocks)
      ensures BlockLength(blocks, j) == BlockLength(left[1..], j - next)
    {
      assert BlockLength(blocks, j) == BlockLength(left, j - start);
    }
  }

  /** A block in the first entry of what remains. */
  lemma FoundInFirst(blocks: seq<Entry>, start: nat, offset: nat, left: seq<Entry>, lba: nat)
    requires Remaining(blocks, start, offset, left) && left != [] && left[0].num > 0 && left[0].length > 0
    requires start <= lba < start + left[0].num
    ensures start + left[0].num <= Reachable(blocks)
    ensures BlockOffset(blocks, lba) == offset + (lba - start) * left[0].length
    ensures forall j :: lba <= j < start + left[0].num ==> BlockLength(blocks, j) == left[0].length
  {
    OffsetInFirst(left, lba - start);
    assert BlockOffset(blocks, lba) == offset + BlockOffset(left, lba - start);
    forall j | lba <= j < start + left[0].num
      ensures BlockLength(blocks, j) == left[0].length
    {
      assert BlockLength(blocks, j) == BlockLength(left, j - start);
    }
  }

  /** The lookup loop of FvbGetLbaAddress, as an offset from the base of the volume. */
  method FindBlock(blocks: seq<Entry>, lba: nat) returns (r: Found)
    requires Terminated(blocks)
    ensures r.NotFound? <==> lba >= Reachable(blocks)
    ensures r.Found? ==>
              && r.offset == BlockOffset(blocks, lba)
              && r.length == BlockLength(blocks, lba)
              && r.run >= 1 && lba + r.run <= Reachable(blocks)
              && forall j :: lba <= j < lba + r.run ==> BlockLength(blocks, j) == r.length
  {
    hide BlockOffset, BlockLength, Remaining;
    var k: nat, start: nat, offset: nat := 0, 0, 0;
    WholeRemaining(blocks);
    assert blocks[0..] == blocks;
    while true
      invariant k <= |blocks|
      invariant exists i :: k <= i < |blocks| && blocks[i].num == 0
      invariant start <= lba && Remaining(blocks, start, offset, blocks[k..])
      decreases |blocks| - k
    {
      var num, length := blocks[k].num, blocks[k].length;
      assert blocks[k..][0] == blocks[k] && blocks[k..][1..] == blocks[k + 1..];
      RemainingCount(blocks, start, offset, blocks[k..]);
      if num == 0 || length == 0 {
        return NotFound;
      }
      var next := start + num;
      if lba >= start && lba < next {
        FoundInFirst(blocks, start, offset, blocks[k..], lba);
        offset := offset + (lba - start) * length;
        return Found(offset, length, next - lba);
      }
      NextRemaining(blocks, start, offset, blocks[k..]);
      start := next;
      offset := offset + num * length;
      k := k + 1;
    }
  }

  lemma WholeRemaining(blocks: seq<Entry>)
    ensures Remaining(blocks, 0, 0, blocks)
  {
  }

  lemma RemainingCount(blocks: seq<Entry>, start: nat, offset: nat, left: seq<Entry>)
    requires Remaining(blocks, start, offset, left)
    ensures Reachable(blocks) == start + Reachable(left)
  {
  }

  /** The counting loop of FvbInitialize: the number of blocks and the length of the longest block. */
  method CountBlocks(blocks: seq<Entry>) returns (count: nat, maxLength: nat)
    requires Terminated(blocks)
    ensures count == Counted(blocks)
    ensures forall i :: 0 <= i < Reachable(blocks) ==> BlockLength(blocks, i) <= maxLength
  {
    var k := 0;
    count, maxLength := 0, 0;
    ghost var left := blocks;
    assert blocks[0..] == blocks;
    while blocks[k].num != 0
      invariant k < |blocks| && left == blocks[k..]
      invariant exists i :: k <= i < |blocks| && blocks[i].num == 0
      invariant Counted(blocks) == count + Counted(left)
      invariant forall i :: 0 <= i < k ==> blocks[i].length <= maxLength
      invariant forall i :: 0 <= i < k ==> blocks[i].num > 0
      decreases |blocks| - k
    {
      assert left[0] == blocks[k] && left[1..] == blocks[k + 1..];
      if maxLength < blocks[k].length {
        maxLength := blocks[k].length;
      }
      count := count + blocks[k].num;
      k := k + 1;
      left := blocks[k..];
    }
    assert left[0] == blocks[k];
    LongestBound(blocks, k, maxLength);
  }

  lemma {:induction false} LongestBound(blocks: seq<Entry>, k: nat, maxLength: nat)
    requires k < |blocks| && blocks[k].num == 0
    requires forall i :: 0 <= i < k ==> blocks[i].length <= maxLength
    ensures forall i :: 0 <= i < Reachable(blocks) ==> BlockLength(blocks, i) <= maxLength
    decreases k
  {
    if k > 0 && blocks[0].num > 0 && blocks[0].length > 0 {
      LongestBound(blocks[1..], k - 1, maxLength);
    }
  }
}
