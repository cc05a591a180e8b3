/**
 * The block locator. A save is a chain of 23 segments, each a little-endian
 * u32 size prefix followed by that many bytes of data, laid back to back from
 * offset 0.
 */
module Blocks {
  import opened Bytes

  const BLOCK_COUNT: nat := 23

  /** `index` is where the block's data starts (just past its prefix); `end` is one past it. */
  datatype Block = Block(index: nat, size: u32, end: nat)

  /**
   * Reading n prefixes, the first at `offset`, stays inside s. Each read is a
   * slice of four bytes, which is all the source bounds-checks; a block's data
   * is never read, so the last block may run past the end of s.
   */
  predicate Walkable(s: seq<u8>, offset: nat, n: nat)
    decreases n
  {
    n == 0 || (offset + 4 <= |s| && Walkable(s, offset + 4 + ReadU32LE(s, offset), n - 1))
  }

  /** b's size is the prefix just before its data, and its end is index + size. */
  predicate WellLocated(s: seq<u8>, b: Block)
  {
    4 <= b.index <= |s| && b.size == ReadU32LE(s, b.index - 4) && b.end == b.index + b.size
  }

  /** b's prefix starts right where a's data ends. */
  predicate Follows(a: Block, b: Block)
  {
    b.index == a.end + 4
  }

  /**
   * t is a chain of blocks whose first prefix is at `offset`: every block is
   * well located, and each block's prefix starts where the previous block's
   * data ends.
   */
  predicate ChainFrom(s: seq<u8>, offset: nat, t: seq<Block>)
  {
    && (|t| > 0 ==> t[0].index == offset + 4)
    && (forall i :: 0 <= i < |t| ==> WellLocated(s, t[i]))
    && (forall i :: 0 <= i < |t| - 1 ==> Follows(t[i], t[i + 1]))
  }

  /** The layout a save's block table must have: 23 chained blocks from offset 0. */
  predicate IsBlockTable(s: seq<u8>, t: seq<Block>)
  {
    |t| == BLOCK_COUNT && ChainFrom(s, 0, t)
  }

  /** The n blocks whose first prefix is at `offset`, read one prefix at a time. */
  function Walk(s: seq<u8>, offset: nat, n: nat): (r: seq<Block>)
    requires Walkable(s, offset, n)
    ensures |r| == n
    ensures ChainFrom(s, offset, r)
    decreases n
  {
    if n == 0 then []
    else
      var size := ReadU32LE(s, offset);
      var index := offset + 4;
      var rest := Walk(s, index + size, n - 1);
      var r := [Block(index, size, index + size)] + rest;
      assert forall i :: 1 <= i < |r| ==> r[i] == rest[i - 1];
      r
  }

  /** The layout of a chain, one block at a time. */
  lemma ChainLayout(s: seq<u8>, offset: nat, t: seq<Block>)
    requires ChainFrom(s, offset, t)
    ensures |t| > 0 ==> t[0].index == offset + 4 && t[0].size == ReadU32LE(s, offset)
    ensures forall i :: 0 <= i < |t| ==> 4 <= t[i].index <= |s| && t[i].end == t[i].index + t[i].size
    ensures forall i :: 0 <= i < |t| - 1 ==>
              t[i].end + 4 <= |s| && t[i + 1].index == t[i].end + 4 && t[i + 1].size == ReadU32LE(s, t[i].end)
  {
    assert |t| > 0 ==> WellLocated(s, t[0]);
    forall i | 0 <= i < |t| - 1
      ensures t[i].end + 4 <= |s| && t[i + 1].index == t[i].end + 4 && t[i + 1].size == ReadU32LE(s, t[i].end)
    {
      assert WellLocated(s, t[i + 1]) && Follows(t[i], t[i + 1]);
    }
  }

  /**
   * `generate_block_info`: 23 chained blocks read from offset 0, so block 0's
   * data starts at 4 and its size is the u32 at 0..4 (the facts are spelled
   * out by ChainLayout).
   */
  function GenerateBlockInfo(s: seq<u8>): (r: seq<Block>)
    requires Walkable(s, 0, BLOCK_COUNT)
    ensures IsBlockTable(s, r)
  {
    Walk(s, 0, BLOCK_COUNT)
  }

  /**
   * A chain is determined by its buffer and starting offset: any sequence of
   * blocks with the layout is exactly what the locator reads, and its existence
   * already guarantees every prefix read stays in bounds.
   */
  lemma {:induction false} ChainIsWalk(s: seq<u8>, offset: nat, t: seq<Block>)
    requires ChainFrom(s, offset, t)
    ensures Walkable(s, offset, |t|)
    ensures Walk(s, offset, |t|) == t
    decreases |t|
  {
    if |t| > 0 {
      ChainTail(s, offset, t);
      ChainIsWalk(s, t[0].end, t[1..]);
      WalkStep(s, offset, |t|);
      assert t == [t[0]] + t[1..];
    }
  }

  /** Past its first block, a chain is a chain from that block's end. */
  lemma ChainTail(s: seq<u8>, offset: nat, t: seq<Block>)
    requires ChainFrom(s, offset, t) && |t| > 0
    ensures t[0] == Block(offset + 4, ReadU32LE(s, offset), offset + 4 + ReadU32LE(s, offset))
    ensures ChainFrom(s, t[0].end, t[1..])
  {
    assert WellLocated(s, t[0]);
    var rest := t[1..];
    forall i | 0 <= i < |rest|
      ensures WellLocated(s, rest[i])
    {
      assert rest[i] == t[i + 1];
    }
    forall i | 0 <= i < |rest| - 1
      ensures Follows(rest[i], rest[i + 1])
    {
      assert rest[i] == t[i + 1] && rest[i + 1] == t[i + 2];
    }
    assert |rest| > 0 ==> rest[0].index == t[0].end + 4;
  }

  /** The locator reads one prefix, then walks on from the end of that block. */
  lemma WalkStep(s: seq<u8>, offset: nat, n: nat)
    requires Walkable(s, offset, n) && n > 0
    ensures var size := ReadU32LE(s, offset);
      Walk(s, offset, n) == [Block(offset + 4, size, offset + 4 + size)] + Walk(s, offset + 4 + size, n - 1)
  {
  }

  /** A buffer has at most one block table, and it is the one the locator returns. */
  lemma BlockTableUnique(s: seq<u8>, t: seq<Block>)
    requires IsBlockTable(s, t)
    ensures Walkable(s, 0, BLOCK_COUNT)
    ensures GenerateBlockInfo(s) == t
  {
    ChainIsWalk(s, 0, t);
  }

  /** Blocks of a chain are in increasing order and do not overlap. */
  lemma {:induction false} ChainOrdered(s: seq<u8>, offset: nat, t: seq<Block>, i: nat, j: nat)
    requires ChainFrom(s, offset, t)
    requires i < j < |t|
    ensures t[i].end + 4 <= t[j].index
    decreases j - i
  {
    assert WellLocated(s, t[i + 1]) && Follows(t[i], t[i + 1]);
    if i + 1 < j {
      ChainOrdered(s, offset, t, i + 1, j);
    }
  }
}
