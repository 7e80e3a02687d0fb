// Disk blocks of 1024 bytes, index blocks of 512 little-endian shorts, and the size of a page.

module Blocks {
  const BLOCK_SIZE := 1024
  const PAGE_SIZE: nat := 4096

  type byte = x: int | 0 <= x < 256

  type Block = b: seq<byte> | |b| == 1024 witness seq(1024, _ => 0)

  function ZeroBlock(): (b: Block)
    ensures forall i :: 0 <= i < 512 ==> Short(b, i) == 0
  {
    seq(1024, _ => 0)
  }

  /** Entry i of an index block, a little-endian short. */
  function Short(b: Block, i: int): nat
    requires 0 <= i < 512
  {
    b[2 * i] as int + 256 * (b[2 * i + 1] as int)
  }

  /** On disk the low byte comes first. */
  lemma ShortInBytes(b: Block, i: int)
    requires 0 <= i < 512
    ensures Short(b, i) % 256 == b[2 * i] && Short(b, i) / 256 == b[2 * i + 1]
  {
  }

  function PutShort(b: Block, i: int, v: nat): (r: Block)
    requires 0 <= i < 512 && v < 65536
    ensures forall j :: 0 <= j < 512 ==> Short(r, j) == if j == i then v else Short(b, j)
  {
    b[2 * i := v % 256][2 * i + 1 := v / 256]
  }
}
