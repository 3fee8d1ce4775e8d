/** Arrays of bytes that qsort cannot sort: their elements carry, in their first four
    bytes, the numbers of a staircase. */
module ByteStaircase {
  import opened Bytes
  import opened ByteSort
  import opened Limits
  import opened QuickSort

  /** The little-endian number in the first four bytes of a block. */
  function NumberIn(b: Block): int {
    if |b| < 4 then 0 else b[0] as int + 0x100 * (b[1] as int) + 0x1_0000 * (b[2] as int) + 0x100_0000 * (b[3] as int)
  }

  function Digit(v: nat, unit: nat): (d: Byte)
    requires unit > 0
  {
    v / unit % 0x100
  }

  function BlockOf(v: nat, size: nat): (b: Block)
    requires size >= 4
    ensures |b| == size
  {
    [Digit(v, 1), Digit(v, 0x100), Digit(v, 0x1_0000), Digit(v, 0x100_0000)] + seq(size - 4, _ => 0)
  }

  lemma NumberInBlock(v: nat, size: nat)
    requires v < 0x1_0000_0000 && size >= 4
    ensures NumberIn(BlockOf(v, size)) == v
  {
    var v1 := v / 0x100;
    var v2 := v1 / 0x100;
    assert v / 0x1_0000 == v2 && v / 0x100_0000 == v2 / 0x100;
    assert v == v % 0x100 + 0x100 * v1 && v1 == v1 % 0x100 + 0x100 * v2 && v2 == v2 % 0x100 + 0x100 * (v2 / 0x100);
  }

  /** The first k elements of a staircase of n. */
  function StaircaseBytes(k: nat, n: nat, size: nat): (m: seq<Byte>)
    requires k <= n && size >= 4
    ensures |m| == Offset(k, size)
  {
    if k == 0 then [] else StaircaseBytes(k - 1, n, size) + BlockOf(Stair(n, k - 1), size)
  }

  lemma {:induction false} StaircaseBlocks(k: nat, n: nat, size: nat, m: seq<Byte>)
    requires k <= n && size >= 4 && StaircaseBytes(k, n, size) <= m
    ensures forall i: nat :: i < k ==> Blocks(m, 0, size, k)[i] == BlockOf(Stair(n, i), size)
    decreases k
  {
    hide BlockOf;
    if k == 0 {
    } else {
      assert StaircaseBytes(k - 1, n, size) <= StaircaseBytes(k, n, size);
      StaircaseBlocks(k - 1, n, size, m);
      assert BlockAt(m, 0, size, k - 1) == BlockOf(Stair(n, k - 1), size);
    }
  }

  /** From 194 elements on, of any size that can hold a number of four bytes, there is an
      array on which the assertion in push fires. */
  lemma QsortCanFail(nmemb: nat, size: nat)
    requires 194 <= nmemb <= INT_MAX && size >= 4
    ensures var m := StaircaseBytes(nmemb, nmemb, size);
            && |m| == Offset(nmemb, size) && TotalPreorder(Ascending(NumberIn))
            && !NeverOver64(State(Blocks(m, 0, size, nmemb), [Segment(0, nmemb - 1)], true), Ascending(NumberIn))
  {
    hide NumberIn, NeverOver64, TotalPreorder, Completes;
    var m := StaircaseBytes(nmemb, nmemb, size);
    var bs := Blocks(m, 0, size, nmemb);
    StaircaseBlocks(nmemb, nmemb, size, m);
    forall i: nat | i < nmemb
      ensures NumberIn(bs[i]) == Stair(nmemb, i)
    {
      NumberInBlock(Stair(nmemb, i), size);
    }
    StaircaseFails(bs, NumberIn);
  }

  /** qsort returns false on it. */
  method QsortFails(nmemb: nat, size: nat) returns (ok: bool)
    requires 194 <= nmemb <= INT_MAX && size >= 4
    ensures !ok
  {
    var m := StaircaseBytes(nmemb, nmemb, size);
    var a := new Byte[|m|](i requires 0 <= i < |m| => m[i]);
    assert a[..] == m;
    hide NeverOver64, Blocks, NumberIn, StaircaseBytes, Sorted, TotalPreorder, SameOutside, Ascending;
    QsortCanFail(nmemb, size);
    ok := Qsort(a, 0, nmemb, size, Ascending(NumberIn));
  }
}
