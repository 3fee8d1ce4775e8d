/** qsort of tis_stdlib.c, in place on nmemb blocks of size bytes each, starting
    at offset base of a larger memory. */
module ByteSort {
  import opened Bytes
  import opened Limits
  import opened QuickSort

  type Block = seq<Byte>

  // ----- Blocks of a memory -----

  /** How far the k-th block is from the start of the array. */
  function Offset(k: nat, size: nat): nat {
    if k == 0 then 0 else Offset(k - 1, size) + size
  }

  lemma {:induction false} OffsetIsProduct(k: nat, size: nat)
    ensures Offset(k, size) == k * size
  {
    if k == 0 {
    } else {
      OffsetIsProduct(k - 1, size);
      assert k * size == (k - 1) * size + size;
    }
  }

  lemma {:induction false} BlocksApart(i: nat, j: nat, size: nat)
    requires i < j
    ensures Offset(i, size) + size <= Offset(j, size)
    decreases j
  {
    if i + 1 == j {
    } else {
      BlocksApart(i, j - 1, size);
    }
  }

  lemma BlocksDisjoint(i: nat, j: nat, size: nat)
    requires i != j
    ensures Offset(i, size) + size <= Offset(j, size) || Offset(j, size) + size <= Offset(i, size)
  {
    if i < j {
      BlocksApart(i, j, size);
    } else {
      BlocksApart(j, i, size);
    }
  }

  ghost predicate Fits(length: nat, base: nat, size: nat, n: nat) {
    base + Offset(n, size) <= length
  }

  function BlockAt(m: seq<Byte>, base: nat, size: nat, k: nat): (b: Block)
    requires base + Offset(k, size) + size <= |m|
    ensures |b| == size
  {
    m[base + Offset(k, size)..base + Offset(k, size) + size]
  }

  /** The nmemb elements of the array, as blocks of bytes. */
  function Blocks(m: seq<Byte>, base: nat, size: nat, n: nat): (bs: seq<Block>)
    requires Fits(|m|, base, size, n)
    ensures |bs| == n
  {
    if n == 0 then [] else Blocks(m, base, size, n - 1) + [BlockAt(m, base, size, n - 1)]
  }

  lemma {:induction false} BlocksIndex(m: seq<Byte>, base: nat, size: nat, n: nat, k: nat)
    requires Fits(|m|, base, size, n) && k < n
    ensures base + Offset(k, size) + size <= base + Offset(n, size)
    ensures Blocks(m, base, size, n)[k] == BlockAt(m, base, size, k)
    decreases n
  {
    if k == n - 1 {
    } else {
      BlocksIndex(m, base, size, n - 1, k);
    }
  }

  /** All bytes outside the array are the same. */
  ghost predicate SameOutside(m: seq<Byte>, m': seq<Byte>, base: nat, size: nat, n: nat)
    requires Fits(|m|, base, size, n)
  {
    && |m| == |m'|
    && m'[..base] == m[..base]
    && m'[base + Offset(n, size)..] == m[base + Offset(n, size)..]
  }

  lemma SameOutsideTwice(m: seq<Byte>, m': seq<Byte>, m'': seq<Byte>, base: nat, size: nat, n: nat)
    requires Fits(|m|, base, size, n)
    requires SameOutside(m, m', base, size, n) && SameOutside(m', m'', base, size, n)
    ensures SameOutside(m, m'', base, size, n)
  {
  }

  // ----- swap -----

  /** The bytes of m after exchanging the size bytes at pi with those at pj. */
  ghost predicate Exchanged(m: seq<Byte>, m': seq<Byte>, pi: nat, pj: nat, size: nat)
    requires pi + size <= |m| && pj + size <= |m|
  {
    && |m'| == |m|
    && m'[pi..pi + size] == m[pj..pj + size]
    && m'[pj..pj + size] == m[pi..pi + size]
    && forall p {:trigger m'[p]} :: 0 <= p < |m| && !(pi <= p < pi + size) && !(pj <= p < pj + size) ==> m'[p] == m[p]
  }

  /** The loop of swap. */
  method ExchangeBytes(a: array<Byte>, pi: nat, pj: nat, size: nat)
    requires pi + size <= a.Length && pj + size <= a.Length
    requires pi == pj || pi + size <= pj || pj + size <= pi
    modifies a
    ensures Exchanged(old(a[..]), a[..], pi, pj, size)
  {
    var b := 0;
    while b < size
      invariant 0 <= b <= size
      invariant forall p {:trigger a[p]} :: pi <= p < pi + b ==> a[p] == old(a[p - pi + pj])
      invariant forall p {:trigger a[p]} :: pj <= p < pj + b ==> a[p] == old(a[p - pj + pi])
      invariant forall p {:trigger a[p]} :: 0 <= p < a.Length && !(pi <= p < pi + b) && !(pj <= p < pj + b) ==> a[p] == old(a[p])
    {
      var tmp := a[pi + b];
      a[pi + b] := a[pj + b];
      a[pj + b] := tmp;
      b := b + 1;
    }
    assert a[pi..pi + size] == old(a[pj..pj + size]);
    assert a[pj..pj + size] == old(a[pi..pi + size]);
  }

  lemma ExchangedElsewhere(m: seq<Byte>, m': seq<Byte>, pi: nat, pj: nat, size: nat, p: nat)
    requires pi + size <= |m| && pj + size <= |m| && p + size <= |m|
    requires Exchanged(m, m', pi, pj, size)
    requires (p + size <= pi || pi + size <= p) && (p + size <= pj || pj + size <= p)
    ensures m'[p..p + size] == m[p..p + size]
  {
    forall q | p <= q < p + size
      ensures m'[q] == m[q]
    {
    }
  }

  lemma OtherBlockStays(m: seq<Byte>, m': seq<Byte>, base: nat, size: nat, i: nat, j: nat, k: nat)
    requires base + Offset(i, size) + size <= |m| && base + Offset(j, size) + size <= |m|
    requires base + Offset(k, size) + size <= |m| && k != i && k != j
    requires Exchanged(m, m', base + Offset(i, size), base + Offset(j, size), size)
    ensures |m'| == |m| && BlockAt(m', base, size, k) == BlockAt(m, base, size, k)
  {
    hide Offset;
    BlocksDisjoint(i, k, size);
    BlocksDisjoint(j, k, size);
    ExchangedElsewhere(m, m', base + Offset(i, size), base + Offset(j, size), size, base + Offset(k, size));
    hide Exchanged;
  }

  lemma ExchangedBlocks(m: seq<Byte>, m': seq<Byte>, base: nat, size: nat, i: nat, j: nat)
    requires base + Offset(i, size) + size <= |m| && base + Offset(j, size) + size <= |m|
    requires Exchanged(m, m', base + Offset(i, size), base + Offset(j, size), size)
    ensures |m'| == |m|
    ensures BlockAt(m', base, size, i) == BlockAt(m, base, size, j)
    ensures BlockAt(m', base, size, j) == BlockAt(m, base, size, i)
  {
    hide Offset;
  }

  /** The blocks i and j change places, and no other block moves. */
  lemma ExchangeMovesBlock(m: seq<Byte>, m': seq<Byte>, base: nat, size: nat, n: nat, i: nat, j: nat, k: nat)
    requires Fits(|m|, base, size, n) && i < n && j < n && k < n
    requires base + Offset(i, size) + size <= |m| && base + Offset(j, size) + size <= |m|
    requires Exchanged(m, m', base + Offset(i, size), base + Offset(j, size), size)
    ensures base + Offset(k, size) + size <= |m| == |m'|
    ensures k == i ==> BlockAt(m', base, size, k) == BlockAt(m, base, size, j)
    ensures k == j ==> BlockAt(m', base, size, k) == BlockAt(m, base, size, i)
    ensures k != i && k != j ==> BlockAt(m', base, size, k) == BlockAt(m, base, size, k)
  {
    hide Offset, Exchanged, BlockAt;
    BlocksApart(k, n, size);
    ExchangedBlocks(m, m', base, size, i, j);
    if k != i && k != j {
      OtherBlockStays(m, m', base, size, i, j, k);
    }
  }

  /** A swap of bytes is a swap of elements. */
  lemma ExchangeSwapsBlocks(m: seq<Byte>, m': seq<Byte>, base: nat, size: nat, n: nat, i: nat, j: nat)
    requires Fits(|m|, base, size, n) && i < n && j < n
    requires base + Offset(i, size) + size <= |m| && base + Offset(j, size) + size <= |m|
    requires Exchanged(m, m', base + Offset(i, size), base + Offset(j, size), size)
    ensures Fits(|m'|, base, size, n) && Blocks(m', base, size, n) == Swap(Blocks(m, base, size, n), i, j)
  {
    hide Offset, Exchanged, BlockAt, Blocks;
    ExchangeMovesBlock(m, m', base, size, n, i, j, i);
    var bs, bs' := Blocks(m, base, size, n), Blocks(m', base, size, n);
    BlocksIndex(m, base, size, n, i);
    BlocksIndex(m, base, size, n, j);
    forall k | 0 <= k < n
      ensures bs'[k] == Swap(bs, i, j)[k]
    {
      ExchangeMovesBlock(m, m', base, size, n, i, j, k);
      BlocksIndex(m, base, size, n, k);
      BlocksIndex(m', base, size, n, k);
    }
  }

  lemma ExchangeStaysInside(m: seq<Byte>, m': seq<Byte>, base: nat, size: nat, n: nat, i: nat, j: nat)
    requires Fits(|m|, base, size, n) && i < n && j < n
    requires base + Offset(i, size) + size <= |m| && base + Offset(j, size) + size <= |m|
    requires Exchanged(m, m', base + Offset(i, size), base + Offset(j, size), size)
    ensures SameOutside(m, m', base, size, n)
  {
    BlocksApart(i, n, size);
    BlocksApart(j, n, size);
    forall p | 0 <= p < base || base + Offset(n, size) <= p < |m|
      ensures m'[p] == m[p]
    {
    }
  }

  /** base + k * size, the address of the k-th element. */
  method Address(base: nat, k: nat, size: nat) returns (p: nat)
    ensures p == base + Offset(k, size)
  {
    OffsetIsProduct(k, size);
    p := base + k * size;
  }

  method SwapElements(a: array<Byte>, base: nat, size: nat, ghost n: nat, i: nat, j: nat)
    requires Fits(a.Length, base, size, n) && i < n && j < n
    modifies a
    ensures Blocks(a[..], base, size, n) == Swap(Blocks(old(a[..]), base, size, n), i, j)
    ensures SameOutside(old(a[..]), a[..], base, size, n)
  {
    BlocksApart(i, n, size);
    BlocksApart(j, n, size);
    if i != j {
      BlocksDisjoint(i, j, size);
    }
    var pi := Address(base, i, size);
    var pj := Address(base, j, size);
    ExchangeBytes(a, pi, pj, size);
    ExchangeStaysInside(old(a[..]), a[..], base, size, n, i, j);
    ExchangeSwapsBlocks(old(a[..]), a[..], base, size, n, i, j);
  }

  // ----- partition -----

  method Compare(a: array<Byte>, base: nat, size: nat, ghost n: nat, i: nat, j: nat, cmp: (Block, Block) -> int) returns (c: int)
    requires Fits(a.Length, base, size, n) && i < n && j < n
    ensures c == cmp(Blocks(a[..], base, size, n)[i], Blocks(a[..], base, size, n)[j])
  {
    hide Offset, Blocks;
    BlocksIndex(a[..], base, size, n, i);
    BlocksIndex(a[..], base, size, n, j);
    var pi := Address(base, i, size);
    var pj := Address(base, j, size);
    c := cmp(a[pi..pi + size], a[pj..pj + size]);
    assert a[pi..pi + size] == BlockAt(a[..], base, size, i);
    assert a[pj..pj + size] == BlockAt(a[..], base, size, j);
  }

  method PartitionInPlace(a: array<Byte>, base: nat, size: nat, ghost n: nat, start: nat, end: nat, cmp: (Block, Block) -> int)
    returns (i: nat)
    requires Fits(a.Length, base, size, n) && start <= end < n
    modifies a
    ensures var r := Partition(Blocks(old(a[..]), base, size, n), start, end, cmp);
            Blocks(a[..], base, size, n) == r.0 && i == r.1
    ensures SameOutside(old(a[..]), a[..], base, size, n)
  {
    ghost var m := a[..];
    ghost var goal := Scan(Blocks(m, base, size, n), start, start, end, cmp);
    i := start;
    var j := start;
    while j <= end - 1
      invariant start <= i <= j <= end
      invariant Scan(Blocks(a[..], base, size, n), i, j, end, cmp) == goal
      invariant SameOutside(m, a[..], base, size, n)
      decreases end - j
    {
      var c := Compare(a, base, size, n, j, end, cmp);
      if c <= 0 {
        ghost var m' := a[..];
        SwapElements(a, base, size, n, i, j);
        SameOutsideTwice(m, m', a[..], base, size, n);
        i := i + 1;
      }
      j := j + 1;
    }
    ghost var m' := a[..];
    SwapElements(a, base, size, n, i, end);
    SameOutsideTwice(m, m', a[..], base, size, n);
  }

  // ----- The explicit stack -----

  class QsortStack {
    var stack: array<Segment>
    var position: nat

    ghost predicate Valid()
      reads this
    {
      stack.Length == CAPACITY && position <= CAPACITY
    }

    ghost function Contents(): seq<Segment>
      requires Valid()
      reads this, stack
    {
      stack[..position]
    }

    constructor ()
      ensures Valid() && fresh(stack) && Contents() == []
    {
      stack := new Segment[CAPACITY];
      position := 0;
    }

    /** ok is false when the assertion on the capacity fires. */
    method Push(p: Segment) returns (ok: bool)
      requires Valid()
      modifies this`position, stack
      ensures Valid() && ok == (old(position) < CAPACITY)
      ensures Contents() == if ok then old(Contents()) + [p] else old(Contents())
    {
      if position >= CAPACITY {
        return false;
      }
      stack[position] := p;
      position := position + 1;
      return true;
    }

    method Pop() returns (p: Segment)
      requires Valid() && position > 0
      modifies this`position
      ensures Valid() && Contents() == old(Contents())[..old(position) - 1]
      ensures p == old(Contents())[old(position) - 1]
    {
      position := position - 1;
      p := stack[position];
    }
  }

  // ----- quick_stub and qsort -----

  /** The two pushes at the end of an iteration of quick_stub. */
  method PushSides(stack: QsortStack, next: Segment, middle: int) returns (ok: bool)
    requires stack.Valid() && stack.position < CAPACITY
    modifies stack, stack.stack
    ensures stack.Valid() && stack.stack == old(stack.stack)
    ensures ok == (|Pushed(old(stack.Contents()), next, middle)| <= CAPACITY)
    ensures ok ==> stack.Contents() == Pushed(old(stack.Contents()), next, middle)
  {
    ok := true;
    if middle - 1 > next.x {
      ok := stack.Push(Segment(next.x, middle - 1));
    }
    if middle + 1 < next.y {
      ok := stack.Push(Segment(middle + 1, next.y));
    }
  }

  /** One iteration of the loop of quick_stub, from the pop to the pushes. */
  method Iteration(a: array<Byte>, base: nat, size: nat, ghost n: nat, stack: QsortStack, cmp: (Block, Block) -> int)
    returns (ok: bool)
    requires Fits(a.Length, base, size, n) && stack.Valid() && stack.position > 0
    requires State(Blocks(a[..], base, size, n), stack.Contents(), true).InBounds()
    modifies a, stack, stack.stack
    ensures stack.Valid() && stack.stack == old(stack.stack)
    ensures var r := old(State(Blocks(a[..], base, size, n), stack.Contents(), true)).Step(cmp);
            && Blocks(a[..], base, size, n) == r.s && ok == r.ok
            && (ok ==> stack.Contents() == r.stack)
    ensures SameOutside(old(a[..]), a[..], base, size, n)
  {
    ghost var st := State(Blocks(a[..], base, size, n), stack.Contents(), true);
    var next := stack.Pop();
    if next.x > next.y {
      return true;
    }
    StepShape(st, cmp);
    var middle := PartitionInPlace(a, base, size, n, next.x, next.y, cmp);
    ok := PushSides(stack, next, middle);
  }

  method QuickStub(a: array<Byte>, base: nat, size: nat, ghost n: nat, start: int, end: int, cmp: (Block, Block) -> int)
    returns (ok: bool)
    requires Fits(a.Length, base, size, n) && start == 0 && end == n - 1
    modifies a
    ensures var r := Start(Blocks(old(a[..]), base, size, n)).Run(cmp);
            Blocks(a[..], base, size, n) == r.s && ok == r.ok
    ensures SameOutside(old(a[..]), a[..], base, size, n)
  {
    ghost var m := a[..];
    ghost var st := Start(Blocks(m, base, size, n));
    var stack := new QsortStack();
    ok := stack.Push(Segment(start, end));
    while stack.position != 0
      invariant stack.Valid() && fresh(stack) && fresh(stack.stack) && ok
      invariant st == State(Blocks(a[..], base, size, n), stack.Contents(), true)
      invariant st.InBounds() && st.Run(cmp) == Start(Blocks(m, base, size, n)).Run(cmp)
      invariant SameOutside(m, a[..], base, size, n)
      decreases Pending(st.stack)
    {
      StepDecreases(st, cmp);
      ghost var m' := a[..];
      ok := Iteration(a, base, size, n, stack, cmp);
      SameOutsideTwice(m, m', a[..], base, size, n);
      st := st.Step(cmp);
      if !ok {
        return;
      }
    }
  }

  /** qsort sorts the blocks and touches nothing else, for every run in which the
      assertion does not fire; it never fires for at most 193 elements. */
  method Qsort(a: array<Byte>, base: nat, nmemb: nat, size: nat, compar: (Block, Block) -> int) returns (ok: bool)
    requires Fits(a.Length, base, size, nmemb) && nmemb <= INT_MAX
    modifies a
    ensures multiset(Blocks(a[..], base, size, nmemb)) == multiset(Blocks(old(a[..]), base, size, nmemb))
    ensures ok && TotalPreorder(compar) ==> Sorted(Blocks(a[..], base, size, nmemb), compar)
    ensures nmemb <= 193 ==> ok
    ensures ok == NeverOver64(State(Blocks(old(a[..]), base, size, nmemb), [Segment(0, nmemb - 1)], true), compar)
    ensures Sorted(Blocks(old(a[..]), base, size, nmemb), compar) ==> ok
    ensures SameOutside(old(a[..]), a[..], base, size, nmemb)
  {
    ghost var bs := Blocks(a[..], base, size, nmemb);
    RunSorts(bs, compar);
    CompletesExactly(bs, compar);
    if Sorted(bs, compar) {
      SortedCompletes(bs, compar);
    }
    ok := QuickStub(a, base, size, nmemb, 0, nmemb - 1, compar);
  }
}
