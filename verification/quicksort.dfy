/** The algorithm of the iterative qsort of tis_stdlib.c, on sequences of elements.
    ByteSort runs it in place on the bytes of an array. */
module QuickSort {

  datatype Segment = Segment(x: int, y: int)  // qsort_pair_t: first and last index

  const CAPACITY: nat := 64  // slots of qsort_stack_t

  ghost predicate TotalPreorder<T(!new)>(cmp: (T, T) -> int) {
    && (forall a, b :: cmp(a, b) <= 0 || cmp(b, a) <= 0)
    && (forall a, b, c :: cmp(a, b) <= 0 && cmp(b, c) <= 0 ==> cmp(a, c) <= 0)
  }

  ghost predicate Sorted<T>(s: seq<T>, cmp: (T, T) -> int) {
    forall a, b :: 0 <= a < b < |s| ==> cmp(s[a], s[b]) <= 0
  }

  // ----- The functions of the program -----

  function Swap<T>(s: seq<T>, i: nat, j: nat): seq<T>
    requires i < |s| && j < |s|
  {
    s[i := s[j]][j := s[i]]
  }

  /** The loop of partition, from counters i and j on. */
  function Scan<T>(s: seq<T>, i: nat, j: nat, end: nat, cmp: (T, T) -> int): (r: (seq<T>, nat))
    requires i <= j <= end < |s|
    ensures |r.0| == |s| && i <= r.1 <= end
    decreases end - j
  {
    if j == end then (s, i)
    else if cmp(s[j], s[end]) <= 0 then Scan(Swap(s, i, j), i + 1, j + 1, end, cmp)
    else Scan(s, i, j + 1, end, cmp)
  }

  function Partition<T>(s: seq<T>, start: nat, end: nat, cmp: (T, T) -> int): (r: (seq<T>, nat))
    requires start <= end < |s|
    ensures |r.0| == |s| && start <= r.1 <= end
  {
    var (t, i) := Scan(s, start, start, end, cmp);
    (Swap(t, i, end), i)
  }

  /** ok is false once the assertion in push has fired; the run stops there. */
  datatype State<T> = State(s: seq<T>, stack: seq<Segment>, ok: bool) {

    predicate InBounds() {
      forall k :: 0 <= k < |stack| ==> 0 <= stack[k].x <= stack[k].y + 1 <= |s|
    }

    function Push(p: Segment): (r: State<T>)
    {
      if !ok || |stack| >= CAPACITY then this.(ok := false) else this.(stack := stack + [p])
    }

    /** One iteration of the loop of quick_stub. */
    function Step(cmp: (T, T) -> int): (r: State<T>)
      requires ok && stack != [] && InBounds()
      ensures |r.s| == |s| && r.InBounds()
    {
      var next := stack[|stack| - 1];
      var rest := stack[..|stack| - 1];
      if next.x > next.y then this.(stack := rest) else
        var (t, middle) := Partition(s, next.x, next.y, cmp);
        var popped := State(t, rest, true);
        var pushed := if middle - 1 > next.x then popped.Push(Segment(next.x, middle - 1)) else popped;
        if middle + 1 < next.y then pushed.Push(Segment(middle + 1, next.y)) else pushed
    }

    /** The loop of quick_stub, to its end or to the assertion. */
    function Run(cmp: (T, T) -> int): (r: State<T>)
      requires InBounds()
      decreases ok, Pending(stack)
    {
      if !ok || stack == [] then this else
        StepDecreases(this, cmp);
        Step(cmp).Run(cmp)
    }
  }

  function Start<T>(s: seq<T>): (r: State<T>)
    ensures r.InBounds()
  {
    State(s, [Segment(0, |s| - 1)], true)
  }

  // ----- Termination -----

  /** Twice the number of pending elements plus the number of pending segments. */
  function Pending(stack: seq<Segment>): nat {
    if stack == [] then 0 else
      var last := stack[|stack| - 1];
      Pending(stack[..|stack| - 1]) + (if last.x <= last.y then 2 * (last.y - last.x + 1) else 0) + 1
  }

  lemma PendingPush(stack: seq<Segment>, p: Segment)
    ensures Pending(stack + [p]) == Pending(stack) + (if p.x <= p.y then 2 * (p.y - p.x + 1) else 0) + 1
  {
    assert (stack + [p])[..|stack|] == stack;
  }

  lemma StepDecreases<T>(st: State<T>, cmp: (T, T) -> int)
    requires st.ok && st.stack != [] && st.InBounds()
    ensures var r := st.Step(cmp); r.ok ==> Pending(r.stack) < Pending(st.stack)
  {
    var next := st.stack[|st.stack| - 1];
    var rest := st.stack[..|st.stack| - 1];
    assert 0 <= next.x <= next.y + 1;
    if next.x <= next.y {
      var middle: int := Partition(st.s, next.x, next.y, cmp).1;
      var left, right := Segment(next.x, middle - 1), Segment(middle + 1, next.y);
      PendingPush(rest, left);
      PendingPush(rest, right);
      PendingPush(rest + [left], right);
    }
  }

  // ----- Partition -----

  ghost predicate OccursWithin<T>(s: seq<T>, lo: nat, hi: nat, x: T) {
    exists k :: lo <= k <= hi && k < |s| && s[k] == x
  }

  /** t rearranges s within lo..hi only. */
  ghost predicate Rearranged<T>(s: seq<T>, t: seq<T>, lo: nat, hi: nat) {
    && |s| == |t|
    && (forall k {:trigger t[k]} :: 0 <= k < |s| && !(lo <= k <= hi) ==> t[k] == s[k])
    && (forall k {:trigger t[k]} :: lo <= k <= hi < |s| ==> OccursWithin(s, lo, hi, t[k]))
    && multiset(t) == multiset(s)
  }

  lemma SwapRearranges<T>(s: seq<T>, i: nat, j: nat, lo: nat, hi: nat)
    requires lo <= i <= hi && lo <= j <= hi < |s|
    ensures Rearranged(s, Swap(s, i, j), lo, hi)
  {
    var t := Swap(s, i, j);
    forall k | lo <= k <= hi
      ensures OccursWithin(s, lo, hi, t[k])
    {
      var k' := if k == i then j else if k == j then i else k;
      assert t[k] == s[k'];
    }
  }

  lemma RearrangedTwice<T>(s: seq<T>, t: seq<T>, u: seq<T>, lo: nat, hi: nat)
    requires Rearranged(s, t, lo, hi) && Rearranged(t, u, lo, hi) && hi < |s|
    ensures Rearranged(s, u, lo, hi)
  {
    forall k | lo <= k <= hi
      ensures OccursWithin(s, lo, hi, u[k])
    {
      var k1 :| lo <= k1 <= hi && t[k1] == u[k];
      assert OccursWithin(s, lo, hi, t[k1]);
    }
  }

  lemma {:induction false} ScanRearranges<T>(s: seq<T>, i: nat, j: nat, start: nat, end: nat, cmp: (T, T) -> int)
    requires start <= i <= j <= end < |s|
    ensures Rearranged(s, Scan(s, i, j, end, cmp).0, start, end)
    decreases end - j
  {
    if j == end {
      SwapRearranges(s, i, i, start, end);
    } else if cmp(s[j], s[end]) <= 0 {
      SwapRearranges(s, i, j, start, end);
      ScanRearranges(Swap(s, i, j), i + 1, j + 1, start, end, cmp);
      RearrangedTwice(s, Swap(s, i, j), Scan(s, i, j, end, cmp).0, start, end);
    } else {
      ScanRearranges(s, i, j + 1, start, end, cmp);
    }
  }

  lemma {:induction false} ScanSeparates<T>(s: seq<T>, i: nat, j: nat, start: nat, end: nat, cmp: (T, T) -> int)
    requires start <= i <= j <= end < |s|
    requires forall k :: start <= k < i ==> cmp(s[k], s[end]) <= 0
    requires forall k :: i <= k < j ==> cmp(s[k], s[end]) > 0
    ensures var (t, m) := Scan(s, i, j, end, cmp);
            && t[end] == s[end]
            && (forall k :: start <= k < m ==> cmp(t[k], t[end]) <= 0)
            && (forall k :: m <= k < end ==> cmp(t[k], t[end]) > 0)
    decreases end - j
  {
    if j == end {
    } else if cmp(s[j], s[end]) <= 0 {
      ScanSeparates(Swap(s, i, j), i + 1, j + 1, start, end, cmp);
    } else {
      ScanSeparates(s, i, j + 1, start, end, cmp);
    }
  }

  /** partition rearranges its segment around the returned index: what is before
      is at most the element there, what is after is above it. */
  lemma PartitionSeparates<T>(s: seq<T>, start: nat, end: nat, cmp: (T, T) -> int)
    requires start <= end < |s|
    ensures var (t, m) := Partition(s, start, end, cmp);
            && Rearranged(s, t, start, end) && t[m] == s[end]
            && (forall k :: start <= k < m ==> cmp(t[k], t[m]) <= 0)
            && (forall k :: m < k <= end ==> cmp(t[k], t[m]) > 0)
  {
    ScanSeparates(s, start, start, start, end, cmp);
    ScanRearranges(s, start, start, start, end, cmp);
    var (u, m) := Scan(s, start, start, end, cmp);
    SwapRearranges(u, m, end, start, end);
    RearrangedTwice(s, u, Swap(u, m, end), start, end);
  }

  // ----- The stack: order, separation and capacity -----

  /** Pending segments have at least two elements each, lie in the array, and
      stand in increasing order with at least one placed element in between. */
  ghost predicate Spaced(stack: seq<Segment>, n: nat) {
    && (forall k :: 0 <= k < |stack| ==> 0 <= stack[k].x < stack[k].y < n)
    && (forall k, l :: 0 <= k < l < |stack| ==> stack[k].y + 1 < stack[l].x)
  }

  lemma {:induction false} SpacedNeedsRoom(stack: seq<Segment>, n: nat)
    requires Spaced(stack, n) && stack != []
    ensures 3 * |stack| - 1 <= stack[|stack| - 1].y + 1 <= n
    decreases |stack|
  {
    if |stack| == 1 {
    } else {
      var rest := stack[..|stack| - 1];
      SpacedNeedsRoom(rest, n);
      assert rest[|rest| - 1] == stack[|stack| - 2];
    }
  }

  /** The stack after an iteration on the segment next around middle, capacity aside. */
  function Pushed(rest: seq<Segment>, next: Segment, middle: int): seq<Segment> {
    rest
    + (if middle - 1 > next.x then [Segment(next.x, middle - 1)] else [])
    + (if middle + 1 < next.y then [Segment(middle + 1, next.y)] else [])
  }

  lemma StepShape<T>(st: State<T>, cmp: (T, T) -> int)
    requires st.ok && st.stack != [] && st.InBounds() && |st.stack| <= CAPACITY
    requires st.stack[|st.stack| - 1].x <= st.stack[|st.stack| - 1].y
    ensures var next := st.stack[|st.stack| - 1];
            var (t, middle) := Partition(st.s, next.x, next.y, cmp);
            var p := Pushed(st.stack[..|st.stack| - 1], next, middle);
            if |p| <= CAPACITY then st.Step(cmp) == State(t, p, true)
            else st.Step(cmp).s == t && !st.Step(cmp).ok
  {
  }

  lemma SpacedPushed(stack: seq<Segment>, middle: int, n: nat)
    requires Spaced(stack, n) && stack != []
    requires stack[|stack| - 1].x <= middle <= stack[|stack| - 1].y
    ensures Spaced(Pushed(stack[..|stack| - 1], stack[|stack| - 1], middle), n)
  {
  }

  ghost predicate Together(a: nat, b: nat, stack: seq<Segment>) {
    exists k :: 0 <= k < |stack| && stack[k].x <= a && b <= stack[k].y
  }

  /** Two elements that are out of order belong to the same pending segment. */
  ghost predicate Settled<T>(s: seq<T>, stack: seq<Segment>, cmp: (T, T) -> int) {
    forall a, b :: 0 <= a < b < |s| ==> cmp(s[a], s[b]) <= 0 || Together(a, b, stack)
  }

  /** What holds at every test of the loop of quick_stub. */
  ghost predicate Inv<T(!new)>(st: State<T>, s: seq<T>, cmp: (T, T) -> int) {
    && multiset(st.s) == multiset(s) && |st.s| == |s|
    && |st.stack| <= CAPACITY
    && (st.ok ==> Spaced(st.stack, |s|) || (|s| <= 1 && st.stack == [Segment(0, |s| - 1)]))
    && (st.ok && TotalPreorder(cmp) ==> Settled(st.s, st.stack, cmp))
  }

  /** Where partition found the element it left at index k. */
  lemma Origin<T>(s: seq<T>, t: seq<T>, lo: nat, hi: nat, k: nat) returns (k': nat)
    requires Rearranged(s, t, lo, hi) && k < |s| && hi < |s|
    ensures k' < |s| && t[k] == s[k']
    ensures lo <= k <= hi ==> lo <= k' <= hi
    ensures !(lo <= k <= hi) ==> k' == k
  {
    if lo <= k <= hi {
      assert OccursWithin(s, lo, hi, t[k]);
      k' :| lo <= k' <= hi && s[k'] == t[k];
    } else {
      k' := k;
    }
  }

  lemma SettledInside<T(!new)>(t: seq<T>, rest: seq<Segment>, next: Segment, middle: int, cmp: (T, T) -> int, a: nat, b: nat)
    requires TotalPreorder(cmp)
    requires 0 <= next.x <= a < b <= next.y < |t| && next.x <= middle <= next.y
    requires forall k :: next.x <= k < middle ==> cmp(t[k], t[middle]) <= 0
    requires forall k :: middle < k <= next.y ==> cmp(t[k], t[middle]) > 0
    ensures cmp(t[a], t[b]) <= 0 || Together(a, b, Pushed(rest, next, middle))
  {
    var p := Pushed(rest, next, middle);
    if b < middle {
      assert p[|rest|] == Segment(next.x, middle - 1);
    } else if middle < a {
      assert p[|p| - 1] == Segment(middle + 1, next.y);
    } else {
      assert a < middle ==> cmp(t[a], t[middle]) <= 0;
      assert middle < b ==> cmp(t[middle], t[b]) <= 0;
    }
  }

  lemma SettledOutside<T(!new)>(s: seq<T>, stack: seq<Segment>, t: seq<T>, middle: int, cmp: (T, T) -> int, a: nat, b: nat)
    requires Spaced(stack, |s|) && stack != [] && Settled(s, stack, cmp)
    requires var next := stack[|stack| - 1];
             && Rearranged(s, t, next.x, next.y) && next.x <= middle <= next.y
             && a < b < |s| && !(next.x <= a && b <= next.y)
    ensures cmp(t[a], t[b]) <= 0 || Together(a, b, Pushed(stack[..|stack| - 1], stack[|stack| - 1], middle))
  {
    var next := stack[|stack| - 1];
    var a' := Origin(s, t, next.x, next.y, a);
    var b' := Origin(s, t, next.x, next.y, b);
    if cmp(s[a'], s[b']) > 0 {
      var k :| 0 <= k < |stack| && stack[k].x <= a' && b' <= stack[k].y;
      assert k < |stack| - 1;
      assert stack[k].y + 1 < next.x;
      assert Pushed(stack[..|stack| - 1], next, middle)[k] == stack[k];
    }
  }

  lemma SettledStep<T(!new)>(s: seq<T>, stack: seq<Segment>, cmp: (T, T) -> int)
    requires Spaced(stack, |s|) && stack != []
    requires Settled(s, stack, cmp) && TotalPreorder(cmp)
    ensures var next := stack[|stack| - 1];
            var (t, middle) := Partition(s, next.x, next.y, cmp);
            Settled(t, Pushed(stack[..|stack| - 1], next, middle), cmp)
  {
    var next := stack[|stack| - 1];
    var rest := stack[..|stack| - 1];
    var (t, middle) := Partition(s, next.x, next.y, cmp);
    PartitionSeparates(s, next.x, next.y, cmp);
    forall a: nat, b: nat | a < b < |t|
      ensures cmp(t[a], t[b]) <= 0 || Together(a, b, Pushed(rest, next, middle))
    {
      if next.x <= a && b <= next.y {
        SettledInside(t, rest, next, middle, cmp, a, b);
      } else {
        SettledOutside(s, stack, t, middle, cmp, a, b);
      }
    }
  }

  /** The whole stack fits, up to 3 * 64 + 1 elements. */
  lemma SpacedFits(stack: seq<Segment>, n: nat)
    requires Spaced(stack, n)
    ensures |stack| <= (n + 1) / 3
  {
    if stack != [] {
      SpacedNeedsRoom(stack, n);
    }
  }

  lemma InvStepSmall<T(!new)>(st: State<T>, s: seq<T>, cmp: (T, T) -> int)
    requires Inv(st, s, cmp) && st.ok && |s| <= 1 && st.stack == [Segment(0, |s| - 1)]
    ensures st.Step(cmp).ok && st.Step(cmp).stack == [] && Inv(st.Step(cmp), s, cmp)
  {
    assert st.stack[..0] == [];
    if |s| == 1 {
      PartitionSeparates(st.s, 0, 0, cmp);
      assert Partition(st.s, 0, 0, cmp).0 == st.s;
    }
  }

  lemma InvStepSpaced<T(!new)>(st: State<T>, s: seq<T>, cmp: (T, T) -> int)
    requires Inv(st, s, cmp) && st.ok && st.stack != [] && Spaced(st.stack, |s|)
    ensures Inv(st.Step(cmp), s, cmp)
    ensures |s| <= 3 * CAPACITY + 1 ==> st.Step(cmp).ok
  {
    var next := st.stack[|st.stack| - 1];
    var (t, middle) := Partition(st.s, next.x, next.y, cmp);
    var p := Pushed(st.stack[..|st.stack| - 1], next, middle);
    assert multiset(t) == multiset(st.s) by {
      PartitionSeparates(st.s, next.x, next.y, cmp);
    }
    assert Spaced(p, |s|) && |p| <= (|s| + 1) / 3 by {
      SpacedPushed(st.stack, middle, |s|);
      SpacedFits(p, |s|);
    }
    assert TotalPreorder(cmp) ==> Settled(t, p, cmp) by {
      if TotalPreorder(cmp) {
        SettledStep(st.s, st.stack, cmp);
      }
    }
    StepShape(st, cmp);
    StepStackWithinCapacity(st, cmp);
  }

  lemma StepStackWithinCapacity<T>(st: State<T>, cmp: (T, T) -> int)
    requires st.ok && st.stack != [] && st.InBounds() && |st.stack| <= CAPACITY
    ensures |st.Step(cmp).stack| <= CAPACITY
  {
  }

  lemma InvStep<T(!new)>(st: State<T>, s: seq<T>, cmp: (T, T) -> int)
    requires Inv(st, s, cmp) && st.ok && st.stack != [] && st.InBounds()
    ensures Inv(st.Step(cmp), s, cmp)
    ensures |s| <= 3 * CAPACITY + 1 ==> st.Step(cmp).ok
  {
    if Spaced(st.stack, |s|) {
      InvStepSpaced(st, s, cmp);
    } else {
      InvStepSmall(st, s, cmp);
    }
  }

  lemma InvStart<T(!new)>(s: seq<T>, cmp: (T, T) -> int)
    ensures Inv(Start(s), s, cmp)
  {
    var stack := Start(s).stack;
    forall a: nat, b: nat | a < b < |s|
      ensures Together(a, b, stack)
    {
      assert stack[0].x <= a && b <= stack[0].y;
    }
  }

  // ----- Main results -----

  /** The state after k iterations, or earlier if the loop has ended. */
  ghost function After<T(!new)>(k: nat, s: seq<T>, cmp: (T, T) -> int): (st: State<T>)
    ensures st.InBounds() && Inv(st, s, cmp)
    ensures |s| <= 3 * CAPACITY + 1 ==> st.ok
  {
    InvStart(s, cmp);
    if k == 0 then Start(s) else
      var st := After(k - 1, s, cmp);
      if !st.ok || st.stack == [] then st else
        InvStep(st, s, cmp);
        st.Step(cmp)
  }

  /** In every reachable state the pending segments are apart and few. */
  lemma StackBound<T(!new)>(k: nat, s: seq<T>, cmp: (T, T) -> int)
    ensures var st := After(k, s, cmp);
            st.ok ==> |st.stack| <= if |s| <= 4 then 1 else (|s| + 1) / 3
  {
    var st := After(k, s, cmp);
    if st.ok && Spaced(st.stack, |s|) {
      SpacedFits(st.stack, |s|);
    }
  }

  lemma {:induction false} RunKeepsInv<T(!new)>(st: State<T>, s: seq<T>, cmp: (T, T) -> int)
    requires st.InBounds() && Inv(st, s, cmp) && (|s| <= 3 * CAPACITY + 1 ==> st.ok)
    ensures var r := st.Run(cmp);
            && Inv(r, s, cmp) && (r.ok ==> r.stack == [])
            && (|s| <= 3 * CAPACITY + 1 ==> r.ok)
    decreases st.ok, Pending(st.stack)
  {
    if !st.ok || st.stack == [] {
    } else {
      StepDecreases(st, cmp);
      InvStep(st, s, cmp);
      RunKeepsInv(st.Step(cmp), s, cmp);
    }
  }

  /** Every run that does not hit the assertion sorts, and none does up to 193 elements. */
  lemma RunSorts<T(!new)>(s: seq<T>, cmp: (T, T) -> int)
    ensures var r := Start(s).Run(cmp);
            && multiset(r.s) == multiset(s)
            && (r.ok && TotalPreorder(cmp) ==> Sorted(r.s, cmp))
            && (|s| <= 3 * CAPACITY + 1 ==> r.ok)
  {
    InvStart(s, cmp);
    RunKeepsInv(Start(s), s, cmp);
    InvAtEnd(Start(s).Run(cmp), s, cmp);
    hide Inv, Sorted, TotalPreorder;
  }

  lemma InvAtEnd<T(!new)>(r: State<T>, s: seq<T>, cmp: (T, T) -> int)
    requires Inv(r, s, cmp) && (r.ok ==> r.stack == [])
    ensures multiset(r.s) == multiset(s) && (r.ok && TotalPreorder(cmp) ==> Sorted(r.s, cmp))
  {
    hide TotalPreorder;
  }

  // ----- Exactly which runs complete -----

  ghost predicate Completes<T(!new)>(s: seq<T>, cmp: (T, T) -> int) {
    Start(s).Run(cmp).ok
  }

  /** The state after k iterations on a stack without a capacity, or earlier if the
      stack is empty. */
  function Unbounded<T>(k: nat, st: State<T>, cmp: (T, T) -> int): (r: State<T>)
    requires st.InBounds()
    ensures r.InBounds()
    decreases k
  {
    if k == 0 || st.stack == [] then st else Unbounded(k - 1, UnboundedStep(st, cmp), cmp)
  }

  function UnboundedStep<T>(st: State<T>, cmp: (T, T) -> int): (r: State<T>)
    requires st.InBounds() && st.stack != []
    ensures r.InBounds()
  {
    var next := st.stack[|st.stack| - 1];
    var rest := st.stack[..|st.stack| - 1];
    if next.x > next.y then State(st.s, rest, true) else
      var (t, middle) := Partition(st.s, next.x, next.y, cmp);
      State(t, Pushed(rest, next, middle), true)
  }

  /** No more than 64 segments are ever pending on a stack without a capacity. */
  ghost predicate NeverOver64<T(!new)>(st: State<T>, cmp: (T, T) -> int)
    requires st.InBounds()
  {
    forall k: nat :: |Unbounded(k, st, cmp).stack| <= 64
  }

  lemma BoundedStep<T>(st: State<T>, cmp: (T, T) -> int)
    requires st.ok && st.stack != [] && st.InBounds() && |st.stack| <= CAPACITY
    ensures var r := UnboundedStep(st, cmp);
            if |r.stack| <= CAPACITY then st.Step(cmp) == r else !st.Step(cmp).ok
  {
    if st.stack[|st.stack| - 1].x <= st.stack[|st.stack| - 1].y {
      StepShape(st, cmp);
    }
  }

  lemma NeverOverStep<T(!new)>(st: State<T>, cmp: (T, T) -> int)
    requires st.InBounds() && st.stack != []
    ensures NeverOver64(st, cmp) <==> |st.stack| <= 64 && NeverOver64(UnboundedStep(st, cmp), cmp)
  {
    var r := UnboundedStep(st, cmp);
    hide UnboundedStep;
    forall k: nat
      ensures Unbounded(k + 1, st, cmp) == Unbounded(k, r, cmp)
    {
    }
    if NeverOver64(st, cmp) {
      assert |Unbounded(0, st, cmp).stack| <= 64;
      forall k: nat
        ensures |Unbounded(k, r, cmp).stack| <= 64
      {
        assert Unbounded(k + 1, st, cmp) == Unbounded(k, r, cmp);
      }
    }
    if |st.stack| <= 64 && NeverOver64(r, cmp) {
      forall k: nat
        ensures |Unbounded(k, st, cmp).stack| <= 64
      {
        if k > 0 {
          assert Unbounded(k - 1 + 1, st, cmp) == Unbounded(k - 1, r, cmp);
        }
      }
    }
  }

  lemma {:induction false} RunCompletes<T(!new)>(st: State<T>, cmp: (T, T) -> int)
    requires st.ok && st.InBounds() && |st.stack| <= CAPACITY
    ensures st.Run(cmp).ok <==> NeverOver64(st, cmp)
    decreases Pending(st.stack)
  {
    if st.stack == [] {
      assert forall k: nat :: Unbounded(k, st, cmp) == st;
    } else {
      BoundedStep(st, cmp);
      NeverOverStep(st, cmp);
      var r := UnboundedStep(st, cmp);
      if |r.stack| <= CAPACITY {
        StepDecreases(st, cmp);
        RunCompletes(r, cmp);
      } else {
        assert |Unbounded(0, r, cmp).stack| > 64;
      }
    }
  }

  /** A run completes exactly when, on a stack without a capacity, it never holds more
      than 64 segments. */
  lemma CompletesExactly<T(!new)>(s: seq<T>, cmp: (T, T) -> int)
    ensures Completes(s, cmp) <==> NeverOver64(State(s, [Segment(0, |s| - 1)], true), cmp)
  {
    RunCompletes(Start(s), cmp);
  }

  lemma {:induction false} ScanBelow<T(!new)>(s: seq<T>, i: nat, end: nat, cmp: (T, T) -> int)
    requires i <= end < |s| && Sorted(s, cmp)
    ensures Scan(s, i, i, end, cmp) == (s, end)
    decreases end - i
  {
    if i == end {
    } else {
      assert Swap(s, i, i) == s;
      ScanBelow(s, i + 1, end, cmp);
    }
  }

  lemma {:induction false} SortedNeverOver<T(!new)>(s: seq<T>, end: nat, cmp: (T, T) -> int)
    requires end < |s| && Sorted(s, cmp)
    ensures NeverOver64(State(s, [Segment(0, end)], true), cmp)
    decreases end
  {
    var st := State(s, [Segment(0, end)], true);
    NeverOverStep(st, cmp);
    ScanBelow(s, 0, end, cmp);
    assert Swap(s, end, end) == s;
    assert st.stack[..0] == [];
    var r := UnboundedStep(st, cmp);
    if end <= 1 {
      assert r == State(s, [], true);
      assert forall k: nat :: Unbounded(k, r, cmp) == r;
    } else {
      assert r == State(s, [Segment(0, end - 1)], true);
      SortedNeverOver(s, end - 1, cmp);
    }
  }

  /** A sorted array of any length is sorted again without reaching the assertion. */
  lemma SortedCompletes<T(!new)>(s: seq<T>, cmp: (T, T) -> int)
    requires Sorted(s, cmp)
    ensures Completes(s, cmp)
  {
    if s == [] {
      RunSorts(s, cmp);
    } else {
      CompletesExactly(s, cmp);
      SortedNeverOver(s, |s| - 1, cmp);
    }
  }

  // ----- The 64 slots are not enough for every array -----

  /** The comparator of an ascending sort by a number that each element has. */
  function Ascending<T(!new)>(val: T -> int): (T, T) -> int {
    (a, b) => if val(a) < val(b) then -1 else if val(a) == val(b) then 0 else 1
  }

  /** The i-th number of an array on which each pivot splits off just two elements on its left. */
  function Stair(n: nat, i: nat): (v: nat)
    requires i < n
    ensures v <= n + 2
  {
    if i == n - 1 then 2 else if i % 3 == 2 then i + 3 else i
  }

  ghost predicate IsStaircase<T>(s: seq<T>, val: T -> int) {
    forall i: nat :: i < |s| ==> val(s[i]) == Stair(|s|, i)
  }

  /** After k iterations: k pairs pending, and the rest of the array behind them. */
  ghost predicate OnStaircase<T>(st: State<T>, val: T -> int, n: nat, k: nat) {
    && st.ok && |st.s| == n && |st.stack| == k + 1 && 3 * k + 2 < n
    && (forall j :: 0 <= j < k ==> st.stack[j] == Segment(3 * j, 3 * j + 1))
    && st.stack[k] == Segment(3 * k, n - 1)
    && val(st.s[n - 1]) == 3 * k + 2
    && (forall i: nat :: 3 * k <= i < n - 1 ==> val(st.s[i]) == Stair(n, i))
  }

  lemma {:induction false} ScanAbove<T(!new)>(s: seq<T>, val: T -> int, i: nat, j: nat, end: nat)
    requires i <= j <= end < |s|
    requires forall k :: j <= k < end ==> val(s[k]) > val(s[end])
    ensures Scan(s, i, j, end, Ascending(val)) == (s, i)
    decreases end - j
  {
    if j == end {
    } else {
      ScanAbove(s, val, i, j + 1, end);
    }
  }

  lemma StaircasePartition<T(!new)>(st: State<T>, val: T -> int, n: nat, k: nat)
    requires OnStaircase(st, val, n, k)
    ensures Partition(st.s, 3 * k, n - 1, Ascending(val)) == (Swap(st.s, 3 * k + 2, n - 1), 3 * k + 2)
  {
    var s, x, end, cmp := st.s, 3 * k, n - 1, Ascending(val);
    ScanAbove(s, val, x + 2, x + 2, end);
    assert Swap(s, x, x) == s == Swap(s, x + 1, x + 1);
    assert Scan(s, x + 1, x + 1, end, cmp) == Scan(s, x + 2, x + 2, end, cmp);
    assert Scan(s, x, x, end, cmp) == Scan(s, x + 1, x + 1, end, cmp);
  }

  lemma StaircaseStep<T(!new)>(st: State<T>, val: T -> int, n: nat, k: nat)
    requires OnStaircase(st, val, n, k) && k < CAPACITY && st.InBounds() && 3 * k + 5 <= n
    ensures k + 1 < CAPACITY && 3 * k + 5 < n ==> OnStaircase(st.Step(Ascending(val)), val, n, k + 1)
    ensures k + 1 == CAPACITY ==> !st.Step(Ascending(val)).ok
  {
    StaircasePartition(st, val, n, k);
    var rest := st.stack[..k];
    var p := Pushed(rest, st.stack[k], 3 * k + 2);
    assert p == rest + [Segment(3 * k, 3 * k + 1)] + [Segment(3 * k + 3, n - 1)];
    StepShape(st, Ascending(val));
  }

  lemma {:induction false} StaircaseOverflows<T(!new)>(st: State<T>, val: T -> int, n: nat, k: nat)
    requires OnStaircase(st, val, n, k) && k < CAPACITY && st.InBounds() && n >= 3 * CAPACITY + 2
    ensures !st.Run(Ascending(val)).ok
    decreases CAPACITY - k
  {
    StaircaseStep(st, val, n, k);
    if k + 1 == CAPACITY {
    } else {
      StaircaseOverflows(st.Step(Ascending(val)), val, n, k + 1);
    }
  }

  /** Every array of 194 elements or more whose numbers are a staircase hits the assertion. */
  lemma StaircaseFails<T(!new)>(s: seq<T>, val: T -> int)
    requires |s| >= 3 * CAPACITY + 2 && IsStaircase(s, val)
    ensures TotalPreorder(Ascending(val)) && !Completes(s, Ascending(val))
    ensures !NeverOver64(State(s, [Segment(0, |s| - 1)], true), Ascending(val))
  {
    StaircaseOverflows(Start(s), val, |s|, 0);
    CompletesExactly(s, Ascending(val));
  }

  /** 64 slots are enough for every array of n elements exactly when n is at most 193. */
  lemma CapacityIsExact(n: nat)
    ensures n <= 193 ==> forall s: seq<int>, cmp :: |s| == n ==> Completes(s, cmp)
    ensures n >= 194 ==> exists s: seq<int>, cmp :: |s| == n && TotalPreorder(cmp) && !Completes(s, cmp)
  {
    if n <= 193 {
      forall s: seq<int>, cmp: (int, int) -> int | |s| == n
        ensures Completes(s, cmp)
      {
        RunSorts(s, cmp);
      }
    } else {
      var s := seq(n, i requires 0 <= i < n => Stair(n, i) as int);
      StaircaseFails(s, x => x);
    }
  }
}
