/** Runs of the macros of sys/queue.h over any number of queues, as runs of
    operations on sequences. */
module QueueRuns {
  import opened Links

  /** A macro call on one queue.  Each family has its own choice of these. */
  datatype Call =
    | CallInit
    | CallInsertHead(elm: Link)
    | CallInsertTail(elm: Link)
    | CallInsertAfter(listelm: Link, elm: Link)
    | CallInsertBefore(listelm: Link, elm: Link)
    | CallRemoveHead
    | CallRemove(old_elm: Link)
  {
    /** The entries the call brings in. */
    ghost function New(): set<Link> {
      if CallInit? || CallRemoveHead? || CallRemove? then {} else {elm}
    }

    /** What the macro asks of the queue q it is called on. */
    ghost predicate Fits(q: seq<Link>) {
      && (CallInsertAfter? || CallInsertBefore? ==> listelm in q)
      && (CallRemoveHead? ==> q != [])
      && (CallRemove? ==> old_elm in q)
    }

    /** The sequence operation the macro stands for. */
    ghost function Meaning(q: seq<Link>): (r: seq<Link>)
      requires Fits(q)
      ensures forall x :: x in r ==> x in q || x in New()
    {
      match this
      case CallInit => []
      case CallInsertHead(elm) => [elm] + q
      case CallInsertTail(elm) => q + [elm]
      case CallInsertAfter(listelm, elm) => InsertedAt(q, IndexOf(q, listelm) + 1, elm)
      case CallInsertBefore(listelm, elm) => InsertedAt(q, IndexOf(q, listelm), elm)
      case CallRemoveHead => q[1..]
      case CallRemove(elm) => RemovedAt(q, IndexOf(q, elm))
    }
  }

  /** A step of a program that uses several queues, named by position. */
  datatype Op = One(i: nat, call: Call) | Join(i: nat, j: nat)

  type Queues = seq<seq<Link>>

  /** The queues with heads hs and entries qs are made of objects of the pool, and
      no object is used twice. */
  ghost predicate Apart(hs: seq<Link>, qs: Queues, pool: set<Link>) {
    && |hs| == |qs|
    && (forall i :: 0 <= i < |hs| ==> Nodes(hs[i], qs[i]) <= pool && hs[i] !in qs[i])
    && (forall i, j :: 0 <= i < j < |hs| ==> Nodes(hs[i], qs[i]) !! Nodes(hs[j], qs[j]))
  }

  /** What the macros ask of their caller: entries to insert are in no queue,
      entries named are in the queue, and a queue is not joined to itself. */
  ghost predicate Enabled(op: Op, hs: seq<Link>, qs: Queues)
    requires |hs| == |qs|
  {
    op.i < |qs| &&
    match op
    case One(i, call) =>
      && call.Fits(qs[i])
      && forall k :: 0 <= k < |hs| ==> call.New() !! Nodes(hs[k], qs[k])
    case Join(i, j) => j < |qs| && i != j
  }

  ghost function Meaning(op: Op, hs: seq<Link>, qs: Queues): (r: Queues)
    requires |hs| == |qs| && Enabled(op, hs, qs)
    ensures |r| == |qs|
  {
    match op
    case One(i, call) => qs[i := call.Meaning(qs[i])]
    case Join(i, j) => qs[i := qs[i] + qs[j]][j := []]
  }

  ghost predicate AllEnabled(ops: seq<Op>, hs: seq<Link>, qs: Queues)
    requires |hs| == |qs|
    decreases |ops|
  {
    ops != [] ==> Enabled(ops[0], hs, qs) && AllEnabled(ops[1..], hs, Meaning(ops[0], hs, qs))
  }

  ghost function MeaningOfAll(ops: seq<Op>, hs: seq<Link>, qs: Queues): (r: Queues)
    requires |hs| == |qs| && AllEnabled(ops, hs, qs)
    ensures |r| == |qs|
    decreases |ops|
  {
    if ops == [] then qs else MeaningOfAll(ops[1..], hs, Meaning(ops[0], hs, qs))
  }

  lemma CallKeepsApart(i: nat, call: Call, hs: seq<Link>, qs: Queues, pool: set<Link>)
    requires Apart(hs, qs, pool) && Enabled(One(i, call), hs, qs) && call.New() <= pool
    ensures Apart(hs, qs[i := call.Meaning(qs[i])], pool)
  {
    ghost var q := call.Meaning(qs[i]);
    assert Nodes(hs[i], q) <= Nodes(hs[i], qs[i]) + call.New();
  }

  lemma JoinKeepsApart(i: nat, j: nat, hs: seq<Link>, qs: Queues, pool: set<Link>)
    requires Apart(hs, qs, pool) && Enabled(Join(i, j), hs, qs)
    ensures Apart(hs, qs[i := qs[i] + qs[j]][j := []], pool)
  {
    ghost var rs := qs[i := qs[i] + qs[j]][j := []];
    assert Nodes(hs[i], rs[i]) <= Nodes(hs[i], qs[i]) + Nodes(hs[j], qs[j]) - {hs[j]};
    assert Nodes(hs[j], rs[j]) == {hs[j]};
    forall k, l | 0 <= k < l < |hs|
      ensures Nodes(hs[k], rs[k]) !! Nodes(hs[l], rs[l])
    {
      assert k != i && k != j ==> rs[k] == qs[k];
      assert l != i && l != j ==> rs[l] == qs[l];
    }
  }

  // ----- What the calls and runs come to -----

  lemma RunCons(op: Op, ops: seq<Op>, hs: seq<Link>, qs: Queues)
    requires |hs| == |qs|
    ensures AllEnabled([op] + ops, hs, qs) <==> Enabled(op, hs, qs) && AllEnabled(ops, hs, Meaning(op, hs, qs))
    ensures AllEnabled([op] + ops, hs, qs) ==>
              MeaningOfAll([op] + ops, hs, qs) == MeaningOfAll(ops, hs, Meaning(op, hs, qs))
  {
    hide Enabled, Meaning;
    assert ([op] + ops)[1..] == ops;
  }

  lemma RunOfNone(hs: seq<Link>, qs: Queues)
    requires |hs| == |qs|
    ensures AllEnabled([], hs, qs) && MeaningOfAll([], hs, qs) == qs
  {
  }

  lemma RunOfOne(op: Op, hs: seq<Link>, qs: Queues)
    requires |hs| == |qs| && Enabled(op, hs, qs)
    ensures AllEnabled([op], hs, qs) && MeaningOfAll([op], hs, qs) == Meaning(op, hs, qs)
  {
    hide Enabled, Meaning, AllEnabled, MeaningOfAll;
    RunCons(op, [], hs, qs);
    RunOfNone(hs, Meaning(op, hs, qs));
    assert [op] + [] == [op];
  }

  lemma IndexOfSplit(a: seq<Link>, e: Link, b: seq<Link>)
    requires e !in a && e !in b
    ensures e in a + [e] + b && IndexOf(a + [e] + b, e) == |a|
  {
    var q := a + [e] + b;
    assert q[|a|] == e;
    assert forall j :: 0 <= j < |a| ==> q[j] == a[j] && a[j] in a;
    assert forall j :: |a| < j < |q| ==> q[j] == b[j - |a| - 1] && b[j - |a| - 1] in b;
  }

  lemma InsertedBetween(a: seq<Link>, e: Link, b: seq<Link>)
    ensures InsertedAt(a + b, |a|, e) == a + [e] + b
  {
  }

  lemma RemovedBetween(a: seq<Link>, e: Link, b: seq<Link>)
    ensures RemovedAt(a + [e] + b, |a|) == a + b
  {
  }

  /** An insertion next to an entry leaves the new entry directly behind or before it. */
  lemma InsertsNextTo(a: seq<Link>, l: Link, b: seq<Link>, e: Link)
    requires l !in a && l !in b
    ensures var q := a + [l] + b;
            && CallInsertAfter(l, e).Fits(q) && CallInsertAfter(l, e).Meaning(q) == a + [l] + [e] + b
            && CallInsertBefore(l, e).Fits(q) && CallInsertBefore(l, e).Meaning(q) == a + [e] + [l] + b
  {
    IndexOfSplit(a, l, b);
    hide IndexOf, InsertedAt;
    InsertedBetween(a + [l], e, b);
    InsertedBetween(a, e, [l] + b);
    assert a + [l] + b == a + ([l] + b) && a + [e] + ([l] + b) == a + [e] + [l] + b;
  }

  lemma RemovesOnly(a: seq<Link>, e: Link, b: seq<Link>)
    requires e !in a && e !in b
    ensures CallRemove(e).Fits(a + [e] + b) && CallRemove(e).Meaning(a + [e] + b) == a + b
    ensures CallRemoveHead.Fits([e] + b) && CallRemoveHead.Meaning([e] + b) == b
  {
    IndexOfSplit(a, e, b);
    hide IndexOf, RemovedAt;
    RemovedBetween(a, e, b);
  }

  /** Where a call inserts. */
  lemma InsertionPoint(call: Call, e: Link, q: seq<Link>) returns (k: nat)
    requires call.Fits(q) && call.New() == {e}
    ensures k <= |q| && call.Meaning(q) == q[..k] + [e] + q[k..]
  {
    assert e in call.New();
    k := if call.CallInsertTail? then |q|
    else if call.CallInsertAfter? then IndexOf(q, call.listelm) + 1
    else if call.CallInsertBefore? then IndexOf(q, call.listelm)
    else 0;
    InsertedBetween(q[..k], e, q[k..]);
    assert q[..k] + q[k..] == q;
  }

  /** Every call that inserts e, on whichever queue and next to whichever entry, is
      undone by the removal of e. */
  lemma InsertThenRemove(i: nat, call: Call, e: Link, hs: seq<Link>, qs: Queues)
    requires |hs| == |qs| && Enabled(One(i, call), hs, qs) && call.New() == {e}
    ensures var ops := [One(i, call)] + [One(i, CallRemove(e))];
            AllEnabled(ops, hs, qs) && MeaningOfAll(ops, hs, qs) == qs
  {
    var q := qs[i];
    assert e !in q by {
      assert e in call.New() && call.New() !! Nodes(hs[i], qs[i]);
    }
    var k := InsertionPoint(call, e, q);
    RemovesOnly(q[..k], e, q[k..]);
    InsertedThenRemoved(i, call, e, hs, qs, q[..k], q[k..]);
  }

  lemma InsertedThenRemoved(i: nat, call: Call, e: Link, hs: seq<Link>, qs: Queues, a: seq<Link>, b: seq<Link>)
    requires |hs| == |qs| && Enabled(One(i, call), hs, qs)
    requires qs[i] == a + b && call.Meaning(qs[i]) == a + [e] + b
    requires CallRemove(e).Fits(a + [e] + b) && CallRemove(e).Meaning(a + [e] + b) == a + b
    ensures var ops := [One(i, call)] + [One(i, CallRemove(e))];
            AllEnabled(ops, hs, qs) && MeaningOfAll(ops, hs, qs) == qs
  {
    hide AllEnabled, MeaningOfAll, Nodes;
    var rs := qs[i := a + [e] + b];
    assert Meaning(One(i, call), hs, qs) == rs;
    RunCons(One(i, call), [One(i, CallRemove(e))], hs, qs);
    assert Enabled(One(i, CallRemove(e)), hs, rs);
    RunOfOne(One(i, CallRemove(e)), hs, rs);
    assert rs[i := a + b] == qs;
  }

  function TailInserts(i: nat, es: seq<Link>): seq<Op> {
    if es == [] then [] else [One(i, CallInsertTail(es[0]))] + TailInserts(i, es[1..])
  }

  function HeadInserts(i: nat, es: seq<Link>): seq<Op> {
    if es == [] then [] else [One(i, CallInsertHead(es[0]))] + HeadInserts(i, es[1..])
  }

  function HeadRemovals(i: nat, n: nat): seq<Op> {
    if n == 0 then [] else [One(i, CallRemoveHead)] + HeadRemovals(i, n - 1)
  }

  /** Insertions at the tail leave the entries in the order of the calls. */
  lemma {:induction false} TailInsertsAppend(i: nat, es: seq<Link>, hs: seq<Link>, qs: Queues)
    requires |hs| == |qs| && i < |qs| && AllEnabled(TailInserts(i, es), hs, qs)
    ensures MeaningOfAll(TailInserts(i, es), hs, qs) == qs[i := qs[i] + es]
    decreases |es|
  {
    hide AllEnabled, MeaningOfAll, Enabled;
    if es == [] {
      RunOfNone(hs, qs);
      assert qs[i] + es == qs[i];
    } else {
      var op, rest := One(i, CallInsertTail(es[0])), TailInserts(i, es[1..]);
      RunCons(op, rest, hs, qs);
      var rs := qs[i := qs[i] + [es[0]]];
      assert Meaning(op, hs, qs) == rs;
      TailInsertsAppend(i, es[1..], hs, rs);
      assert rs[i] + es[1..] == qs[i] + es;
    }
  }

  /** Insertions at the head leave them in the opposite order. */
  lemma {:induction false} HeadInsertsReverse(i: nat, es: seq<Link>, hs: seq<Link>, qs: Queues)
    requires |hs| == |qs| && i < |qs| && AllEnabled(HeadInserts(i, es), hs, qs)
    ensures MeaningOfAll(HeadInserts(i, es), hs, qs) == qs[i := Reversed(es) + qs[i]]
    decreases |es|
  {
    hide AllEnabled, MeaningOfAll, Enabled;
    if es == [] {
      RunOfNone(hs, qs);
      assert Reversed(es) + qs[i] == qs[i];
    } else {
      var op, rest := One(i, CallInsertHead(es[0])), HeadInserts(i, es[1..]);
      RunCons(op, rest, hs, qs);
      var rs := qs[i := [es[0]] + qs[i]];
      assert Meaning(op, hs, qs) == rs;
      HeadInsertsReverse(i, es[1..], hs, rs);
      assert Reversed(es[1..]) + rs[i] == Reversed(es) + qs[i];
    }
  }

  /** Entries leave at the head in the order in which they stand. */
  lemma {:induction false} HeadRemovalsDrop(i: nat, n: nat, hs: seq<Link>, qs: Queues)
    requires |hs| == |qs| && i < |qs| && n <= |qs[i]|
    ensures AllEnabled(HeadRemovals(i, n), hs, qs)
    ensures MeaningOfAll(HeadRemovals(i, n), hs, qs) == qs[i := qs[i][n..]]
    decreases n
  {
    hide AllEnabled, MeaningOfAll, Nodes;
    if n == 0 {
      RunOfNone(hs, qs);
      assert qs[i][0..] == qs[i];
    } else {
      var op, rest := One(i, CallRemoveHead), HeadRemovals(i, n - 1);
      assert Enabled(op, hs, qs);
      RunCons(op, rest, hs, qs);
      var rs := qs[i := qs[i][1..]];
      HeadRemovalsDrop(i, n - 1, hs, rs);
      assert rs[i][n - 1..] == qs[i][n..];
    }
  }

  /** A join moves all entries, in order, behind those of the first queue; an
      initialization forgets them; no other queue changes. */
  lemma JoinAndInit(i: nat, j: nat, hs: seq<Link>, qs: Queues, a: seq<Link>, b: seq<Link>)
    requires |hs| == |qs| && i < |qs| && j < |qs| && i != j && qs[i] == a && qs[j] == b
    ensures Enabled(Join(i, j), hs, qs) && AllEnabled([Join(i, j)], hs, qs)
    ensures var r := MeaningOfAll([Join(i, j)], hs, qs);
            r[i] == a + b && r[j] == [] && forall k :: 0 <= k < |qs| && k != i && k != j ==> r[k] == qs[k]
    ensures Enabled(One(i, CallInit), hs, qs) && AllEnabled([One(i, CallInit)], hs, qs)
    ensures var r := MeaningOfAll([One(i, CallInit)], hs, qs);
            r[i] == [] && forall k :: 0 <= k < |qs| && k != i ==> r[k] == qs[k]
  {
    hide AllEnabled, MeaningOfAll, Nodes;
    RunOfOne(Join(i, j), hs, qs);
    RunOfOne(One(i, CallInit), hs, qs);
  }
}
