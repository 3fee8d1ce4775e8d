/** The TAILQ macros of sys/queue.h. */
module TailQueue {
  import opened Links
  import opened QueueRuns

  /** head is a well-formed queue holding exactly the entries q, in order: next
      pointers run forward and end in null, every prev slot is owned by the
      predecessor, and the head's is owned by the last entry. */
  ghost predicate Queue(head: Link, q: seq<Link>)
    reads head, q
  {
    && Chain(head, q)
    && head.prev == (if |q| > 0 then q[|q| - 1] else head)
    && (forall i {:trigger q[i].prev} :: 0 <= i < |q| ==>
          q[i].prev == if i == 0 then head else q[i - 1])
  }

  // ----- The update macros -----

  method Init(head: Link)
    modifies head
    ensures Queue(head, [])
  {
    head.next := null;
    head.prev := head;
  }

  method InsertHead(head: Link, elm: Link, ghost q: seq<Link>)
    requires Queue(head, q) && elm != head && elm !in q
    modifies head, elm, head.next
    ensures Queue(head, [elm] + q)
  {
    elm.next := head.next;
    if elm.next != null {
      head.next.prev := elm;
    } else {
      head.prev := elm;
    }
    head.next := elm;
    elm.prev := head;
  }

  method InsertTail(head: Link, elm: Link, ghost q: seq<Link>)
    requires Queue(head, q) && elm != head && elm !in q
    modifies head, elm, head.prev
    ensures Queue(head, q + [elm])
  {
    elm.next := null;
    elm.prev := head.prev;
    head.prev.next := elm;
    head.prev := elm;
  }

  method InsertAfter(head: Link, listelm: Link, elm: Link, ghost q: seq<Link>, ghost k: nat)
    requires Queue(head, q) && elm != head && elm !in q
    requires k < |q| && listelm == q[k]
    modifies head, listelm, elm, listelm.next
    ensures Queue(head, InsertedAt(q, k + 1, elm))
  {
    elm.next := listelm.next;
    if elm.next != null {
      elm.next.prev := elm;
    } else {
      head.prev := elm;
    }
    listelm.next := elm;
    elm.prev := listelm;
  }

  method InsertBefore(listelm: Link, elm: Link, ghost head: Link, ghost q: seq<Link>, ghost k: nat)
    requires Queue(head, q) && elm != head && elm !in q
    requires k < |q| && listelm == q[k]
    modifies listelm, elm, listelm.prev
    ensures Queue(head, InsertedAt(q, k, elm))
  {
    elm.prev := listelm.prev;
    elm.next := listelm;
    listelm.prev.next := elm;
    listelm.prev := elm;
  }

  method Remove(head: Link, elm: Link, ghost q: seq<Link>, ghost k: nat)
    requires Queue(head, q) && k < |q| && elm == q[k]
    modifies head, elm.next, elm.prev
    ensures Queue(head, RemovedAt(q, k))
  {
    if elm.next != null {
      elm.next.prev := elm.prev;
    } else {
      head.prev := elm.prev;
    }
    elm.prev.next := elm.next;
  }

  method Concat(head1: Link, head2: Link, ghost q1: seq<Link>, ghost q2: seq<Link>)
    requires Queue(head1, q1) && Queue(head2, q2)
    requires Nodes(head1, q1) !! Nodes(head2, q2)
    modifies head1, head2, head1.prev, head2.next
    ensures Queue(head1, q1 + q2) && Queue(head2, [])
  {
    forall i, j | 0 <= i < |q1| && 0 <= j < |q2|
      ensures q1[i] != q2[j]
    {
      assert q1[i] in Nodes(head1, q1) && q2[j] in Nodes(head2, q2);
    }
    if !Empty(head2) {
      head1.prev.next := head2.next;
      head2.next.prev := head1.prev;
      head1.prev := head2.prev;
      Init(head2);
    } else {
      assert q1 + q2 == q1;
    }
  }

  // ----- Access and traversal -----

  predicate Empty(head: Link)
    reads head
  {
    head.next == null
  }

  /** TAILQ_LAST: the slot address in the head is read as a head, and the slot
      address found there is read through. */
  function Last(head: Link): Link?
    requires head.prev != null && head.prev.prev != null
    reads head, head.prev, if head.prev == null then null else head.prev.prev
  {
    head.prev.prev.next
  }

  /** TAILQ_PREV: the same reading, started from an entry. */
  function Prev(elm: Link): Link?
    requires elm.prev != null && elm.prev.prev != null
    reads elm, elm.prev, if elm.prev == null then null else elm.prev.prev
  {
    elm.prev.prev.next
  }

  lemma PrevIsExact(head: Link, q: seq<Link>, k: nat)
    requires Queue(head, q) && k < |q|
    ensures q[k].prev != null && q[k].prev.prev != null
    ensures Prev(q[k]) == if k == 0 then null else q[k - 1]
  {
    if k == 0 {
      assert q[0].prev == head;
    } else {
      assert q[k].prev == q[k - 1];
      assert q[k - 1].prev == if k == 1 then head else q[k - 2];
      assert k > 1 ==> q[k - 2].next == q[k - 1];
    }
  }

  lemma LastIsExact(head: Link, q: seq<Link>)
    requires Queue(head, q)
    ensures head.prev != null && head.prev.prev != null
    ensures Last(head) == if q == [] then null else q[|q| - 1]
  {
    if q != [] {
      assert q[|q| - 1].prev == if |q| == 1 then head else q[|q| - 2];
      assert |q| > 1 ==> q[|q| - 2].next == q[|q| - 1];
    }
  }

  /** The layout pun is exact: in a well-formed queue both macros dereference
      valid addresses and give the last entry and the predecessor, or null. */
  lemma PunIsExact(head: Link, q: seq<Link>)
    requires Queue(head, q)
    ensures head.prev != null && head.prev.prev != null
    ensures Last(head) == if q == [] then null else q[|q| - 1]
    ensures forall k :: 0 <= k < |q| ==> q[k].prev != null && q[k].prev.prev != null
    ensures forall k :: 0 <= k < |q| ==> Prev(q[k]) == if k == 0 then null else q[k - 1]
  {
    LastIsExact(head, q);
    forall k | 0 <= k < |q|
      ensures q[k].prev != null && q[k].prev.prev != null
    {
      PrevIsExact(head, q, k);
    }
    forall k | 0 <= k < |q|
      ensures Prev(q[k]) == if k == 0 then null else q[k - 1]
    {
      PrevIsExact(head, q, k);
    }
  }

  method ForeachReverse(head: Link, ghost q: seq<Link>) returns (visited: seq<Link>)
    requires Queue(head, q)
    ensures visited == Reversed(q)
  {
    PunIsExact(head, q);
    visited := [];
    var v := Last(head);
    while v != null
      invariant |visited| <= |q| && visited == Reversed(q)[..|visited|]
      invariant v == if |visited| < |q| then q[|q| - 1 - |visited|] else null
      decreases |q| - |visited|
    {
      visited := visited + [v];
      v := Prev(v);
    }
  }

  // ----- Runs over any number of queues -----

  /** The calls there are TAILQ macros for: all but the removal of the first entry. */
  predicate Provides(call: Call) {
    !call.CallRemoveHead?
  }

  /** The heads hs are well-formed queues holding qs, made of objects of the pool,
      and no object is used twice. */
  ghost predicate World(hs: seq<Link>, qs: Queues, pool: set<Link>)
    reads pool
  {
    && Apart(hs, qs, pool)
    && forall i :: 0 <= i < |hs| ==> Queue(hs[i], qs[i])
  }

  method Apply(call: Call, head: Link, ghost q: seq<Link>)
    requires Queue(head, q) && Provides(call) && call.Fits(q) && call.New() !! Nodes(head, q)
    modifies Nodes(head, q) + call.New()
    ensures Queue(head, call.Meaning(q))
  {
    match call {
      case CallInit =>
        Init(head);
      case CallInsertHead(elm) =>
        InsertHead(head, elm, q);
      case CallInsertTail(elm) =>
        InsertTail(head, elm, q);
      case CallInsertAfter(listelm, elm) =>
        InsertAfter(head, listelm, elm, q, IndexOf(q, listelm));
      case CallInsertBefore(listelm, elm) =>
        InsertBefore(listelm, elm, head, q, IndexOf(q, listelm));
      case CallRemove(elm) =>
        Remove(head, elm, q, IndexOf(q, elm));
    }
  }

  /** A call on one of the queues leaves all others alone. */
  method StepOne(i: nat, call: Call, hs: seq<Link>, ghost qs: Queues, ghost pool: set<Link>)
    requires World(hs, qs, pool) && Provides(call) && Enabled(One(i, call), hs, qs) && call.New() <= pool
    modifies pool
    ensures World(hs, Meaning(One(i, call), hs, qs), pool)
  {
    CallKeepsApart(i, call, hs, qs, pool);
    Apply(call, hs[i], qs[i]);
  }

  method StepJoin(i: nat, j: nat, hs: seq<Link>, ghost qs: Queues, ghost pool: set<Link>)
    requires World(hs, qs, pool) && Enabled(Join(i, j), hs, qs)
    modifies pool
    ensures World(hs, Meaning(Join(i, j), hs, qs), pool)
  {
    JoinKeepsApart(i, j, hs, qs, pool);
    assert hs[i].prev in Nodes(hs[i], qs[i]);
    assert hs[j].next != null ==> hs[j].next in Nodes(hs[j], qs[j]);
    Concat(hs[i], hs[j], qs[i], qs[j]);
  }

  /** Every finite run of the macros keeps every queue well formed and refines
      the same run of sequence operations. */
  method Run(ops: seq<Op>, hs: seq<Link>, ghost qs: Queues, ghost pool: set<Link>)
    requires World(hs, qs, pool) && AllEnabled(ops, hs, qs)
    requires forall op :: op in ops && op.One? ==> Provides(op.call) && op.call.New() <= pool
    modifies pool
    ensures World(hs, MeaningOfAll(ops, hs, qs), pool)
    decreases |ops|
  {
    if ops != [] {
      match ops[0] {
        case One(i, call) =>
          StepOne(i, call, hs, qs, pool);
        case Join(i, j) =>
          StepJoin(i, j, hs, qs, pool);
      }
      Run(ops[1..], hs, Meaning(ops[0], hs, qs), pool);
    }
  }
}
