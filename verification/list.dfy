/** The LIST macros of sys/queue.h.  A list head has no second field, so the prev
    field of a head plays no part. */
module LinkedList {
  import opened Links
  import opened QueueRuns

  /** head is a well-formed list holding exactly the entries q, in order: each
      le_prev is the address of the one pointer that points to its entry. */
  ghost predicate List(head: Link, q: seq<Link>)
    reads head, q
  {
    && Chain(head, q)
    && (forall i {:trigger q[i].prev} :: 0 <= i < |q| ==>
          q[i].prev == if i == 0 then head else q[i - 1])
  }

  method Init(head: Link)
    modifies head`next
    ensures List(head, [])
  {
    head.next := null;
  }

  method InsertAfter(listelm: Link, elm: Link, ghost head: Link, ghost q: seq<Link>, ghost k: nat)
    requires List(head, q) && elm !in Nodes(head, q)
    requires k < |q| && listelm == q[k]
    modifies listelm`next, elm, listelm.next
    ensures List(head, InsertedAt(q, k + 1, elm))
  {
    elm.next := listelm.next;
    if elm.next != null {
      listelm.next.prev := elm;
    }
    listelm.next := elm;
    elm.prev := listelm;
  }

  method InsertBefore(listelm: Link, elm: Link, ghost head: Link, ghost q: seq<Link>, ghost k: nat)
    requires List(head, q) && elm !in Nodes(head, q)
    requires k < |q| && listelm == q[k]
    modifies listelm`prev, elm, listelm.prev`next
    ensures List(head, InsertedAt(q, k, elm))
  {
    elm.prev := listelm.prev;
    elm.next := listelm;
    listelm.prev.next := elm;
    listelm.prev := elm;
  }

  method InsertHead(head: Link, elm: Link, ghost q: seq<Link>)
    requires List(head, q) && elm !in Nodes(head, q)
    modifies head`next, elm, head.next
    ensures List(head, [elm] + q)
  {
    elm.next := head.next;
    if elm.next != null {
      head.next.prev := elm;
    }
    head.next := elm;
    elm.prev := head;
  }

  /** LIST_REMOVE needs neither the head nor a search. */
  method Remove(elm: Link, ghost head: Link, ghost q: seq<Link>, ghost k: nat)
    requires List(head, q) && k < |q| && elm == q[k]
    modifies elm.next, elm.prev`next
    ensures List(head, RemovedAt(q, k))
  {
    if elm.next != null {
      elm.next.prev := elm.prev;
    }
    elm.prev.next := elm.next;
  }

  /** An insertion anywhere and the removal of the same entry cancel. */
  method InsertThenRemove(listelm: Link, elm: Link, before: bool, ghost head: Link, ghost q: seq<Link>, ghost k: nat)
    requires List(head, q) && elm !in Nodes(head, q)
    requires k < |q| && listelm == q[k]
    modifies Nodes(head, q), elm
    ensures List(head, q)
  {
    ghost var p := if before then k else k + 1;
    assert listelm.next != null ==> listelm.next in Nodes(head, q);
    assert listelm.prev in Nodes(head, q);
    if before {
      InsertBefore(listelm, elm, head, q, k);
    } else {
      InsertAfter(listelm, elm, head, q, k);
    }
    ghost var r := InsertedAt(q, p, elm);
    assert elm.next != null ==> elm.next in Nodes(head, q);
    assert elm.prev in Nodes(head, q);
    Remove(elm, head, r, p);
    assert RemovedAt(r, p) == q;
  }

  // ----- Runs over any number of lists -----

  /** The calls there are LIST macros for. */
  predicate Provides(call: Call) {
    !call.CallInsertTail? && !call.CallRemoveHead?
  }

  /** The heads hs are well-formed lists holding qs, made of objects of the pool,
      and no object is used twice. */
  ghost predicate World(hs: seq<Link>, qs: Queues, pool: set<Link>)
    reads pool
  {
    && Apart(hs, qs, pool)
    && forall i :: 0 <= i < |hs| ==> List(hs[i], qs[i])
  }

  method Apply(call: Call, head: Link, ghost q: seq<Link>)
    requires List(head, q) && Provides(call) && call.Fits(q) && call.New() !! Nodes(head, q)
    modifies Nodes(head, q) + call.New()
    ensures List(head, call.Meaning(q))
  {
    match call {
      case CallInit =>
        Init(head);
      case CallInsertHead(elm) =>
        InsertHead(head, elm, q);
      case CallInsertAfter(listelm, elm) =>
        InsertAfter(listelm, elm, head, q, IndexOf(q, listelm));
      case CallInsertBefore(listelm, elm) =>
        InsertBefore(listelm, elm, head, q, IndexOf(q, listelm));
      case CallRemove(elm) =>
        Remove(elm, head, q, IndexOf(q, elm));
    }
  }

  /** A call on one of the lists leaves all others alone. */
  method StepOne(i: nat, call: Call, hs: seq<Link>, ghost qs: Queues, ghost pool: set<Link>)
    requires World(hs, qs, pool) && Provides(call) && Enabled(One(i, call), hs, qs) && call.New() <= pool
    modifies pool
    ensures World(hs, Meaning(One(i, call), hs, qs), pool)
  {
    CallKeepsApart(i, call, hs, qs, pool);
    Apply(call, hs[i], qs[i]);
  }

  /** Every finite run of the macros keeps le_prev exact in every list and refines the
      same run of sequence operations. */
  method Run(ops: seq<Op>, hs: seq<Link>, ghost qs: Queues, ghost pool: set<Link>)
    requires World(hs, qs, pool) && AllEnabled(ops, hs, qs)
    requires forall op :: op in ops ==> op.One? && Provides(op.call) && op.call.New() <= pool
    modifies pool
    ensures World(hs, MeaningOfAll(ops, hs, qs), pool)
    decreases |ops|
  {
    if ops != [] {
      StepOne(ops[0].i, ops[0].call, hs, qs, pool);
      Run(ops[1..], hs, Meaning(ops[0], hs, qs), pool);
    }
  }
}
