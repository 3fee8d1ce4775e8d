/** The STAILQ macros of sys/queue.h.  An entry has no second field here, so the
    prev field of an entry plays no part. */
module SinglyQueue {
  import opened Links
  import opened QueueRuns

  /** head is a well-formed queue holding exactly the entries q, in order. */
  ghost predicate Queue(head: Link, q: seq<Link>)
    reads head, q
  {
    && Chain(head, q)
    && head.prev == (if |q| > 0 then q[|q| - 1] else head)
  }

  method Init(head: Link)
    modifies head
    ensures Queue(head, [])
  {
    head.next := null;
    head.prev := head;
  }

  method InsertHead(head: Link, elm: Link, ghost q: seq<Link>)
    requires Queue(head, q) && elm !in Nodes(head, q)
    modifies head, elm`next
    ensures Queue(head, [elm] + q)
  {
    elm.next := head.next;
    if elm.next == null {
      head.prev := elm;
    }
    head.next := elm;
  }

  method InsertTail(head: Link, elm: Link, ghost q: seq<Link>)
    requires Queue(head, q) && elm !in Nodes(head, q)
    modifies head, elm`next, head.prev`next
    ensures Queue(head, q + [elm])
  {
    elm.next := null;
    head.prev.next := elm;
    head.prev := elm;
  }

  method InsertAfter(head: Link, listelm: Link, elm: Link, ghost q: seq<Link>, ghost k: nat)
    requires Queue(head, q) && elm !in Nodes(head, q)
    requires k < |q| && listelm == q[k]
    modifies head`prev, listelm`next, elm`next
    ensures Queue(head, InsertedAt(q, k + 1, elm))
  {
    elm.next := listelm.next;
    if elm.next == null {
      head.prev := elm;
    }
    listelm.next := elm;
  }

  method RemoveHead(head: Link, ghost q: seq<Link>)
    requires Queue(head, q) && q != []
    modifies head
    ensures Queue(head, q[1..])
  {
    head.next := head.next.next;
    if head.next == null {
      head.prev := head;
    }
  }

  /** Any member can be removed: the search loop meets its predecessor. */
  method Remove(head: Link, elm: Link, ghost q: seq<Link>, ghost k: nat)
    requires Queue(head, q) && k < |q| && elm == q[k]
    modifies head, if k == 0 then head else q[k - 1]
    ensures Queue(head, RemovedAt(q, k))
  {
    if head.next == elm {
      RemoveHead(head, q);
      assert q[1..] == RemovedAt(q, k);
    } else {
      var curelm := head.next;
      ghost var c := 0;
      while curelm.next != elm
        invariant c < k && curelm == q[c]
        decreases k - c
      {
        curelm := curelm.next;
        c := c + 1;
      }
      curelm.next := curelm.next.next;
      if curelm.next == null {
        head.prev := curelm;
      }
    }
  }

  predicate Empty(head: Link)
    reads head
  {
    head.next == null
  }

  method Concat(head1: Link, head2: Link, ghost q1: seq<Link>, ghost q2: seq<Link>)
    requires Queue(head1, q1) && Queue(head2, q2) && Nodes(head1, q1) !! Nodes(head2, q2)
    modifies head1, head2, head1.prev`next
    ensures Queue(head1, q1 + q2) && Queue(head2, [])
  {
    forall i, j | 0 <= i < |q1| && 0 <= j < |q2|
      ensures q1[i] != q2[j]
    {
      assert q1[i] in Nodes(head1, q1) && q2[j] in Nodes(head2, q2);
    }
    if !Empty(head2) {
      head1.prev.next := head2.next;
      head1.prev := head2.prev;
      Init(head2);
    } else {
      assert q1 + q2 == q1;
    }
  }

  // ----- Runs over any number of queues -----

  /** The calls there are STAILQ macros for: all but the insertion before an entry. */
  predicate Provides(call: Call) {
    !call.CallInsertBefore?
  }

  /** The heads hs are well-formed queues holding qs, made of objects of the pool,
      and no object is used twice. */
  ghost predicate World(hs: seq<Link>, qs: Queues, pool: set<Link>)
    reads pool
  {
    && Apart(hs, qs, pool)
    && forall i :: 0 <= i < |hs| ==> Queue(hs[i], qs[i])
  }

  method Apply(call: Call, head: Link, ghost q: seq<Link>)
    requires Queue(head, q) && Provides(call) && call.Fits(q) && call.New() !! Nodes(head, q)
    modifies Nodes(head, q) + call.New()
    ensures Queue(head, call.Meaning(q))
  {
    match call {
      case CallInit =>
        Init(head);
      case CallInsertHead(elm) =>
        InsertHead(head, elm, q);
      case CallInsertTail(elm) =>
        InsertTail(head, elm, q);
      case CallInsertAfter(listelm, elm) =>
        InsertAfter(head, listelm, elm, q, IndexOf(q, listelm));
      case CallRemoveHead =>
        RemoveHead(head, q);
      case CallRemove(elm) =>
        Remove(head, elm, q, IndexOf(q, elm));
    }
  }

  /** A call on one of the queues leaves all others alone. */
  method StepOne(i: nat, call: Call, hs: seq<Link>, ghost qs: Queues, ghost pool: set<Link>)
    requires World(hs, qs, pool) && Provides(call) && Enabled(One(i, call), hs, qs) && call.New() <= pool
    modifies pool
    ensures World(hs, Meaning(One(i, call), hs, qs), pool)
  {
    CallKeepsApart(i, call, hs, qs, pool);
    Apply(call, hs[i], qs[i]);
  }

  method StepJoin(i: nat, j: nat, hs: seq<Link>, ghost qs: Queues, ghost pool: set<Link>)
    requires World(hs, qs, pool) && Enabled(Join(i, j), hs, qs)
    modifies pool
    ensures World(hs, Meaning(Join(i, j), hs, qs), pool)
  {
    JoinKeepsApart(i, j, hs, qs, pool);
    assert hs[i].prev in Nodes(hs[i], qs[i]);
    Concat(hs[i], hs[j], qs[i], qs[j]);
  }

  /** Every finite run of the macros keeps every queue well formed, in particular its
      last pointer exact, and refines the same run of sequence operations. */
  method Run(ops: seq<Op>, hs: seq<Link>, ghost qs: Queues, ghost pool: set<Link>)
    requires World(hs, qs, pool) && AllEnabled(ops, hs, qs)
    requires forall op :: op in ops && op.One? ==> Provides(op.call) && op.call.New() <= pool
    modifies pool
    ensures World(hs, MeaningOfAll(ops, hs, qs), pool)
    decreases |ops|
  {
    if ops != [] {
      match ops[0] {
        case One(i, call) =>
          StepOne(i, call, hs, qs, pool);
        case Join(i, j) =>
          StepJoin(i, j, hs, qs, pool);
      }
      Run(ops[1..], hs, Meaning(ops[0], hs, qs), pool);
    }
  }
}
