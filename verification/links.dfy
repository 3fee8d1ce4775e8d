/** What the three queue families of sys/queue.h share.

    A queue head and a queue entry have the same layout: a pointer (tqh_first,
    stqh_first, lh_first; tqe_next, stqe_next, le_next), followed, where there is
    a second field, by the address of such a pointer (tqh_last, stqh_last;
    tqe_prev, le_prev).  Both are modelled by one class, Link.  Since the pointer
    comes first in the layout, the address of an object's pointer field is the
    address of the object, so the address of a pointer is modelled by the Link
    that owns the pointer: reading or writing through it is `.next`, and the cast
    to the head type in TAILQ_LAST and TAILQ_PREV is `.prev`. */
module Links {

  class Link {
    var next: Link?  // the first element of a head, the next element of an entry
    var prev: Link?  // the owner of the pointer whose address is stored here

    constructor ()
      ensures next == null && prev == null
    {
      next, prev := null, null;
    }
  }

  /** The objects a queue is made of. */
  ghost function Nodes(head: Link, q: seq<Link>): set<Link> {
    {head} + set x | x in q
  }

  /** The forward chain from head visits exactly the entries q, in order, and ends in null. */
  ghost predicate Chain(head: Link, q: seq<Link>)
    reads head, q
  {
    && head !in q
    && (forall i, j :: 0 <= i < j < |q| ==> q[i] != q[j])
    && head.next == (if |q| > 0 then q[0] else null)
    && (forall i {:trigger q[i].next} :: 0 <= i < |q| ==>
          q[i].next == if i + 1 < |q| then q[i + 1] else null)
  }

  /** The heap determines the sequence: no head starts two different chains. */
  lemma ChainDetermined(head: Link, p: seq<Link>, q: seq<Link>)
    requires Chain(head, p) && Chain(head, q)
    ensures p == q
  {
    SamePrefix(head, p, q, |p|);
    SamePrefix(head, q, p, |q|);
  }

  lemma {:induction false} SamePrefix(head: Link, p: seq<Link>, q: seq<Link>, k: nat)
    requires Chain(head, p) && Chain(head, q) && k <= |p|
    ensures k <= |q| && p[..k] == q[..k]
    decreases k
  {
    if k == 0 {
    } else {
      SamePrefix(head, p, q, k - 1);
      if k > 1 {
        assert p[k - 2] == p[..k - 1][k - 2] == q[k - 2];
        assert p[k - 2].next == p[k - 1] && q[k - 2].next == p[k - 1];
      }
    }
  }

  /** The FOREACH macros of all three families. */
  method Foreach(head: Link, ghost q: seq<Link>) returns (visited: seq<Link>)
    requires Chain(head, q)
    ensures visited == q
  {
    visited := [];
    var v := head.next;
    while v != null
      invariant |visited| <= |q| && visited == q[..|visited|]
      invariant v == if |visited| < |q| then q[|visited|] else null
      decreases |q| - |visited|
    {
      visited := visited + [v];
      v := v.next;
    }
  }

  function InsertedAt<T>(q: seq<T>, k: nat, e: T): (r: seq<T>)
    requires k <= |q|
    ensures |r| == |q| + 1 && r[k] == e
    ensures forall i :: 0 <= i < k ==> r[i] == q[i]
    ensures forall i {:trigger r[i]} :: k < i <= |q| ==> r[i] == q[i - 1]
  {
    q[..k] + [e] + q[k..]
  }

  function RemovedAt<T>(q: seq<T>, k: nat): (r: seq<T>)
    requires k < |q|
    ensures |r| == |q| - 1
    ensures forall i :: 0 <= i < k ==> r[i] == q[i]
    ensures forall i {:trigger r[i]} :: k <= i < |r| ==> r[i] == q[i + 1]
  {
    q[..k] + q[k + 1..]
  }

  function Reversed<T>(q: seq<T>): (r: seq<T>)
    ensures |r| == |q|
    ensures forall i :: 0 <= i < |q| ==> r[i] == q[|q| - 1 - i]
  {
    if q == [] then [] else Reversed(q[1..]) + [q[0]]
  }

  ghost function IndexOf<T>(q: seq<T>, e: T): (k: nat)
    requires e in q
    ensures k < |q| && q[k] == e
  {
    var k :| 0 <= k < |q| && q[k] == e;
    k
  }
}
