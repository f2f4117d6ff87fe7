/** The tail queues of sys/include/sys/queue.h: elements are linked by a pointer to the next one and
    by a pointer to whatever points to them. */
module TailQueue {

  /** A pointer to a pointer to an element: the first field of a head, or the next field of an
      element; Nowhere before it is set. */
  datatype Loc<T> = Nowhere | AtFirst(head: Queue<T>) | AtNext(elem: Elem<T>)

  /** A structure with its TAILQ_ENTRY. */
  class Elem<T> {
    const item: T
    var next: Elem?<T>
    var prev: Loc<T>

    constructor (item: T)
      ensures this.item == item
    {
      this.item, this.next, this.prev := item, null, Nowhere;
    }
  }

  class Queue<T> {
    var first: Elem?<T>
    var last: Loc<T>
    ghost var elems: seq<Elem<T>>

    /** Element i of the queue is linked to its neighbours. */
    ghost predicate LinkedAt(i: nat)
      reads this, elems
      requires i < |elems|
    {
      && elems[i].next == (if i + 1 < |elems| then elems[i + 1] else null)
      && elems[i].prev == (if i == 0 then AtFirst(this) else AtNext(elems[i - 1]))
    }

    ghost predicate Valid()
      reads this, elems
    {
      && first == (if elems == [] then null else elems[0])
      && last == (if elems == [] then AtFirst(this) else AtNext(elems[|elems| - 1]))
      && (forall i: nat {:trigger LinkedAt(i)} :: i < |elems| ==> LinkedAt(i))
      && (forall i, j :: 0 <= i < j < |elems| ==> elems[i] != elems[j])
    }

    /** TAILQ_INIT */
    constructor ()
      ensures Valid() && elems == []
    {
      first := null;
      last := Nowhere;
      elems := [];
      new;
      last := AtFirst(this);
    }

    /** TAILQ_INSERT_HEAD */
    method InsertHead(elm: Elem<T>)
      requires Valid() && elm !in elems
      modifies this, elm, elems
      ensures Valid() && elems == [elm] + old(elems)
    {
      forall i: nat | i < |elems| ensures LinkedAt(i) {}
      elm.next := first;
      if elm.next != null {
        first.prev := AtNext(elm);
      } else {
        last := AtNext(elm);
      }
      first := elm;
      elm.prev := AtFirst(this);
      elems := [elm] + elems;
      forall i: nat | i < |elems| ensures LinkedAt(i) {
        assert i > 0 ==> old(LinkedAt(i - 1));
      }
    }

    /** TAILQ_INSERT_TAIL */
    method InsertTail(elm: Elem<T>)
      requires Valid() && elm !in elems
      modifies this, elm, elems
      ensures Valid() && elems == old(elems) + [elm]
    {
      elm.next := null;
      elm.prev := last;
      match last {
        case AtFirst(head) => head.first := elm;
        case AtNext(elem) => elem.next := elm;
      }
      last := AtNext(elm);
      elems := elems + [elm];
      forall i: nat | i < |elems| ensures LinkedAt(i) {
        assert i + 1 < |elems| ==> old(LinkedAt(i));
      }
    }

    /** TAILQ_FIRST */
    function First(): (e: Elem?<T>)
      reads this
    {
      first
    }

    /** A walk from the first element by TAILQ_NEXT visits the elements in order and ends. */
    method Walk() returns (visited: seq<Elem<T>>)
      requires Valid()
      ensures visited == elems
    {
      visited := [];
      var e := first;
      while e != null
        invariant |visited| <= |elems| && visited == elems[..|visited|]
        invariant e == if |visited| < |elems| then elems[|visited|] else null
        decreases |elems| - |visited|
      {
        assert LinkedAt(|visited|);
        visited := visited + [e];
        e := e.next;
      }
    }
  }
}
