/** The list each process keeps of the pages it owns (lolibc/struct/mlist.c). */
module MList {
  import opened Wrappers

  class Elem<T> {
    var prev: Elem?<T>
    var next: Elem?<T>
    const data: T

    constructor (data: T)
      ensures this.data == data && prev == null && next == null
    {
      this.data := data;
      prev, next := null, null;
    }
  }

  class List<T> {
    var head: Elem?<T>
    var tail: Elem?<T>
    ghost var elems: seq<Elem<T>>

    /** The elements are linked in order from head to tail. The prev pointer of the head is not kept:
        mlist_pop leaves it pointing at the element it freed. */
    ghost predicate Valid()
      reads this, elems
    {
      && (forall i, j | 0 <= i < j < |elems| :: elems[i] != elems[j])
      && head == (if elems == [] then null else elems[0])
      && tail == (if elems == [] then null else elems[|elems| - 1])
      && (forall i {:trigger elems[i].next} | 0 <= i < |elems| :: elems[i].next == (if i + 1 < |elems| then elems[i + 1] else null))
      && (forall i {:trigger elems[i].prev} | 0 < i < |elems| :: elems[i].prev == elems[i - 1])
    }

    ghost function Contents(): (s: seq<T>)
      reads this
      ensures |s| == |elems| && forall i | 0 <= i < |s| :: s[i] == elems[i].data
    {
      seq(|elems|, i requires 0 <= i < |elems| reads this => elems[i].data)
    }

    /** mlist_init. */
    constructor ()
      ensures Valid() && Contents() == [] && elems == []
    {
      head, tail, elems := null, null, [];
    }

    /** mlist_is_empty. */
    method IsEmpty() returns (r: bool)
      requires Valid()
      ensures r <==> Contents() == []
    {
      r := head == null;
    }

    /** mlist_push: in front. */
    method Push(data: T)
      requires Valid()
      modifies this, elems
      ensures Valid() && Contents() == [data] + old(Contents())
      ensures fresh(elems[0]) && elems[1..] == old(elems)
    {
      var elem := new Elem(data);
      var empty := IsEmpty();
      if empty {
        head, tail := elem, elem;
      } else {
        elem.next := head;
        elem.next.prev := elem;
        head := elem;
      }
      ghost var rest := elems;
      elems := [elem] + elems;
      assert forall i | 1 <= i < |elems| :: elems[i] == rest[i - 1];
    }

    /** mlist_append: at the end. */
    method Append(data: T)
      requires Valid()
      modifies this, elems
      ensures Valid() && Contents() == old(Contents()) + [data]
      ensures elems[..|elems| - 1] == old(elems) && fresh(elems[|elems| - 1])
    {
      var elem := new Elem(data);
      var empty := IsEmpty();
      if empty {
        head, tail := elem, elem;
      } else {
        elem.prev := tail;
        elem.prev.next := elem;
        tail := elem;
      }
      ghost var front := elems;
      elems := elems + [elem];
      assert forall i | 0 <= i < |front| :: elems[i] == front[i];
    }

    /** mlist_pop: the front element, None for NULL when there is none. */
    method Pop() returns (r: Option<T>)
      requires Valid()
      modifies this
      ensures Valid()
      ensures r == if old(Contents()) == [] then None else Some(old(Contents())[0])
      ensures Contents() == if old(Contents()) == [] then [] else old(Contents())[1..]
      ensures old(Contents()) != [] ==> elems == old(elems)[1..]
    {
      var empty := IsEmpty();
      if empty { return None; }
      var elem := head;
      r := Some(elem.data);
      if head == tail {
        head, tail := null, null;
      } else {
        head := head.next;
      }
      elems := elems[1..];
    }
  }
}
