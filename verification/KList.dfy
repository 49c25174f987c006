/** Circular doubly linked lists (lolibc/kstruct/list.h). A list is a ring of nodes; one of them is
    taken as its head, and the others, in order, are its contents. */
module KList {

  class ListHead {
    var next: ListHead
    var prev: ListHead

    /** init_list_head on a fresh node. */
    constructor ()
      ensures Ring([this])
    {
      next := this;
      prev := this;
    }
  }

  /** The place after i round a ring of n nodes, and the place before. */
  function After(n: nat, i: nat): (r: nat)
    requires i < n
    ensures r < n && Before(n, r) == i
  {
    if i + 1 == n then 0 else i + 1
  }

  function Before(n: nat, i: nat): (r: nat)
    requires i < n
    ensures r < n
  {
    if i == 0 then n - 1 else i - 1
  }

  ghost predicate Distinct(c: seq<ListHead>) {
    forall i, j | 0 <= i < j < |c| :: c[i] != c[j]
  }

  /** These nodes, in this order, are linked into a ring. */
  ghost predicate Ring(c: seq<ListHead>)
    reads c
  {
    && |c| > 0 && Distinct(c)
    && (forall i {:trigger c[i].next} | 0 <= i < |c| :: c[i].next == c[After(|c|, i)])
    && (forall i {:trigger c[i].prev} | 0 <= i < |c| :: c[i].prev == c[Before(|c|, i)])
  }

  /** next and prev are mutual inverses on a ring. */
  lemma RingInverse(c: seq<ListHead>, i: nat)
    requires Ring(c) && i < |c|
    ensures c[i].next.prev == c[i] && c[i].prev.next == c[i]
  {
    assert c[After(|c|, i)].prev == c[i];
    assert c[Before(|c|, i)].next == c[i];
  }

  ghost predicate Apart(c: seq<ListHead>, d: seq<ListHead>) {
    forall i, j | 0 <= i < |c| && 0 <= j < |d| :: c[i] != d[j]
  }

  /** A list: its head, then its contents. */
  ghost predicate List(head: ListHead, s: seq<ListHead>)
    reads head, s
  {
    Ring([head] + s)
  }

  method InitListHead(list: ListHead)
    modifies list
    ensures List(list, [])
  {
    list.next := list;
    list.prev := list;
  }

  ghost function Inserted(c: seq<ListHead>, i: nat, node: ListHead): (w: seq<ListHead>)
    requires i < |c|
    ensures |w| == |c| + 1
  {
    c[..i + 1] + [node] + c[i + 1..]
  }

  /** What stands around each place once a node has gone in after place i. */
  lemma InsertedAround(c: seq<ListHead>, i: nat, node: ListHead, k: nat)
    requires i < |c| && k <= |c|
    ensures var w, n := Inserted(c, i, node), |c|;
            var j := if k <= i then k else k - 1;
            && (k == i + 1 ==> w[k] == node && w[After(n + 1, k)] == c[After(n, i)] && w[Before(n + 1, k)] == c[i])
            && (k != i + 1 ==>
                  && w[k] == c[j]
                  && w[After(n + 1, k)] == (if j == i then node else c[After(n, j)])
                  && w[Before(n + 1, k)] == (if j == After(n, i) then node else c[Before(n, j)]))
  {
  }

  lemma DistinctInserted(c: seq<ListHead>, i: nat, node: ListHead)
    requires Distinct(c) && i < |c| && node !in c
    ensures Distinct(Inserted(c, i, node))
  {
  }

  lemma PlacesDiffer(c: seq<ListHead>)
    requires Distinct(c)
    ensures forall i, j | 0 <= i < |c| && 0 <= j < |c| && c[i] == c[j] :: i == j
  {
  }

  /** _list_add: a node goes in after place i of a ring. */
  method AddBetween(next: ListHead, prev: ListHead, node: ListHead, ghost c: seq<ListHead>, ghost i: nat)
    requires Ring(c) && i < |c| && prev == c[i] && next == c[After(|c|, i)] && node !in c
    modifies next`prev, prev`next, node
    ensures Ring(Inserted(c, i, node))
  {
    hide Distinct;
    hide Inserted;
    hide After;
    hide Before;
    DistinctInserted(c, i, node);
    PlacesDiffer(c);
    next.prev := node;
    node.next := next;
    node.prev := prev;
    prev.next := node;
    ghost var w := Inserted(c, i, node);
    forall k | 0 <= k < |w| ensures w[k].next == w[After(|w|, k)] && w[k].prev == w[Before(|w|, k)] {
      InsertedAround(c, i, node, k);
    }
  }

  /** list_add: the node becomes the first of the list. */
  method ListAdd(head: ListHead, node: ListHead, ghost s: seq<ListHead>)
    requires List(head, s) && node !in [head] + s
    modifies head, head.next, node
    ensures List(head, [node] + s)
  {
    ghost var c := [head] + s;
    assert c[0] == head;
    assert Inserted(c, 0, node) == [head] + ([node] + s);
    AddBetween(head.next, head, node, c, 0);
  }

  /** list_add_tail: the last. */
  method ListAddTail(head: ListHead, node: ListHead, ghost s: seq<ListHead>)
    requires List(head, s) && node !in [head] + s
    modifies head, head.prev, node
    ensures List(head, s + [node])
  {
    ghost var c := [head] + s;
    assert c[0] == head;
    assert Inserted(c, |s|, node) == [head] + (s + [node]);
    AddBetween(head, head.prev, node, c, |s|);
  }

  ghost function Without(c: seq<ListHead>, i: nat): (w: seq<ListHead>)
    requires i < |c|
    ensures |w| == |c| - 1
  {
    c[..i] + c[i + 1..]
  }

  /** What stands around each place once the node at place i is gone. */
  lemma WithoutAround(c: seq<ListHead>, i: nat, k: nat)
    requires i < |c| && k < |c| - 1
    ensures var w, n := Without(c, i), |c|;
            var j := if k < i then k else k + 1;
            && j != i && w[k] == c[j]
            && w[After(n - 1, k)] == (if After(n, j) == i then c[After(n, i)] else c[After(n, j)])
            && w[Before(n - 1, k)] == (if Before(n, j) == i then c[Before(n, i)] else c[Before(n, j)])
  {
  }

  lemma DistinctWithout(c: seq<ListHead>, i: nat)
    requires Distinct(c) && i < |c|
    ensures Distinct(Without(c, i)) && c[i] !in Without(c, i)
  {
  }

  /** _list_del: the nodes around place i are linked to each other. */
  method Unlink(prev: ListHead, next: ListHead, ghost c: seq<ListHead>, ghost i: nat)
    requires Ring(c) && i < |c| && prev == c[Before(|c|, i)] && next == c[After(|c|, i)]
    modifies prev`next, next`prev
    ensures if |c| == 1 then Ring(c) else Ring(Without(c, i))
    ensures prev.next == next && next.prev == prev
  {
    hide Distinct;
    hide Without;
    hide After;
    hide Before;
    DistinctWithout(c, i);
    PlacesDiffer(c);
    next.prev := prev;
    prev.next := next;
    if |c| == 1 {
      OnlyPlace(i);
    } else {
      ghost var w := Without(c, i);
      forall k | 0 <= k < |w| ensures w[k].next == w[After(|w|, k)] && w[k].prev == w[Before(|w|, k)] {
        WithoutAround(c, i, k);
        BackAndForth(|c|, i);
        BackAndForth(|c|, if k < i then k else k + 1);
      }
    }
  }

  lemma OnlyPlace(i: nat)
    requires i < 1
    ensures After(1, i) == i == Before(1, i)
  {
  }

  lemma BackAndForth(n: nat, i: nat)
    requires i < n
    ensures After(n, Before(n, i)) == i && Before(n, After(n, i)) == i
  {
  }

  /** list_del: the node leaves its ring and is linked to itself; the others stay in order. A node
      already linked to itself stays so. */
  method ListDel(entry: ListHead, ghost c: seq<ListHead>, ghost i: nat)
    requires Ring(c) && i < |c| && c[i] == entry
    modifies entry, entry.prev, entry.next
    ensures Ring([entry]) && (|c| > 1 ==> Ring(Without(c, i)))
  {
    Unlink(entry.prev, entry.next, c, i);
    entry.next := entry;
    entry.prev := entry;
  }

  /** list_replace: the new node stands where the old one stood, alone if the old one was alone. */
  method ListReplace(entry: ListHead, node: ListHead, ghost c: seq<ListHead>, ghost i: nat)
    requires Ring(c) && i < |c| && c[i] == entry && node !in c
    modifies node, entry, entry.next, entry.prev
    ensures Ring(c[i := node])
  {
    node.next := entry.next;
    node.next.prev := node;
    node.prev := entry.prev;
    node.prev.next := node;
  }

  method ListReplaceInit(entry: ListHead, node: ListHead, ghost c: seq<ListHead>, ghost i: nat)
    requires Ring(c) && i < |c| && c[i] == entry && node !in c
    modifies node, entry, entry.next, entry.prev
    ensures Ring(c[i := node]) && Ring([entry])
  {
    SwappedOut(c, i, node);
    ListReplace(entry, node, c, i);
    InitListHead(entry);
    assert [entry] + [] == [entry];
  }

  lemma SwappedOut(c: seq<ListHead>, i: nat, node: ListHead)
    requires Distinct(c) && i < |c| && node !in c
    ensures c[i] !in c[i := node]
  {
  }

  /** The rest of the list being moved to, when the node may come from that very list. */
  ghost function Rest(head: ListHead, s: seq<ListHead>, c: seq<ListHead>, i: nat): seq<ListHead>
    requires c == [head] + s ==> 0 < i <= |s|
  {
    if c == [head] + s then Without(s, i - 1) else s
  }

  /** A node that can be moved to a list: in that list already, or in a ring apart from it. */
  ghost predicate Movable(list: ListHead, head: ListHead, s: seq<ListHead>, c: seq<ListHead>, i: nat)
    reads head, s, c
  {
    && List(head, s) && Ring(c) && i < |c| && c[i] == list
    && if c == [head] + s then i > 0 else Apart(c, [head] + s)
  }

  /** list_move: the node at place i of its ring c comes first in the list. */
  method ListMove(list: ListHead, head: ListHead, ghost s: seq<ListHead>, ghost c: seq<ListHead>, ghost i: nat)
    requires Movable(list, head, s, c, i)
    modifies head, head.next, list, list.prev, list.next
    ensures List(head, [list] + Rest(head, s, c, i))
    ensures c != [head] + s && |c| > 1 ==> Ring(Without(c, i))
  {
    DistinctWithout(c, i);
    if c != [head] + s { ApartWithout(c, i, [head] + s); }
    Leave(list, head, s, c, i);
    HeadIn(head, Rest(head, s, c, i));
    ListAdd(head, list, Rest(head, s, c, i));
  }

  /** list_move_tail: it comes last. */
  method ListMoveTail(list: ListHead, head: ListHead, ghost s: seq<ListHead>, ghost c: seq<ListHead>, ghost i: nat)
    requires Movable(list, head, s, c, i)
    modifies head, head.prev, list, list.prev, list.next
    ensures List(head, Rest(head, s, c, i) + [list])
    ensures c != [head] + s && |c| > 1 ==> Ring(Without(c, i))
  {
    DistinctWithout(c, i);
    if c != [head] + s { ApartWithout(c, i, [head] + s); }
    Leave(list, head, s, c, i);
    HeadIn(head, Rest(head, s, c, i));
    ListAddTail(head, list, Rest(head, s, c, i));
  }

  lemma HeadIn(head: ListHead, s: seq<ListHead>)
    requires List(head, s)
    ensures head in [head] + s && head.next in [head] + s && head.prev in [head] + s
  {
    var c := [head] + s;
    assert c[0] == head;
    assert head.next == c[After(|c|, 0)] && head.prev == c[Before(|c|, 0)];
  }

  /** The first half of a move: the node leaves its ring. */
  method Leave(list: ListHead, head: ListHead, ghost s: seq<ListHead>, ghost c: seq<ListHead>, ghost i: nat)
    requires Movable(list, head, s, c, i)
    modifies list.prev, list.next
    ensures var rest := Rest(head, s, c, i);
            && List(head, rest) && list !in [head] + rest
            && (c != [head] + s && |c| > 1 ==> Ring(Without(c, i)))
    ensures head.next == old(head.next) || head.next == old(list.next)
    ensures head.prev == old(head.prev) || head.prev == old(list.prev)
  {
    DistinctWithout(c, i);
    if c == [head] + s {
      Removed(head, s, i - 1);
      assert c[0] == head;
    } else {
      assert ([head] + s)[0] == head;
    }
    Unlink(list.prev, list.next, c, i);
  }

  lemma ApartWithout(c: seq<ListHead>, i: nat, d: seq<ListHead>)
    requires i < |c| && Apart(c, d)
    ensures Apart(Without(c, i), d)
  {
  }

  lemma Removed(head: ListHead, s: seq<ListHead>, i: nat)
    requires i < |s|
    ensures [head] + Without(s, i) == Without([head] + s, i + 1)
  {
  }

  method ListIsEmpty(head: ListHead, ghost s: seq<ListHead>) returns (r: bool)
    requires List(head, s)
    ensures r <==> s == []
  {
    ghost var c := [head] + s;
    assert c[0] == head;
    r := head.next == head;
  }

  /** list_splice_init: the contents of one list go to the end of another, and it is left empty. Either
      may be empty. */
  method ListSpliceInit(list: ListHead, head: ListHead, ghost t: seq<ListHead>, ghost s: seq<ListHead>)
    requires List(list, t) && List(head, s)
    requires Apart([list] + t, [head] + s)
    modifies list, head, list.next, list.prev, head.prev
    ensures List(head, s + t) && List(list, [])
  {
    hide Distinct;
    hide After;
    hide Before;
    ghost var from, to, w := [list] + t, [head] + s, [head] + (s + t);
    assert from[0] == list && to[0] == head;
    PlacesDiffer(from);
    PlacesDiffer(to);
    Ends(from);
    Ends(to);
    DistinctCat(from, to, t, w);
    head.prev.next := list.next;
    list.next.prev := head.prev;
    list.prev.next := head;
    head.prev := list.prev;
    InitListHead(list);
    forall k | 0 <= k < |w| ensures w[k].next == w[After(|w|, k)] && w[k].prev == w[Before(|w|, k)] {
      SplicedAround(from, to, w, k);
    }
  }

  lemma Ends(c: seq<ListHead>)
    requires |c| > 0
    ensures After(|c|, |c| - 1) == 0 && Before(|c|, 0) == |c| - 1
    ensures |c| > 1 ==> After(|c|, 0) == 1
    ensures |c| == 1 ==> After(|c|, 0) == 0
  {
  }

  lemma DistinctCat(from: seq<ListHead>, to: seq<ListHead>, t: seq<ListHead>, w: seq<ListHead>)
    requires Distinct(from) && Distinct(to) && |from| > 0 && t == from[1..] && w == to + t
    requires Apart(from, to)
    ensures Distinct(w) && from[0] !in w
  {
  }

  /** What stands around each place of two lists end to end, the head of the first left out. */
  lemma SplicedAround(from: seq<ListHead>, to: seq<ListHead>, w: seq<ListHead>, k: nat)
    requires |from| > 0 && |to| > 0 && w == to + from[1..] && k < |w|
    ensures var n, m := |to|, |from|;
            && (k < n ==> w[k] == to[k])
            && (k >= n ==> w[k] == from[k - n + 1])
            && w[After(|w|, k)] ==
                 (if k < n - 1 then to[After(n, k)] else if k == |w| - 1 then to[0]
                  else if k == n - 1 then from[1] else from[After(m, k - n + 1)])
            && w[Before(|w|, k)] ==
                 (if k == 0 then (if m > 1 then from[m - 1] else to[n - 1]) else if k < n then to[Before(n, k)]
                  else if k == n then to[n - 1] else from[Before(m, k - n + 1)])
  {
  }

  /** list_pop: the first of the list, taken out, or null when there is none. */
  method ListPop(head: ListHead, ghost s: seq<ListHead>) returns (r: ListHead?)
    requires List(head, s)
    modifies head, head.next, head.next.next
    ensures s == [] ==> r == null && List(head, s)
    ensures s != [] ==> r == s[0] && List(head, s[1..]) && Ring([s[0]])
  {
    var empty := ListIsEmpty(head, s);
    if empty { return null; }
    r := head.next;
    ghost var c := [head] + s;
    assert c[0] == head && c[1] == s[0];
    RingInverse(c, 0);
    Removed(head, s, 0);
    assert Without(s, 0) == s[1..];
    ListDel(r, c, 1);
  }

  /** list_pop_tail: the last. */
  method ListPopTail(head: ListHead, ghost s: seq<ListHead>) returns (r: ListHead?)
    requires List(head, s)
    modifies head, head.prev, head.prev.prev
    ensures s == [] ==> r == null && List(head, s)
    ensures s != [] ==> r == s[|s| - 1] && List(head, s[..|s| - 1]) && Ring([s[|s| - 1]])
  {
    var empty := ListIsEmpty(head, s);
    if empty { return null; }
    r := head.prev;
    ghost var c := [head] + s;
    assert c[0] == head && c[|s|] == s[|s| - 1];
    RingInverse(c, 0);
    Removed(head, s, |s| - 1);
    assert Without(s, |s| - 1) == s[..|s| - 1];
    ListDel(r, c, |s|);
  }

  /** list_for_each_entry visits the contents in order, from the node after the head until it is back
      at the head. */
  method ForEach(head: ListHead, ghost s: seq<ListHead>) returns (visited: seq<ListHead>)
    requires List(head, s)
    ensures visited == s
  {
    visited := [];
    ghost var c := [head] + s;
    assert c[0] == head;
    var pos := head.next;
    while pos != head
      invariant |visited| <= |s| && visited == s[..|visited|]
      invariant pos == c[After(|c|, |visited|)]
      decreases |s| - |visited|
    {
      assert |visited| < |s| && pos == c[|visited| + 1];
      visited := visited + [pos];
      pos := pos.next;
    }
    assert |visited| == |s|;
  }
}
