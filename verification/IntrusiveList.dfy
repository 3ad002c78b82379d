/** The circular doubly linked list of list.h, on the heap.

A list head and its entries form one cycle of `ListHead` nodes.  `Cycle(c)` says that the nodes of
`c`, in this order, are such a cycle; by convention the list head is `c[0]`, so the entries of the
list are `c[1..]`.  The two poison addresses of list.h are modelled by `null`: both exist only so
that following them fails, and the verifier rejects every dereference of a pointer that may be null.
 */
module IntrusiveList {

  /** struct list_head, together with what `container_of` recovers from the address of a node:
      the object the node is embedded in. */
  class ListHead<T> {
    var next: ListHead?<T>
    var prev: ListHead?<T>
    var container: T

    /** A node whose links point to itself, as INIT_LIST_HEAD leaves it. */
    constructor (container: T)
      ensures Cycle([this])
      ensures this.container == container
    {
      next := this;
      prev := this;
      this.container := container;
    }
  }

  ghost predicate Distinct<X>(s: seq<X>) {
    forall i, j :: 0 <= i < j < |s| ==> s[i] != s[j]
  }

  ghost predicate Cycle<T>(c: seq<ListHead<T>>)
    reads c
  {
    && |c| > 0
    && Distinct(c)
    && (forall i {:trigger c[i].next} :: 0 <= i < |c| - 1 ==> c[i].next == c[i + 1])
    && (forall i {:trigger c[i].prev} :: 1 <= i < |c| ==> c[i].prev == c[i - 1])
    && c[|c| - 1].next == c[0]
    && c[0].prev == c[|c| - 1]
  }

  /** The index after `k`, going round. */
  function Succ(n: nat, k: nat): nat
    requires k < n
  {
    if k == n - 1 then 0 else k + 1
  }

  /** The index before `k`, going round. */
  function Pred(n: nat, k: nat): nat
    requires k < n
  {
    if k == 0 then n - 1 else k - 1
  }

  /** `c` with `x` put in front of position `k`. */
  function Insert<X>(c: seq<X>, k: nat, x: X): seq<X>
    requires k <= |c|
  {
    c[..k] + [x] + c[k..]
  }

  /** `c` without position `k`. */
  function Remove<X>(c: seq<X>, k: nat): seq<X>
    requires k < |c|
  {
    c[..k] + c[k + 1..]
  }

  lemma RemoveLeavesTheRest<X>(c: seq<X>, k: nat)
    requires Distinct(c) && k < |c|
    ensures Distinct(Remove(c, k)) && c[k] !in Remove(c, k)
    ensures forall x :: x in Remove(c, k) <==> x in c && x != c[k]
  {
    var r := Remove(c, k);
    forall x | x in c && x != c[k] ensures x in r {
      var i :| 0 <= i < |c| && c[i] == x;
      assert if i < k then r[i] == x else r[i - 1] == x;
    }
  }

  /** And leaves it where it is, but for the gap. */
  lemma RemoveKeepsOrder<X>(c: seq<X>, k: nat)
    requires k < |c|
    ensures |Remove(c, k)| == |c| - 1
    ensures forall i :: 0 <= i < |c| - 1 ==> Remove(c, k)[i] == if i < k then c[i] else c[i + 1]
  {
  }

  /** An insertion is undone by a removal. */
  lemma RemoveInserted<X>(c: seq<X>, k: nat, x: X)
    requires k <= |c|
    ensures Insert(c, k, x)[k] == x && Remove(Insert(c, k, x), k) == c
  {
  }

  // ---------------------------------------------------------------------------------------------
  // What a well-formed ring means for a reader that only follows pointers.

  /** Forward and backward links are each other's inverse, and never leave the ring. */
  lemma LinksAreInverse<T>(c: seq<ListHead<T>>, k: nat)
    requires Cycle(c) && k < |c|
    ensures c[k].next == c[Succ(|c|, k)] && c[k].prev == c[Pred(|c|, k)]
    ensures c[k].next.prev == c[k] && c[k].prev.next == c[k]
  {
    if k < |c| - 1 {
      assert c[k + 1].prev == c[k];
    }
    if k > 0 {
      assert c[k - 1].next == c[k];
    }
  }

  /** The contents of a list are determined by the address of its head: there is one cycle through
      a node. */
  lemma {:induction false} CycleIsUnique<T>(c: seq<ListHead<T>>, d: seq<ListHead<T>>)
    requires Cycle(c) && Cycle(d) && c[0] == d[0]
    ensures c == d
  {
    var m := if |c| <= |d| then |c| else |d|;
    AgreeUpTo(c, d, m);
    LinksAreInverse(c, m - 1);
    LinksAreInverse(d, m - 1);
  }

  lemma {:induction false} AgreeUpTo<T>(c: seq<ListHead<T>>, d: seq<ListHead<T>>, m: nat)
    requires Cycle(c) && Cycle(d) && c[0] == d[0]
    requires m <= |c| && m <= |d|
    ensures forall i :: 0 <= i < m ==> c[i] == d[i]
  {
    if m > 1 {
      AgreeUpTo(c, d, m - 1);
      assert c[m - 2].next == c[m - 1] && d[m - 2].next == d[m - 1];
    }
  }

  // ---------------------------------------------------------------------------------------------
  // The operations of list.h.

  /** INIT_LIST_HEAD */
  method InitListHead<T>(ptr: ListHead<T>)
    modifies ptr`next, ptr`prev
    ensures Cycle([ptr])
  {
    ptr.next := ptr;
    ptr.prev := ptr;
  }

  /** __list_add: `n` goes between two neighbours of the ring `c`. */
  method AddBetween<T>(n: ListHead<T>, prev: ListHead<T>, next: ListHead<T>,
                       ghost c: seq<ListHead<T>>, ghost k: nat)
    requires Cycle(c) && n !in c
    requires k < |c| && prev == c[k] && next == c[Succ(|c|, k)]
    modifies next`prev, n`next, n`prev, prev`next
    ensures Cycle(Insert(c, k + 1, n))
  {
    next.prev := n;
    n.next := next;
    n.prev := prev;
    prev.next := n;
    ghost var r := Insert(c, k + 1, n);
    assert forall i :: 0 <= i <= k ==> r[i] == c[i];
    assert forall i :: k + 1 < i < |r| ==> r[i] == c[i - 1];
  }

  /** list_add: `n` becomes the first entry. */
  method Add<T>(n: ListHead<T>, head: ListHead<T>, ghost c: seq<ListHead<T>>)
    requires Cycle(c) && n !in c && head == c[0]
    modifies n`next, n`prev, c`next, c`prev
    ensures Cycle([head, n] + c[1..])
  {
    LinksAreInverse(c, 0);
    AddBetween(n, head, head.next, c, 0);
    assert Insert(c, 1, n) == [head, n] + c[1..];
  }

  /** list_add_tail: `n` becomes the last entry. */
  method AddTail<T>(n: ListHead<T>, head: ListHead<T>, ghost c: seq<ListHead<T>>)
    requires Cycle(c) && n !in c && head == c[0]
    modifies n`next, n`prev, c`next, c`prev
    ensures Cycle(c + [n])
  {
    AddBetween(n, head.prev, head, c, |c| - 1);
    assert Insert(c, |c|, n) == c + [n];
  }

  /** __list_del: the node between `prev` and `next` leaves the ring; its own links stay as they are. */
  method DelBetween<T>(prev: ListHead<T>, next: ListHead<T>, ghost c: seq<ListHead<T>>, ghost k: nat)
    requires Cycle(c) && |c| >= 2 && k < |c|
    requires prev == c[Pred(|c|, k)] && next == c[Succ(|c|, k)]
    modifies next`prev, prev`next
    ensures Cycle(Remove(c, k))
  {
    next.prev := prev;
    prev.next := next;
    ghost var r := Remove(c, k);
    assert forall i :: 0 <= i < k ==> r[i] == c[i];
    assert forall i :: k <= i < |r| ==> r[i] == c[i + 1];
  }

  /** list_del: the entry is removed and its links are poisoned. */
  method Del<T>(entry: ListHead<T>, ghost c: seq<ListHead<T>>, ghost k: nat)
    requires Cycle(c) && |c| >= 2 && k < |c| && entry == c[k]
    modifies c`next, c`prev
    ensures Cycle(Remove(c, k))
    ensures entry.next == null && entry.prev == null
  {
    LinksAreInverse(c, k);
    DelBetween(entry.prev, entry.next, c, k);
    entry.next := null;
    entry.prev := null;
  }

  /** list_del_init: the entry is removed and becomes an empty list of its own. */
  method DelInit<T>(entry: ListHead<T>, ghost c: seq<ListHead<T>>, ghost k: nat)
    requires Cycle(c) && |c| >= 2 && k < |c| && entry == c[k]
    modifies c`next, c`prev
    ensures Cycle(Remove(c, k)) && Cycle([entry])
  {
    LinksAreInverse(c, k);
    DelBetween(entry.prev, entry.next, c, k);
    InitListHead(entry);
  }

  ghost predicate Disjoint<X>(c: seq<X>, d: seq<X>) {
    forall i, j :: 0 <= i < |c| && 0 <= j < |d| ==> c[i] != d[j]
  }

  /** list_move: entry `k` of the list `c` becomes the first entry of the list `d`, which is either
      another list or `c` itself. */
  method Move<T>(entry: ListHead<T>, head: ListHead<T>,
                 ghost c: seq<ListHead<T>>, ghost k: nat, ghost d: seq<ListHead<T>>)
    requires Cycle(c) && 1 <= k < |c| && entry == c[k]
    requires Cycle(d) && head == d[0]
    requires c == d || Disjoint(c, d)
    modifies c`next, c`prev, d`next, d`prev
    ensures c == d ==> Cycle([head, entry] + Remove(c, k)[1..])
    ensures c != d ==> Cycle(Remove(c, k)) && Cycle([head, entry] + d[1..])
  {
    LinksAreInverse(c, k);
    RemoveLeavesTheRest(c, k);
    DelBetween(entry.prev, entry.next, c, k);
    ghost var rest := Remove(c, k);
    ghost var target := if c == d then rest else d;
    assert c != d ==> Cycle(d) && Disjoint(rest, d) && entry !in d;
    Add(entry, head, target);
  }

  /** list_move_tail: entry `k` of the list `c` becomes the last entry of the list `d`, which is
      either another list or `c` itself. */
  method MoveTail<T>(entry: ListHead<T>, head: ListHead<T>,
                     ghost c: seq<ListHead<T>>, ghost k: nat, ghost d: seq<ListHead<T>>)
    requires Cycle(c) && 1 <= k < |c| && entry == c[k]
    requires Cycle(d) && head == d[0]
    requires c == d || Disjoint(c, d)
    modifies c`next, c`prev, d`next, d`prev
    ensures c == d ==> Cycle(Remove(c, k) + [entry])
    ensures c != d ==> Cycle(Remove(c, k)) && Cycle(d + [entry])
  {
    LinksAreInverse(c, k);
    RemoveLeavesTheRest(c, k);
    DelBetween(entry.prev, entry.next, c, k);
    ghost var rest := Remove(c, k);
    ghost var target := if c == d then rest else d;
    assert c != d ==> Cycle(d) && Disjoint(rest, d) && entry !in d;
    AddTail(entry, head, target);
  }

  /** list_empty */
  predicate Empty<T>(head: ListHead<T>)
    reads head
  {
    head.next == head
  }

  lemma EmptyMeansNoEntries<T>(c: seq<ListHead<T>>)
    requires Cycle(c)
    ensures Empty(c[0]) <==> |c| == 1
  {
    LinksAreInverse(c, 0);
  }

  /** __list_splice: the entries of `c` go between the head of `d` and its first entry. */
  method SpliceBetween<T>(list: ListHead<T>, head: ListHead<T>,
                          ghost c: seq<ListHead<T>>, ghost d: seq<ListHead<T>>)
    requires Cycle(c) && list == c[0] && |c| >= 2
    requires Cycle(d) && head == d[0]
    requires Disjoint(c, d)
    modifies c[1..]`next, c[1..]`prev, d`next, d`prev
    ensures Cycle([head] + c[1..] + d[1..])
  {
    LinksAreInverse(c, 0);
    LinksAreInverse(d, 0);
    var first, last, at := list.next, list.prev, head.next;
    first.prev := head;
    head.next := first;
    last.next := at;
    at.prev := last;
    ghost var merged := [head] + c[1..] + d[1..];
    assert forall i :: 1 <= i < |c| ==> merged[i] == c[i];
    assert forall i :: |c| <= i < |merged| ==> merged[i] == d[i - |c| + 1];
  }

  /** list_splice: as above unless `list` is empty.  The head of `c` is not reinitialised: its links
      still lead into the ring its entries have moved to. */
  method Splice<T>(list: ListHead<T>, head: ListHead<T>,
                   ghost c: seq<ListHead<T>>, ghost d: seq<ListHead<T>>)
    requires Cycle(c) && list == c[0]
    requires Cycle(d) && head == d[0]
    requires Disjoint(c, d)
    modifies c[1..]`next, c[1..]`prev, d`next, d`prev
    ensures Cycle([head] + c[1..] + d[1..])
    ensures |c| >= 2 ==> list.next == c[1] && list.prev == c[|c| - 1]
  {
    LinksAreInverse(c, 0);
    EmptyMeansNoEntries(c);
    if !Empty(list) {
      SpliceBetween(list, head, c, d);
    } else {
      assert [head] + c[1..] + d[1..] == d;
    }
  }

  /** list_splice_init: `head` gets the entries of both lists, those of `list` first, and `list`
      becomes empty. */
  method SpliceInit<T>(list: ListHead<T>, head: ListHead<T>,
                       ghost c: seq<ListHead<T>>, ghost d: seq<ListHead<T>>)
    requires Cycle(c) && list == c[0]
    requires Cycle(d) && head == d[0]
    requires Disjoint(c, d)
    modifies c`next, c`prev, d`next, d`prev
    ensures Cycle([head] + c[1..] + d[1..])
    ensures Cycle([list])
  {
    EmptyMeansNoEntries(c);
    if !Empty(list) {
      SpliceBetween(list, head, c, d);
      InitListHead(list);
    } else {
      assert [head] + c[1..] + d[1..] == d;
      assert c == [list];
    }
  }
}
