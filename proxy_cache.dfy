/*
 * The proxy's LRU object cache: a circular doubly-linked list of entries
 * with a sentinel head, most recently used first, whose head also holds
 * the total number of cached bytes.
 *
 * Each allocated `cache_entry` is a node number; node 0 is the head.  The
 * `prev` and `next` pointers are the maps `prev` and `next` from node to
 * node, an entry's request, content and size live in `entry`, and
 * `Malloc` of a fresh entry hands out the next unused number.  The ghost
 * field `order` lists the entries from `head->next` onwards.
 */
module ProxyCache {
  /** cache.h: the cache capacity in bytes. */
  const MAX_CACHE_SIZE: nat := 1049000
  /** cache.h: the largest object the proxy caches. */
  const MAX_OBJECT_SIZE: nat := 102400
  /** The sentinel node. */
  const HEAD: Node := 0

  /** A cache_entry pointer: the number of the node it points to. */
  type Node = int

  newtype byte = x: int | 0 <= x < 256

  datatype Option<T> = None | Some(value: T)

  /** The payload of a cache_entry: request string, content and its size. */
  datatype Entry = Entry(request: string, content: seq<byte>, size: nat)

  /** The bytes held by a run of entries. */
  function Total(es: seq<Entry>): nat {
    if |es| == 0 then 0 else Total(es[..|es| - 1]) + es[|es| - 1].size
  }

  lemma {:induction false} TotalPrefix(es: seq<Entry>, k: nat)
    requires k <= |es|
    ensures Total(es[..k]) <= Total(es)
    decreases |es|
  {
    if k == |es| {
      assert es[..k] == es;
    } else {
      assert es[..|es| - 1][..k] == es[..k];
      TotalPrefix(es[..|es| - 1], k);
      assert Total(es) == Total(es[..|es| - 1]) + es[|es| - 1].size;
    }
  }

  /**
   * How many entries, from the front, survive the eviction loop that
   * makes room for an object of sz bytes: the tail is dropped while the
   * total plus sz exceeds the capacity.
   */
  function Retained(es: seq<Entry>, sz: nat): (k: nat)
    requires sz <= MAX_CACHE_SIZE
    ensures k <= |es|
    ensures Total(es[..k]) + sz <= MAX_CACHE_SIZE
    ensures k < |es| ==> Total(es[..k + 1]) + sz > MAX_CACHE_SIZE
  {
    if Total(es) + sz <= MAX_CACHE_SIZE then
      assert es[..|es|] == es;
      |es|
    else
      var k := Retained(es[..|es| - 1], sz);
      assert es[..|es| - 1][..k] == es[..k];
      assert k < |es| - 1 ==> es[..|es| - 1][..k + 1] == es[..k + 1];
      assert es[..|es| - 1] == es[..|es| - 1];
      k
  }

  /** Retained is the longest prefix that leaves room: its two ensures pin it down. */
  lemma RetainedUnique(es: seq<Entry>, sz: nat, k: nat)
    requires sz <= MAX_CACHE_SIZE && k <= |es|
    requires Total(es[..k]) + sz <= MAX_CACHE_SIZE
    requires k < |es| ==> Total(es[..k + 1]) + sz > MAX_CACHE_SIZE
    ensures k == Retained(es, sz)
  {
    var r := Retained(es, sz);
    if r < k {
      TotalMonotone(es, r + 1, k);
    } else if k < r {
      TotalMonotone(es, k + 1, r);
    }
  }

  /** A longer prefix holds at least as many bytes. */
  lemma TotalMonotone(es: seq<Entry>, a: nat, b: nat)
    requires a <= b <= |es|
    ensures Total(es[..a]) <= Total(es[..b])
  {
    TotalPrefix(es[..b], a);
    assert es[..b][..a] == es[..a];
  }

  /** The index of the first entry from the front whose request is req. */
  function Find(es: seq<Entry>, req: string, i: nat := 0): (r: Option<nat>)
    requires i <= |es|
    ensures r.Some? ==> i <= r.value < |es| && es[r.value].request == req
    ensures r.Some? ==> forall j :: i <= j < r.value ==> es[j].request != req
    ensures r.None? <==> forall j :: i <= j < |es| ==> es[j].request != req
    decreases |es| - i
  {
    if i == |es| then None
    else if es[i].request == req then Some(i)
    else Find(es, req, i + 1)
  }

  /** No node occurs twice. */
  predicate Distinct(l: seq<Node>) {
    forall i, j :: 0 <= i < j < |l| ==> Apart(l, i, j)
  }

  /**
   * Positions i and j of l hold different nodes.  Distinct is stated
   * through it so that its pairs are only considered where a proof names
   * them.
   */
  predicate Apart(l: seq<Node>, i: int, j: int) {
    0 <= i < |l| && 0 <= j < |l| && l[i] != l[j]
  }

  /** Removing a position keeps the rest distinct, and the removed node is gone. */
  lemma DistinctWithout(o: seq<Node>, t: nat)
    requires Distinct(o) && t < |o|
    ensures Distinct(Without(o, t)) && o[t] !in Without(o, t)
  {
    var w := Without(o, t);
    forall i, j | 0 <= i < j < |w|
      ensures Apart(w, i, j)
    {
      var a := if i < t then i else i + 1;
      var b := if j < t then j else j + 1;
      assert Apart(o, a, b);
    }
    forall i | 0 <= i < |w|
      ensures w[i] != o[t]
    {
      if i < t {
        assert Apart(o, i, t);
      } else {
        assert Apart(o, t, i + 1);
      }
    }
  }

  /** A node not in a distinct list can go in front of it. */
  lemma DistinctCons(e: Node, o: seq<Node>)
    requires Distinct(o) && e !in o
    ensures Distinct([e] + o)
  {
    var l := [e] + o;
    forall i, j | 0 <= i < j < |l|
      ensures Apart(l, i, j)
    {
      if i > 0 {
        assert Apart(o, i - 1, j - 1);
      } else {
        assert l[j] == o[j - 1];
      }
    }
  }

  /** The neighbours of the entry at position t. */
  function Succ(o: seq<Node>, t: nat): Node
    requires t < |o|
  {
    if t + 1 < |o| then o[t + 1] else HEAD
  }

  function Pred(o: seq<Node>, t: nat): Node
    requires t < |o|
  {
    if t == 0 then HEAD else o[t - 1]
  }

  /** Following next from head visits the nodes of order and comes back to head. */
  predicate NextLinks(next: map<Node, Node>, order: seq<Node>) {
    && HEAD in next
    && (forall i :: 0 <= i < |order| ==> order[i] in next)
    && next[HEAD] == (if |order| == 0 then HEAD else order[0])
    && (forall i {:trigger next[order[i]]} :: 0 <= i < |order| ==> next[order[i]] == Succ(order, i))
  }

  /** Following prev from head visits the nodes of order backwards. */
  predicate PrevLinks(prev: map<Node, Node>, order: seq<Node>) {
    && HEAD in prev
    && (forall i :: 0 <= i < |order| ==> order[i] in prev)
    && prev[HEAD] == (if |order| == 0 then HEAD else order[|order| - 1])
    && (forall i {:trigger prev[order[i]]} :: 0 <= i < |order| ==> prev[order[i]] == Pred(order, i))
  }

  /** head and the nodes of order form a circular doubly-linked list through next and prev. */
  predicate Linked(next: map<Node, Node>, prev: map<Node, Node>, order: seq<Node>) {
    NextLinks(next, order) && PrevLinks(prev, order)
  }

  /** The first index of x in l (on a Distinct list, its only index). */
  function IndexOf(l: seq<Node>, x: Node): (t: nat)
    requires x in l
    ensures t < |l| && l[t] == x
  {
    if l[0] == x then 0 else 1 + IndexOf(l[1..], x)
  }

  /** Remove one order position. */
  function Without<T>(o: seq<T>, t: nat): (r: seq<T>)
    requires t < |o|
    ensures |r| == |o| - 1
    ensures forall j {:trigger r[j]} :: 0 <= j < |r| ==> r[j] == (if j < t then o[j] else o[j + 1])
  {
    o[..t] + o[t + 1..]
  }

  /**
   * The two writes that unlink node e from its neighbours, in the order
   * the source makes them: (e->next)->prev = e->prev, then
   * (e->prev)->next = e->next.
   */
  function Unlink(next: map<Node, Node>, prev: map<Node, Node>, e: Node): (r: (map<Node, Node>, map<Node, Node>))
    requires e in next && e in prev
  {
    var p := prev[next[e] := prev[e]];
    (next[p[e] := next[e]], p)
  }

  /**
   * The four writes that link node e right after head:
   * (head->next)->prev = e, e->prev = head, e->next = head->next,
   * head->next = e.
   */
  function LinkFront(next: map<Node, Node>, prev: map<Node, Node>, e: Node): (r: (map<Node, Node>, map<Node, Node>))
    requires HEAD in next
  {
    (next[e := next[HEAD]][HEAD := e], prev[next[HEAD] := e][e := HEAD])
  }

  /** One position of UnlinkNext: after the unlink, w[j]'s next is its successor in w. */
  lemma UnlinkNextAt(next: map<Node, Node>, o: seq<Node>, t: nat, j: nat)
    requires NextLinks(next, o) && Distinct(o) && t < |o| && j < |o| - 1
    requires forall i :: 0 <= i < |o| ==> o[i] != HEAD
    ensures var w := Without(o, t);
      next[Pred(o, t) := Succ(o, t)][w[j]] == Succ(w, j)
  {
    var w := Without(o, t);
    if j + 1 < t {
      assert w[j] == o[j] && w[j + 1] == o[j + 1];
      assert Apart(o, j, t - 1);
      assert next[o[j]] == Succ(o, j);
    } else if j + 1 == t {
      assert w[j] == o[j];
      assert j + 1 < |w| ==> w[j + 1] == o[j + 2];
    } else {
      assert w[j] == o[j + 1];
      if t > 0 {
        assert Apart(o, t - 1, j + 1);
      }
      assert next[o[j + 1]] == Succ(o, j + 1);
      assert j + 1 < |w| ==> w[j + 1] == o[j + 2];
    }
  }

  /** Pointing the predecessor of position t at its successor drops t from the next walk. */
  lemma UnlinkNext(next: map<Node, Node>, o: seq<Node>, t: nat)
    requires NextLinks(next, o) && Distinct(o) && t < |o|
    requires forall i :: 0 <= i < |o| ==> o[i] != HEAD
    ensures NextLinks(next[Pred(o, t) := Succ(o, t)], Without(o, t))
  {
    var w := Without(o, t);
    var n2 := next[Pred(o, t) := Succ(o, t)];
    forall j | 0 <= j < |w|
      ensures w[j] in n2 && n2[w[j]] == Succ(w, j)
    {
      UnlinkNextAt(next, o, t, j);
      assert w[j] == o[j] || w[j] == o[j + 1];
    }
    if t > 0 {
      assert w[0] == o[0];
    }
  }

  /** One position of UnlinkPrev: after the unlink, w[j]'s prev is its predecessor in w. */
  lemma UnlinkPrevAt(prev: map<Node, Node>, o: seq<Node>, t: nat, j: nat)
    requires PrevLinks(prev, o) && Distinct(o) && t < |o| && j < |o| - 1
    requires forall i :: 0 <= i < |o| ==> o[i] != HEAD
    ensures var w := Without(o, t);
      prev[Succ(o, t) := Pred(o, t)][w[j]] == Pred(w, j)
  {
    var w := Without(o, t);
    if j < t {
      assert w[j] == o[j];
      if t + 1 < |o| {
        assert Apart(o, j, t + 1);
      }
      assert prev[o[j]] == Pred(o, j);
      assert j > 0 ==> w[j - 1] == o[j - 1];
    } else if j == t {
      assert w[j] == o[j + 1];
      assert j > 0 ==> w[j - 1] == o[j - 1];
    } else {
      assert w[j] == o[j + 1] && w[j - 1] == o[j];
      assert Apart(o, t + 1, j + 1);
      assert prev[o[j + 1]] == Pred(o, j + 1);
    }
  }

  /** After the unlink head's prev is the last node of w. */
  lemma UnlinkPrevHead(prev: map<Node, Node>, o: seq<Node>, t: nat)
    requires PrevLinks(prev, o) && t < |o|
    requires forall i :: 0 <= i < |o| ==> o[i] != HEAD
    ensures var w := Without(o, t);
      prev[Succ(o, t) := Pred(o, t)][HEAD] == (if |w| == 0 then HEAD else w[|w| - 1])
  {
    var w := Without(o, t);
    if t + 1 < |o| {
      assert w[|w| - 1] == o[|o| - 1];
      assert Succ(o, t) == o[t + 1] != HEAD;
    } else if t > 0 {
      assert w[|w| - 1] == o[t - 1];
    }
  }

  /** Pointing the successor of position t back at its predecessor drops t from the prev walk. */
  lemma UnlinkPrev(prev: map<Node, Node>, o: seq<Node>, t: nat)
    requires PrevLinks(prev, o) && Distinct(o) && t < |o|
    requires forall i :: 0 <= i < |o| ==> o[i] != HEAD
    ensures PrevLinks(prev[Succ(o, t) := Pred(o, t)], Without(o, t))
  {
    var w := Without(o, t);
    var p2 := prev[Succ(o, t) := Pred(o, t)];
    UnlinkPrevHead(prev, o, t);
    forall j | 0 <= j < |w|
      ensures w[j] in p2 && p2[w[j]] == Pred(w, j)
    {
      UnlinkPrevAt(prev, o, t, j);
      assert w[j] == o[j] || w[j] == o[j + 1];
    }
  }

  /** Unlinking the entry at position t leaves the others linked in their order. */
  lemma UnlinkOk(next: map<Node, Node>, prev: map<Node, Node>, o: seq<Node>, t: nat)
    requires Linked(next, prev, o) && Distinct(o) && t < |o|
    requires forall i :: 0 <= i < |o| ==> o[i] != HEAD
    ensures var r := Unlink(next, prev, o[t]); Linked(r.0, r.1, Without(o, t))
  {
    var e := o[t];
    assert next[e] == Succ(o, t) && prev[e] == Pred(o, t);
    if t + 1 < |o| {
      assert Apart(o, t, t + 1);
    }
    UnlinkNext(next, o, t);
    UnlinkPrev(prev, o, t);
  }

  /** Linking a node that is not yet in the list puts it first. */
  lemma LinkFrontOk(next: map<Node, Node>, prev: map<Node, Node>, o: seq<Node>, e: Node)
    requires Linked(next, prev, o) && Distinct(o) && e !in o && e != HEAD
    requires forall i :: 0 <= i < |o| ==> o[i] != HEAD
    ensures var r := LinkFront(next, prev, e); Linked(r.0, r.1, [e] + o)
  {
    var r := LinkFront(next, prev, e);
    var o2 := [e] + o;
    forall j | 0 < j < |o2|
      ensures r.1[o2[j]] == o2[j - 1]
    {
      assert o2[j] == o[j - 1];
      if j > 1 {
        assert Apart(o, 0, j - 1);
      }
    }
    forall j | 0 < j < |o2|
      ensures r.0[o2[j]] == (if j + 1 < |o2| then o2[j + 1] else HEAD)
    {
      assert o2[j] == o[j - 1];
    }
  }

  /** The payload of node x (an empty one for a node that has none). */
  function EntryAt(entry: map<Node, Entry>, x: Node): Entry {
    if x in entry then entry[x] else Entry([], [], 0)
  }

  /** The entries the nodes of order carry, most recently used first. */
  function Entries(entry: map<Node, Entry>, order: seq<Node>): (es: seq<Entry>)
    ensures |es| == |order|
    ensures forall i {:trigger es[i]} :: 0 <= i < |order| ==> es[i] == EntryAt(entry, order[i])
  {
    seq(|order|, i requires 0 <= i < |order| => EntryAt(entry, order[i]))
  }

  /**
   * What the cache keeps true between calls: the list is circular and
   * doubly linked through head, holds every live node once, and head's
   * size is the sum of the entries' sizes.
   */
  predicate Inv(next: map<Node, Node>, prev: map<Node, Node>, entry: map<Node, Entry>, order: seq<Node>, nextId: Node, total: nat) {
    && Linked(next, prev, order)
    && Distinct(order)
    && HEAD < nextId
    && Live(entry, order, nextId)
    && total == Total(Entries(entry, order))
  }

  /** Every listed node is a real, allocated entry. */
  predicate Live(entry: map<Node, Entry>, order: seq<Node>, nextId: Node) {
    forall i :: 0 <= i < |order| ==> HEAD < order[i] < nextId && order[i] in entry
  }

  /* ---------- evict ---------- */

  /** Unlinking the tail leaves the rest of the list linked, each node once. */
  lemma EvictLinks(next: map<Node, Node>, prev: map<Node, Node>, order: seq<Node>)
    requires Linked(next, prev, order) && Distinct(order) && |order| > 0
    requires forall i :: 0 <= i < |order| ==> order[i] != HEAD
    ensures var n := |order|; var r := Unlink(next, prev, order[n - 1]);
      Linked(r.0, r.1, order[..n - 1]) && Distinct(order[..n - 1])
  {
    var n := |order|;
    UnlinkOk(next, prev, order, n - 1);
    DistinctWithout(order, n - 1);
    var w := Without(order, n - 1);
    assert w == order[..n - 1];
  }

  /** Dropping the tail node drops the last entry, and its size from the total. */
  lemma EvictEntries(entry: map<Node, Entry>, order: seq<Node>)
    requires |order| > 0
    ensures var n := |order|; var es := Entries(entry, order);
      && Entries(entry, order[..n - 1]) == es[..n - 1]
      && Total(es[..n - 1]) + EntryAt(entry, order[n - 1]).size == Total(es)
  {
    var n := |order|;
    var es := Entries(entry, order);
    var a := Entries(entry, order[..n - 1]);
    forall j | 0 <= j < n - 1
      ensures a[j] == es[j]
    {
      assert order[..n - 1][j] == order[j];
    }
    assert a == es[..n - 1];
  }

  /** evict on a non-empty list: head->prev is the tail, a live entry within the total. */
  lemma EvictTail(next: map<Node, Node>, prev: map<Node, Node>, entry: map<Node, Entry>, order: seq<Node>, nextId: Node, total: nat)
    requires Inv(next, prev, entry, order, nextId, total) && |order| > 0
    ensures var t := order[|order| - 1];
      && prev[HEAD] == t && t != HEAD && t in entry && t in next && t in prev
      && entry[t].size <= total
  {
    EvictEntries(entry, order);
  }

  /** evict on a non-empty list: the tail leaves and its size comes off the total. */
  lemma EvictOk(next: map<Node, Node>, prev: map<Node, Node>, entry: map<Node, Entry>, order: seq<Node>, nextId: Node, total: nat)
    requires Inv(next, prev, entry, order, nextId, total) && |order| > 0
    ensures var n := |order|; var t := order[n - 1]; var r := Unlink(next, prev, t);
      && t in entry && entry[t].size <= total
      && Inv(r.0, r.1, entry, order[..n - 1], nextId, total - entry[t].size)
      && Entries(entry, order[..n - 1]) == Entries(entry, order)[..n - 1]
  {
    var n := |order|;
    EvictLinks(next, prev, order);
    EvictEntries(entry, order);
    var o2 := order[..n - 1];
    assert Live(entry, o2, nextId) by {
      forall i | 0 <= i < |o2| ensures HEAD < o2[i] < nextId && o2[i] in entry {
        assert o2[i] == order[i];
      }
    }
  }

  /* ---------- insert_cache_entry ---------- */

  /** Allocating the entry of a fresh node does not disturb the list. */
  lemma AllocOk(next: map<Node, Node>, prev: map<Node, Node>, entry: map<Node, Entry>, order: seq<Node>, nextId: Node, total: nat, x: Entry)
    requires Inv(next, prev, entry, order, nextId, total)
    ensures Inv(next, prev, entry[nextId := x], order, nextId + 1, total)
    ensures Entries(entry[nextId := x], order) == Entries(entry, order)
  {
    assert Entries(entry[nextId := x], order) == Entries(entry, order);
  }

  /** A node not yet listed goes first, with its entry. */
  lemma LinkNewEntries(entry: map<Node, Entry>, order: seq<Node>, id: Node)
    requires id in entry
    ensures Entries(entry, [id] + order) == [entry[id]] + Entries(entry, order)
    ensures Total(Entries(entry, [id] + order)) == entry[id].size + Total(Entries(entry, order))
  {
    var es := Entries(entry, order);
    assert Entries(entry, [id] + order) == [entry[id]] + es;
    TotalAppend([entry[id]], es);
    assert [entry[id]][..0] == [];
  }

  /** Linking the freshly allocated node at the front adds its entry first. */
  lemma LinkNewOk(next: map<Node, Node>, prev: map<Node, Node>, entry: map<Node, Entry>, order: seq<Node>, nextId: Node, total: nat, id: Node)
    requires Inv(next, prev, entry, order, nextId, total)
    requires HEAD < id < nextId && id in entry && id !in order
    ensures var r := LinkFront(next, prev, id);
      && Inv(r.0, r.1, entry, [id] + order, nextId, total + entry[id].size)
      && Entries(entry, [id] + order) == [entry[id]] + Entries(entry, order)
  {
    LinkFrontOk(next, prev, order, id);
    DistinctCons(id, order);
    LinkNewEntries(entry, order, id);
    var o2 := [id] + order;
    assert Live(entry, o2, nextId) by {
      forall i | 0 < i < |o2| ensures HEAD < o2[i] < nextId && o2[i] in entry {
        assert o2[i] == order[i - 1];
      }
    }
  }

  /* ---------- move2front ---------- */

  /** Moving the node at position t to the front moves its entry there too. */
  lemma MoveEntries(entry: map<Node, Entry>, order: seq<Node>, t: nat)
    requires t < |order|
    ensures var es := Entries(entry, order);
      && Entries(entry, [order[t]] + Without(order, t)) == [es[t]] + Without(es, t)
      && Total([es[t]] + Without(es, t)) == Total(es)
  {
    var es := Entries(entry, order);
    var a := Entries(entry, [order[t]] + Without(order, t));
    var b := [es[t]] + Without(es, t);
    forall j | 0 <= j < |a|
      ensures a[j] == b[j]
    {
      if j > 0 {
        assert ([order[t]] + Without(order, t))[j] == Without(order, t)[j - 1];
        assert b[j] == Without(es, t)[j - 1];
      }
    }
    assert a == b;
    var x, l, r := es[t], es[..t], es[t + 1..];
    assert es == l + [x] + r;
    assert b == [x] + l + r;
    TotalMoved(l, x, r);
  }

  /** Unlinking the node at position t and linking it at the front moves it first. */
  lemma MoveLinks(next: map<Node, Node>, prev: map<Node, Node>, o: seq<Node>, t: nat)
    requires Linked(next, prev, o) && Distinct(o) && t < |o|
    requires forall i :: 0 <= i < |o| ==> o[i] != HEAD
    ensures var e := o[t]; var u := Unlink(next, prev, e); var r := LinkFront(u.0, u.1, e);
      Linked(r.0, r.1, [e] + Without(o, t)) && Distinct([e] + Without(o, t))
  {
    var e := o[t];
    var w := Without(o, t);
    UnlinkOk(next, prev, o, t);
    DistinctWithout(o, t);
    var u := Unlink(next, prev, e);
    LinkFrontOk(u.0, u.1, w, e);
    DistinctCons(e, w);
  }

  /** move2front, corrected: unlink, then link at the front. */
  lemma MoveOk(next: map<Node, Node>, prev: map<Node, Node>, entry: map<Node, Entry>, order: seq<Node>, nextId: Node, total: nat, t: nat)
    requires Inv(next, prev, entry, order, nextId, total) && t < |order|
    ensures var e := order[t]; var u := Unlink(next, prev, e); var r := LinkFront(u.0, u.1, e);
      && Inv(r.0, r.1, entry, [e] + Without(order, t), nextId, total)
      && Entries(entry, [e] + Without(order, t)) == [Entries(entry, order)[t]] + Without(Entries(entry, order), t)
  {
    MoveLinks(next, prev, order, t);
    MoveEntries(entry, order, t);
    LiveMoved(entry, order, nextId, t);
  }

  lemma LiveMoved(entry: map<Node, Entry>, order: seq<Node>, nextId: Node, t: nat)
    requires Live(entry, order, nextId) && t < |order|
    ensures Live(entry, [order[t]] + Without(order, t), nextId)
  {
    var o2 := [order[t]] + Without(order, t);
    forall i | 0 < i < |o2| ensures HEAD < o2[i] < nextId && o2[i] in entry {
      assert o2[i] == Without(order, t)[i - 1];
    }
  }

  class Cache {
    var next: map<Node, Node>
    var prev: map<Node, Node>
    var entry: map<Node, Entry>
    /** head->size: the bytes of all cached objects. */
    var total: nat
    /** The next node number Malloc hands out. */
    var nextId: Node
    ghost var order: seq<Node>

    ghost predicate Valid()
      reads this
    {
      Inv(next, prev, entry, order, nextId, total)
    }

    /** The cached objects, most recently used first. */
    ghost function Contents(): seq<Entry>
      reads this
    {
      Entries(entry, order)
    }

    /** init_cache: an empty list whose head points to itself both ways, holding 0 bytes. */
    constructor InitCache()
      ensures Valid()
      ensures next[HEAD] == HEAD && prev[HEAD] == HEAD && total == 0
      ensures Contents() == []
    {
      next := map[HEAD := HEAD];
      prev := map[HEAD := HEAD];
      entry := map[];
      total := 0;
      nextId := 1;
      order := [];
    }

    /**
     * evict: unlink the tail, head->prev, the least recently used entry,
     * and take its size off the total.  An empty cache is left alone.
     */
    method Evict()
      requires Valid()
      modifies this
      ensures Valid()
      ensures |old(order)| == 0 ==> order == old(order) && total == old(total)
      ensures |old(order)| > 0 ==>
        && order == old(order)[..|old(order)| - 1]
        && Contents() == old(Contents())[..|old(order)| - 1]
        && total == Total(old(Contents())[..|old(order)| - 1])
      ensures entry == old(entry) && nextId == old(nextId)
    {
      var tail := prev[HEAD];
      if tail == HEAD {
        return;
      }
      EvictTail(next, prev, entry, order, nextId, total);
      EvictOk(next, prev, entry, order, nextId, total);
      var r := Unlink(next, prev, tail);
      SetState(r.0, r.1, entry, total - entry[tail].size, nextId, order[..|order| - 1]);
    }

    /**
     * insert_cache_entry: evict from the tail until the object fits, then
     * link a copy of it right after head and add its size to the total.
     * The proxy only offers objects below MAX_OBJECT_SIZE, and a larger
     * one than the capacity would make the eviction loop spin for ever.
     */
    method InsertCacheEntry(request: string, content: seq<byte>, size: nat)
      requires Valid() && size <= MAX_CACHE_SIZE && size <= |content|
      modifies this
      ensures Valid()
      ensures Contents() == [Entry(request, content[..size], size)] + old(Contents())[..Retained(old(Contents()), size)]
      ensures total <= MAX_CACHE_SIZE
    {
      var x := Entry(request, content[..size], size);
      var id := nextId;
      AllocOk(next, prev, entry, order, nextId, total, x);
      SetState(next, prev, entry[id := x], total, nextId + 1, order);
      MakeRoom(size);
      LinkNewOk(next, prev, entry, order, nextId, total, id);
      var r := LinkFront(next, prev, id);
      SetState(r.0, r.1, entry, total + size, nextId, [id] + order);
    }

    /**
     * The eviction loop of insert_cache_entry: while head->size plus the
     * new object's size exceeds the capacity, evict the tail.  What stays
     * is the longest prefix that leaves room.
     */
    method MakeRoom(size: nat)
      requires Valid() && size <= MAX_CACHE_SIZE
      modifies this
      ensures Valid()
      ensures order == old(order)[..Retained(old(Contents()), size)]
      ensures Contents() == old(Contents())[..Retained(old(Contents()), size)]
      ensures total + size <= MAX_CACHE_SIZE
      ensures entry == old(entry) && nextId == old(nextId)
    {
      ghost var c0, o0 := Contents(), order;
      while MAX_CACHE_SIZE < total + size
        invariant Valid() && entry == old(entry) && nextId == old(nextId)
        invariant |order| <= |o0| && order == o0[..|order|] && Contents() == c0[..|order|]
        invariant |order| < |o0| ==> Total(c0[..|order| + 1]) + size > MAX_CACHE_SIZE
        decreases |order|
      {
        ghost var n := |order|;
        assert Total(c0[..n]) + size > MAX_CACHE_SIZE;
        Evict();
        assert c0[..n][..n - 1] == c0[..n - 1];
        assert o0[..n][..n - 1] == o0[..n - 1];
      }
      RetainedUnique(c0, size, |order|);
    }

    /**
     * is_cached: walk from head->next and return the first entry whose
     * request equals req, or NULL (None) if none does.
     */
    method IsCached(req: string) returns (r: Option<Node>)
      requires Valid()
      ensures r.None? <==> Find(Contents(), req).None?
      ensures r.Some? ==> r.value == order[Find(Contents(), req).value] && r.value in entry && entry[r.value].request == req
    {
      var cursor := next[HEAD];
      ghost var i := 0;
      while cursor != HEAD
        invariant 0 <= i <= |order|
        invariant cursor == (if i < |order| then order[i] else HEAD)
        invariant Find(Contents(), req, i) == Find(Contents(), req)
        decreases |order| - i
      {
        if entry[cursor].request == req {
          return Some(cursor);
        }
        cursor := next[cursor];
        i := i + 1;
      }
      return None;
    }

    /**
     * move2front as its comment intends: unlink entry from its
     * neighbours, then link it right after head.  The rest keep their
     * order and nothing else changes.
     */
    method Move2Front(e: Node)
      requires Valid() && e in order
      modifies this
      ensures Valid()
      ensures var t := IndexOf(old(order), e);
        && order == [e] + Without(old(order), t)
        && Contents() == [old(Contents())[t]] + Without(old(Contents()), t)
      ensures entry == old(entry) && total == old(total) && nextId == old(nextId)
    {
      ghost var t := IndexOf(order, e);
      MoveOk(next, prev, entry, order, nextId, total, t);
      var u := Unlink(next, prev, e);
      var r := LinkFront(u.0, u.1, e);
      SetState(r.0, r.1, entry, total, nextId, [e] + Without(order, t));
    }

    /**
     * The field writes of one operation, made together: the new links,
     * payloads, head->size and allocation counter.
     */
    method SetState(n: map<Node, Node>, p: map<Node, Node>, en: map<Node, Entry>, s: nat, id: Node, ghost o: seq<Node>)
      modifies this
      ensures next == n && prev == p && entry == en && total == s && nextId == id && order == o
    {
      next, prev, entry, total, nextId, order := n, p, en, s, id, o;
    }
  }

  lemma {:induction false} TotalAppend(a: seq<Entry>, b: seq<Entry>)
    ensures Total(a + b) == Total(a) + Total(b)
    decreases |b|
  {
    if |b| == 0 {
      assert a + b == a;
    } else {
      assert (a + b)[..|a + b| - 1] == a + b[..|b| - 1];
      TotalAppend(a, b[..|b| - 1]);
    }
  }

  /** Moving one entry to the front keeps the total. */
  lemma TotalMoved(a: seq<Entry>, x: Entry, b: seq<Entry>)
    ensures Total([x] + a + b) == Total(a + [x] + b)
  {
    TotalAppend([x] + a, b);
    TotalAppend([x], a);
    TotalAppend(a + [x], b);
    TotalAppend(a, [x]);
    assert [x][..0] == [];
  }

  /* ---------- move2front as written ---------- */

  /**
   * The six pointer writes of move2front in the order the source makes
   * them: the front link first, the unlink second.  By then e's
   * neighbours are head and the old first entry, so the unlink undoes
   * the first and the fourth write, and e's old neighbours still point
   * at e.
   */
  function Move2FrontAsWritten(next: map<Node, Node>, prev: map<Node, Node>, e: Node): (r: (map<Node, Node>, map<Node, Node>))
    requires HEAD in next
  {
    var l := LinkFront(next, prev, e);
    Unlink(l.0, l.1, e)
  }

  /**
   * On the links move2front leaves behind in the example below, the walk
   * from head alternates between entries 1 and 2.
   */
  lemma {:induction false} AsWrittenWalk(next: map<Node, Node>, o: seq<Node>, k: nat)
    requires next == map[HEAD := 1, 1 := 2, 2 := 1] && NextLinks(next, o) && k < |o|
    ensures o[k] == if k % 2 == 0 then 1 else 2
  {
    if k > 0 {
      AsWrittenWalk(next, o, k - 1);
      assert next[o[k - 1]] == Succ(o, k - 1) == o[k];
    }
  }

  /**
   * With two cached entries 1 then 2, moving entry 2 to the front
   * leaves next links that no list of entries matches: the walk from
   * head goes 1, 2, 1, ... and never returns to head.
   */
  lemma Move2FrontAsWrittenBreaks()
    ensures var next := map[HEAD := 1, 1 := 2, 2 := HEAD];
      var prev := map[HEAD := 2, 1 := HEAD, 2 := 1];
      && Linked(next, prev, [1, 2])
      && var r := Move2FrontAsWritten(next, prev, 2);
      && r.0[HEAD] == 1 && r.0[1] == 2 && r.0[2] == 1
      && forall o :: !NextLinks(r.0, o)
  {
    var next := map[HEAD := 1, 1 := 2, 2 := HEAD];
    var prev := map[HEAD := 2, 1 := HEAD, 2 := 1];
    var r := Move2FrontAsWritten(next, prev, 2);
    assert r.0 == map[HEAD := 1, 1 := 2, 2 := 1];
    forall o
      ensures !NextLinks(r.0, o)
    {
      if NextLinks(r.0, o) && |o| > 0 {
        AsWrittenWalk(r.0, o, |o| - 1);
      }
    }
  }

  /** An object the proxy admits (below MAX_OBJECT_SIZE) fits in an empty cache. */
  lemma AdmittedObjectFits(size: nat)
    requires size < MAX_OBJECT_SIZE
    ensures size <= MAX_CACHE_SIZE && Retained([], size) == 0
  {
  }
}
