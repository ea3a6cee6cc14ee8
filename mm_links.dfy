/*
 * The free-list operations of the segregated-fit allocator
 * (malloclab-handout/mm.c, insert and delete) at the level of heap words.
 *
 * A list node's next offset is the word at its address and its prev
 * offset the word after it; the dummy of list c sits at Dummy(c).  The
 * lemmas here take the words the allocator's methods compute and show
 * that the lists they describe are the expected ones: insert pushes the
 * block on the front of its class's list, delete unlinks one node.
 */
module MmLinks {
  import opened MmCodec
  import opened MmHeap

  /** The list l without its j-th node. */
  function Remove(l: seq<nat>, j: nat): (r: seq<nat>)
    requires j < |l|
    ensures |r| == |l| - 1
    ensures forall i {:trigger r[i]} :: 0 <= i < |r| ==> r[i] == if i < j then l[i] else l[i + 1]
  {
    l[..j] + l[j + 1..]
  }

  /** The lists with p pushed on the front of list c. */
  function Push(L: seq<seq<nat>>, c: nat, p: nat): (r: seq<seq<nat>>)
    requires c < |L|
    ensures |r| == |L| && r[c] == [p] + L[c]
    ensures forall c2 :: 0 <= c2 < |L| && c2 != c ==> r[c2] == L[c2]
  {
    L[c := [p] + L[c]]
  }

  /** The lists with the j-th node of list c unlinked. */
  function Unlink(L: seq<seq<nat>>, c: nat, j: nat): (r: seq<seq<nat>>)
    requires c < |L| && j < |L[c]|
    ensures |r| == |L| && r[c] == Remove(L[c], j)
    ensures forall c2 :: 0 <= c2 < |L| && c2 != c ==> r[c2] == L[c2]
  {
    L[c := Remove(L[c], j)]
  }

  /** p is in none of the lists. */
  predicate Unlisted(L: seq<seq<nat>>, p: nat) {
    forall c, j :: 0 <= c < |L| && 0 <= j < |L[c]| ==> L[c][j] != p
  }

  /** The words of a node: its next and prev offsets. */
  predicate KeptLinks(m: seq<u32>, n: seq<u32>, p: nat) {
    p / 4 + 1 < |m| && p / 4 + 1 < |n| && n[p / 4] == m[p / 4] && n[p / 4 + 1] == m[p / 4 + 1]
  }

  /** A list whose words are unchanged is still linked. */
  lemma LinkedFrame(m: seq<u32>, n: seq<u32>, d: nat, l: seq<nat>)
    requires HasFields(m, d) && forall j :: 0 <= j < |l| ==> HasFields(m, l[j])
    requires |n| >= |m| && Linked(m, d, l)
    requires KeptLinks(m, n, d)
    requires forall j :: 0 <= j < |l| ==> KeptLinks(m, n, l[j])
    ensures Linked(n, d, l)
  {
    forall j | 0 <= j < |l|
      ensures NextOf(n, l[j]) == NextOf(m, l[j]) && PrevOf(n, l[j]) == PrevOf(m, l[j])
    {
      assert KeptLinks(m, n, l[j]);
    }
  }

  /** Distinct 8-aligned addresses have disjoint link words. */
  lemma LinkWordsDiffer(p: nat, q: nat)
    requires p % 8 == 0 && q % 8 == 0 && p != q
    ensures p / 4 != q / 4 && p / 4 != q / 4 + 1 && p / 4 + 1 != q / 4 && p / 4 + 1 != q / 4 + 1
  {
    Quarter(p);
    Quarter(q);
  }

  /** The word index of an 8-aligned address is even. */
  lemma Quarter(p: nat)
    requires p % 8 == 0
    ensures p / 4 == 2 * (p / 8)
  {
    var a := p / 8;
    assert p == 8 * a;
  }

  /** A word that holds no list link. */
  predicate OffLists(L: seq<seq<nat>>, i: nat) {
    && (forall c :: 0 <= c < LIST_NUM ==> i != Dummy(c) / 4 && i != Dummy(c) / 4 + 1)
    && (forall c, j :: 0 <= c < |L| && 0 <= j < |L[c]| ==> i != L[c][j] / 4 && i != L[c][j] / 4 + 1)
  }

  /** Writing a word that holds no list link keeps the lists. */
  lemma PutOffLists(m: seq<u32>, L: seq<seq<nat>>, i: nat, v: u32)
    requires ListsOk(m, L) && i < |m| && OffLists(L, i)
    ensures ListsOk(m[i := v], L)
  {
    var n := m[i := v];
    forall c | 0 <= c < LIST_NUM
      ensures Linked(n, Dummy(c), L[c])
    {
      forall j | 0 <= j < |L[c]|
        ensures KeptLinks(m, n, L[c][j])
      {
      }
      LinkedFrame(m, n, Dummy(c), L[c]);
    }
  }

  /** The dummies' words come before every block's words. */
  lemma DummyBelow(c: nat)
    requires c < LIST_NUM
    ensures Dummy(c) / 4 + 1 < 24 && Dummy(c) % 8 == 0
  {
  }

  /** Distinct lists have distinct dummies. */
  lemma DummiesDiffer(c1: nat, c2: nat)
    requires c1 < LIST_NUM && c2 < LIST_NUM && c1 != c2
    ensures Dummy(c1) != Dummy(c2)
  {
  }

  /** Positions i and k of a list hold different nodes, unless they are the same position. */
  predicate Differ(l: seq<nat>, i: nat, k: nat)
    requires i < |l| && k < |l|
  {
    i == k || l[i] != l[k]
  }

  /** The nodes of one list are pairwise different and different from its dummy. */
  predicate Simple(d: nat, l: seq<nat>) {
    && (forall i :: 0 <= i < |l| ==> l[i] != d)
    && (forall i, k :: 0 <= i < |l| && 0 <= k < |l| ==> Differ(l, i, k))
  }

  predicate Fields(m: seq<u32>, d: nat, l: seq<nat>) {
    HasFields(m, d) && forall j :: 0 <= j < |l| ==> HasFields(m, l[j])
  }

  /** Each list of well-formed lists is simple. */
  lemma ListSimple(m: seq<u32>, L: seq<seq<nat>>, c: nat)
    requires ListsOk(m, L) && c < LIST_NUM
    ensures Simple(Dummy(c), L[c]) && Fields(m, Dummy(c), L[c])
  {
    DummyBelow(c);
    forall i, k | 0 <= i < |L[c]| && 0 <= k < |L[c]|
      ensures Differ(L[c], i, k)
    {
      assert Apart(L, c, i, c, k);
    }
  }

  /* ---------- insert ---------- */

  /** The words insert(bp) leaves, for the list with dummy d whose first node is `first`. */
  function InsertWords(m: seq<u32>, d: nat, bp: nat, first: nat): (r: seq<u32>)
    requires HasFields(m, d) && HasFields(m, bp) && HasFields(m, first) && bp < MAX_HEAP_SIZE
    ensures |r| == |m|
  {
    m[bp / 4 := m[d / 4]][bp / 4 + 1 := m[first / 4 + 1]][d / 4 := bp][first / 4 + 1 := bp]
  }

  lemma InsertWrites(m: seq<u32>, d: nat, bp: nat, first: nat)
    requires HasFields(m, d) && HasFields(m, bp) && HasFields(m, first) && bp < MAX_HEAP_SIZE
    ensures InsertWords(m, d, bp, first) == m[bp / 4 := m[d / 4]][bp / 4 + 1 := m[first / 4 + 1]][d / 4 := bp][first / 4 + 1 := bp]
  {
  }

  /** insert writes the words of bp, of the dummy and of the old first node only. */
  lemma InsertKeeps(m: seq<u32>, d: nat, bp: nat, first: nat, q: nat)
    requires HasFields(m, d) && HasFields(m, bp) && HasFields(m, first) && bp < MAX_HEAP_SIZE
    requires HasFields(m, q) && q != d && q != bp && q != first
    ensures KeptLinks(m, InsertWords(m, d, bp, first), q)
  {
    LinkWordsDiffer(q, d);
    LinkWordsDiffer(q, bp);
    LinkWordsDiffer(q, first);
  }

  /** The words insert writes: the links of bp, of the dummy and of the old first node. */
  lemma InsertWritten(m: seq<u32>, d: nat, bp: nat, first: nat)
    requires HasFields(m, d) && HasFields(m, bp) && HasFields(m, first) && bp < MAX_HEAP_SIZE
    requires bp != d && bp != first
    ensures NextOf(InsertWords(m, d, bp, first), d) == bp
    ensures PrevOf(InsertWords(m, d, bp, first), first) == bp
    ensures NextOf(InsertWords(m, d, bp, first), bp) == NextOf(m, d)
    ensures PrevOf(InsertWords(m, d, bp, first), bp) == PrevOf(m, first)
    ensures first != d ==> NextOf(InsertWords(m, d, bp, first), first) == NextOf(m, first)
    ensures first != d ==> PrevOf(InsertWords(m, d, bp, first), d) == PrevOf(m, d)
  {
    LinkWordsDiffer(bp, d);
    LinkWordsDiffer(bp, first);
    if first != d {
      LinkWordsDiffer(first, d);
    }
  }

  /** Node j of the list after insert has the expected neighbours. */
  lemma InsertLinkedNode(m: seq<u32>, d: nat, l: seq<nat>, bp: nat, j: nat)
    requires Fields(m, d, l) && Linked(m, d, l) && Simple(d, l)
    requires HasFields(m, bp) && bp < MAX_HEAP_SIZE && bp != d
    requires forall i :: 0 <= i < |l| ==> l[i] != bp
    requires j <= |l|
    ensures HasFields(m, NextOf(m, d))
    ensures var n, l' := InsertWords(m, d, bp, NextOf(m, d)), [bp] + l;
      NextOf(n, l'[j]) == After(d, l', j) && PrevOf(n, l'[j]) == Before(d, l', j)
  {
    var first := NextOf(m, d);
    assert first == if |l| == 0 then d else l[0];
    if |l| > 0 {
      assert PrevOf(m, l[0]) == Before(d, l, 0);
    }
    var n, l' := InsertWords(m, d, bp, first), [bp] + l;
    InsertWritten(m, d, bp, first);
    if j == 1 {
      assert l'[j] == l[0] && NextOf(m, l[0]) == After(d, l, 0);
    } else if j > 1 {
      assert l'[j] == l[j - 1];
      InsertKeeps(m, d, bp, first, l[j - 1]);
      assert NextOf(m, l[j - 1]) == After(d, l, j - 1) && PrevOf(m, l[j - 1]) == Before(d, l, j - 1);
    }
  }

  /** The list after insert: bp first, then the old nodes. */
  lemma InsertLinkedHere(m: seq<u32>, d: nat, l: seq<nat>, bp: nat)
    requires Fields(m, d, l) && Linked(m, d, l) && Simple(d, l)
    requires HasFields(m, bp) && bp < MAX_HEAP_SIZE && bp != d
    requires forall j :: 0 <= j < |l| ==> l[j] != bp
    ensures HasFields(m, NextOf(m, d))
    ensures Linked(InsertWords(m, d, bp, NextOf(m, d)), d, [bp] + l)
  {
    var first := NextOf(m, d);
    assert first == if |l| == 0 then d else l[0];
    var n, l' := InsertWords(m, d, bp, first), [bp] + l;
    InsertWritten(m, d, bp, first);
    if |l| > 0 {
      assert PrevOf(m, d) == l[|l| - 1];
    }
    forall j | 0 <= j < |l'|
      ensures NextOf(n, l'[j]) == After(d, l', j)
      ensures PrevOf(n, l'[j]) == Before(d, l', j)
    {
      InsertLinkedNode(m, d, l, bp, j);
    }
    assert Linked(n, d, l');
  }

  /** A list whose dummy and nodes insert does not touch stays linked. */
  lemma InsertLinkedElsewhere(m: seq<u32>, d: nat, bp: nat, first: nat, d2: nat, l2: seq<nat>)
    requires HasFields(m, d) && HasFields(m, bp) && HasFields(m, first) && bp < MAX_HEAP_SIZE
    requires Fields(m, d2, l2) && Linked(m, d2, l2)
    requires d2 != d && d2 != bp && d2 != first
    requires forall j :: 0 <= j < |l2| ==> l2[j] != d && l2[j] != bp && l2[j] != first
    ensures Linked(InsertWords(m, d, bp, first), d2, l2)
  {
    var n := InsertWords(m, d, bp, first);
    InsertKeeps(m, d, bp, first, d2);
    forall j | 0 <= j < |l2|
      ensures KeptLinks(m, n, l2[j])
    {
      InsertKeeps(m, d, bp, first, l2[j]);
    }
    LinkedFrame(m, n, d2, l2);
  }

  /** Pushing a node that is in no list keeps the nodes distinct. */
  lemma PushDistinct(L: seq<seq<nat>>, c: nat, bp: nat)
    requires Distinct(L) && c < |L| && Unlisted(L, bp)
    ensures Distinct(Push(L, c, bp))
  {
    var L' := Push(L, c, bp);
    forall c1, j1, c2, j2 | 0 <= c1 < |L'| && 0 <= j1 < |L'[c1]| && 0 <= c2 < |L'| && 0 <= j2 < |L'[c2]|
      ensures Apart(L', c1, j1, c2, j2)
    {
      var i1 := if c1 == c then j1 - 1 else j1;
      var i2 := if c2 == c then j2 - 1 else j2;
      if i1 >= 0 && i2 >= 0 {
        assert L'[c1][j1] == L[c1][i1] && L'[c2][j2] == L[c2][i2];
        assert Apart(L, c1, i1, c2, i2);
      }
    }
  }

  /** A list other than c stays linked when insert pushes bp on list c. */
  lemma InsertOther(m: seq<u32>, L: seq<seq<nat>>, c: nat, bp: nat, c2: nat)
    requires ListsOk(m, L) && c < LIST_NUM && c2 < LIST_NUM && c2 != c
    requires HasFields(m, bp) && FIRST_BP <= bp < MAX_HEAP_SIZE && Unlisted(L, bp)
    ensures HasFields(m, NextOf(m, Dummy(c)))
    ensures Linked(InsertWords(m, Dummy(c), bp, NextOf(m, Dummy(c))), Dummy(c2), L[c2])
  {
    var d := Dummy(c);
    ListSimple(m, L, c);
    ListSimple(m, L, c2);
    var first := NextOf(m, d);
    assert first == if |L[c]| == 0 then d else L[c][0];
    DummyBelow(c2);
    DummiesDiffer(c, c2);
    forall j | 0 <= j < |L[c2]|
      ensures L[c2][j] != first
    {
      if |L[c]| > 0 {
        assert Apart(L, c2, j, c, 0);
      }
    }
    InsertLinkedElsewhere(m, d, bp, first, Dummy(c2), L[c2]);
  }

  /** After a push every node, the new one included, has its link words in a heap of the same length. */
  lemma PushFields(m: seq<u32>, n: seq<u32>, L: seq<seq<nat>>, c: nat, bp: nat)
    requires NodesHaveFields(m, L) && |n| == |m| && c < |L| && HasFields(m, bp) && bp >= FIRST_BP
    ensures NodesHaveFields(n, Push(L, c, bp))
  {
    var L' := Push(L, c, bp);
    forall c2, i | 0 <= c2 < |L'| && 0 <= i < |L'[c2]|
      ensures HasFields(n, L'[c2][i]) && L'[c2][i] >= FIRST_BP
    {
      if c2 == c && i > 0 {
        assert L'[c2][i] == L[c2][i - 1];
      }
    }
  }

  /** After insert of bp in list c, any list c2 is linked: list c with bp in front, the others as they were. */
  lemma InsertLinkedAny(m: seq<u32>, L: seq<seq<nat>>, c: nat, bp: nat, c2: nat)
    requires ListsOk(m, L) && c < LIST_NUM && c2 < LIST_NUM
    requires HasFields(m, bp) && FIRST_BP <= bp < MAX_HEAP_SIZE && Unlisted(L, bp)
    ensures HasFields(m, NextOf(m, Dummy(c)))
    ensures var n := InsertWords(m, Dummy(c), bp, NextOf(m, Dummy(c)));
      Fields(n, Dummy(c2), Push(L, c, bp)[c2]) && Linked(n, Dummy(c2), Push(L, c, bp)[c2])
  {
    var d := Dummy(c);
    ListSimple(m, L, c);
    DummyBelow(c);
    DummyBelow(c2);
    InsertLinkedHere(m, d, L[c], bp);
    var n := InsertWords(m, d, bp, NextOf(m, d));
    PushFields(m, n, L, c, bp);
    if c2 != c {
      InsertOther(m, L, c, bp, c2);
    }
  }

  /** insert(bp) keeps every list circular and doubly linked, with bp now first in list c. */
  lemma InsertOk(m: seq<u32>, L: seq<seq<nat>>, c: nat, bp: nat)
    requires ListsOk(m, L) && c < LIST_NUM
    requires HasFields(m, bp) && FIRST_BP <= bp < MAX_HEAP_SIZE && Unlisted(L, bp)
    ensures HasFields(m, NextOf(m, Dummy(c)))
    ensures ListsOk(InsertWords(m, Dummy(c), bp, NextOf(m, Dummy(c))), Push(L, c, bp))
  {
    var d := Dummy(c);
    ListSimple(m, L, c);
    DummyBelow(c);
    var n := InsertWords(m, d, bp, NextOf(m, d));
    PushFields(m, n, L, c, bp);
    forall c2 | 0 <= c2 < LIST_NUM
      ensures Fields(n, Dummy(c2), Push(L, c, bp)[c2]) && Linked(n, Dummy(c2), Push(L, c, bp)[c2])
    {
      InsertLinkedAny(m, L, c, bp, c2);
    }
    PushDistinct(L, c, bp);
  }

  /* ---------- delete ---------- */

  /** The words delete leaves for a node whose neighbours are prev and next. */
  function DeleteWords(m: seq<u32>, p: nat, prev: nat, next: nat): (r: seq<u32>)
    requires HasFields(m, p) && HasFields(m, prev) && HasFields(m, next)
    ensures |r| == |m|
  {
    m[prev / 4 := m[p / 4]][next / 4 + 1 := m[p / 4 + 1]]
  }

  lemma DeleteWrites(m: seq<u32>, p: nat, prev: nat, next: nat)
    requires HasFields(m, p) && HasFields(m, prev) && HasFields(m, next)
    ensures DeleteWords(m, p, prev, next) == m[prev / 4 := m[p / 4]][next / 4 + 1 := m[p / 4 + 1]]
  {
  }

  /** delete writes one word of each neighbour only. */
  lemma DeleteKeeps(m: seq<u32>, p: nat, prev: nat, next: nat, q: nat)
    requires HasFields(m, p) && HasFields(m, prev) && HasFields(m, next)
    requires HasFields(m, q) && q != prev && q != next
    ensures KeptLinks(m, DeleteWords(m, p, prev, next), q)
  {
    LinkWordsDiffer(q, prev);
    LinkWordsDiffer(q, next);
  }

  /** The two words delete writes, and the link words of the neighbours it leaves alone. */
  lemma DeleteWritten(m: seq<u32>, p: nat, prev: nat, next: nat)
    requires HasFields(m, p) && HasFields(m, prev) && HasFields(m, next)
    ensures NextOf(DeleteWords(m, p, prev, next), prev) == NextOf(m, p)
    ensures PrevOf(DeleteWords(m, p, prev, next), next) == PrevOf(m, p)
    ensures prev != next ==> PrevOf(DeleteWords(m, p, prev, next), prev) == PrevOf(m, prev)
    ensures prev != next ==> NextOf(DeleteWords(m, p, prev, next), next) == NextOf(m, next)
  {
    Quarter(prev);
    Quarter(next);
    if prev != next {
      LinkWordsDiffer(prev, next);
    }
  }

  /** Node i of the list after delete of node j has the expected neighbours. */
  lemma DeleteLinkedNode(m: seq<u32>, d: nat, l: seq<nat>, j: nat, i: nat)
    requires Fields(m, d, l) && Linked(m, d, l) && Simple(d, l) && j < |l| && i + 1 < |l|
    ensures var n, r := DeleteWords(m, l[j], Before(d, l, j), After(d, l, j)), Remove(l, j);
      NextOf(n, r[i]) == After(d, r, i) && PrevOf(n, r[i]) == Before(d, r, i)
  {
    var p, prev, next := l[j], Before(d, l, j), After(d, l, j);
    var n, r := DeleteWords(m, p, prev, next), Remove(l, j);
    var o := if i < j then i else i + 1;
    assert r[i] == l[o];
    assert Differ(l, o, j);
    if j > 0 {
      assert Differ(l, o, j - 1);
    }
    if j + 1 < |l| {
      assert Differ(l, o, j + 1);
      if j > 0 {
        assert Differ(l, j - 1, j + 1);
      }
    }
    assert NextOf(m, l[j]) == next && PrevOf(m, l[j]) == prev;
    DeleteWritten(m, p, prev, next);
    if o == j - 1 {
      assert prev == l[o] && prev != next;
      assert PrevOf(m, l[o]) == Before(d, l, o);
    } else if o == j + 1 {
      assert next == l[o] && prev != next;
      assert NextOf(m, l[o]) == After(d, l, o);
    } else {
      assert l[o] != prev && l[o] != next;
      DeleteKeeps(m, p, prev, next, l[o]);
      assert NextOf(m, l[o]) == After(d, l, o) && PrevOf(m, l[o]) == Before(d, l, o);
    }
  }

  /** After delete of node j the dummy points at the first and last of the remaining nodes. */
  lemma DeleteDummy(m: seq<u32>, d: nat, l: seq<nat>, j: nat)
    requires Fields(m, d, l) && Linked(m, d, l) && Simple(d, l) && j < |l|
    ensures var n, r := DeleteWords(m, l[j], Before(d, l, j), After(d, l, j)), Remove(l, j);
      NextOf(n, d) == (if |r| == 0 then d else r[0]) && PrevOf(n, d) == (if |r| == 0 then d else r[|r| - 1])
  {
    var p, prev, next := l[j], Before(d, l, j), After(d, l, j);
    assert NextOf(m, l[j]) == next && PrevOf(m, l[j]) == prev;
    DeleteWritten(m, p, prev, next);
    if prev != d && next != d {
      DeleteKeeps(m, p, prev, next, d);
    }
  }

  /** delete of node j leaves the list linked without it. */
  lemma DeleteLinkedHere(m: seq<u32>, d: nat, l: seq<nat>, j: nat)
    requires Fields(m, d, l) && Linked(m, d, l) && Simple(d, l) && j < |l|
    ensures NextOf(m, l[j]) == After(d, l, j) && PrevOf(m, l[j]) == Before(d, l, j)
    ensures Linked(DeleteWords(m, l[j], Before(d, l, j), After(d, l, j)), d, Remove(l, j))
  {
    var p, prev, next := l[j], Before(d, l, j), After(d, l, j);
    assert NextOf(m, l[j]) == next && PrevOf(m, l[j]) == prev;
    var n := DeleteWords(m, p, prev, next);
    var r := Remove(l, j);
    DeleteDummy(m, d, l, j);
    forall i | 0 <= i < |r|
      ensures NextOf(n, r[i]) == After(d, r, i)
      ensures PrevOf(n, r[i]) == Before(d, r, i)
    {
      DeleteLinkedNode(m, d, l, j, i);
    }
    assert Linked(n, d, r);
  }

  /** A list whose dummy and nodes are not neighbours of the deleted node stays linked. */
  lemma DeleteLinkedElsewhere(m: seq<u32>, p: nat, prev: nat, next: nat, d2: nat, l2: seq<nat>)
    requires HasFields(m, p) && HasFields(m, prev) && HasFields(m, next)
    requires Fields(m, d2, l2) && Linked(m, d2, l2)
    requires d2 != prev && d2 != next
    requires forall j :: 0 <= j < |l2| ==> l2[j] != prev && l2[j] != next
    ensures Linked(DeleteWords(m, p, prev, next), d2, l2)
  {
    var n := DeleteWords(m, p, prev, next);
    DeleteKeeps(m, p, prev, next, d2);
    forall j | 0 <= j < |l2|
      ensures KeptLinks(m, n, l2[j])
    {
      DeleteKeeps(m, p, prev, next, l2[j]);
    }
    LinkedFrame(m, n, d2, l2);
  }

  /** Unlinking a node keeps the nodes distinct. */
  lemma UnlinkDistinct(L: seq<seq<nat>>, c: nat, j: nat)
    requires Distinct(L) && c < |L| && j < |L[c]|
    ensures Distinct(Unlink(L, c, j))
  {
    var L' := Unlink(L, c, j);
    forall c1, j1, c2, j2 | 0 <= c1 < |L'| && 0 <= j1 < |L'[c1]| && 0 <= c2 < |L'| && 0 <= j2 < |L'[c2]|
      ensures Apart(L', c1, j1, c2, j2)
    {
      var i1 := if c1 == c && j1 >= j then j1 + 1 else j1;
      var i2 := if c2 == c && j2 >= j then j2 + 1 else j2;
      assert L'[c1][j1] == L[c1][i1] && L'[c2][j2] == L[c2][i2];
      assert Apart(L, c1, i1, c2, i2);
    }
  }

  /** A list other than c stays linked when delete unlinks node j of list c. */
  lemma DeleteOther(m: seq<u32>, L: seq<seq<nat>>, c: nat, j: nat, c2: nat)
    requires ListsOk(m, L) && c < LIST_NUM && j < |L[c]| && c2 < LIST_NUM && c2 != c
    ensures HasFields(m, Before(Dummy(c), L[c], j)) && HasFields(m, After(Dummy(c), L[c], j))
    ensures Linked(DeleteWords(m, L[c][j], Before(Dummy(c), L[c], j), After(Dummy(c), L[c], j)), Dummy(c2), L[c2])
  {
    var d := Dummy(c);
    ListSimple(m, L, c);
    ListSimple(m, L, c2);
    DummyBelow(c);
    var prev, next := Before(d, L[c], j), After(d, L[c], j);
    DummyBelow(c2);
    DummiesDiffer(c, c2);
    forall i | 0 <= i < |L[c2]|
      ensures L[c2][i] != prev && L[c2][i] != next
    {
      if j > 0 {
        assert Apart(L, c2, i, c, j - 1);
      }
      if j + 1 < |L[c]| {
        assert Apart(L, c2, i, c, j + 1);
      }
    }
    DeleteLinkedElsewhere(m, L[c][j], prev, next, Dummy(c2), L[c2]);
  }

  /** The nodes left by unlinking still have their link words in a heap of the same length. */
  lemma UnlinkFields(m: seq<u32>, n: seq<u32>, L: seq<seq<nat>>, c: nat, j: nat)
    requires NodesHaveFields(m, L) && |n| == |m| && c < |L| && j < |L[c]|
    ensures NodesHaveFields(n, Unlink(L, c, j))
  {
    var L' := Unlink(L, c, j);
    forall c2, i | 0 <= c2 < |L'| && 0 <= i < |L'[c2]|
      ensures HasFields(n, L'[c2][i]) && L'[c2][i] >= FIRST_BP
    {
      var o := if c2 == c && i >= j then i + 1 else i;
      assert L'[c2][i] == L[c2][o];
    }
  }

  /** After delete of node j of list c, any list c2 is linked: the list c without the node, the others as they were. */
  lemma DeleteLinkedAny(m: seq<u32>, L: seq<seq<nat>>, c: nat, j: nat, c2: nat)
    requires ListsOk(m, L) && c < LIST_NUM && j < |L[c]| && c2 < LIST_NUM
    ensures HasFields(m, Before(Dummy(c), L[c], j)) && HasFields(m, After(Dummy(c), L[c], j))
    ensures var n := DeleteWords(m, L[c][j], Before(Dummy(c), L[c], j), After(Dummy(c), L[c], j));
      Fields(n, Dummy(c2), Unlink(L, c, j)[c2]) && Linked(n, Dummy(c2), Unlink(L, c, j)[c2])
  {
    var d := Dummy(c);
    ListSimple(m, L, c);
    DummyBelow(c);
    DummyBelow(c2);
    var n := DeleteWords(m, L[c][j], Before(d, L[c], j), After(d, L[c], j));
    UnlinkFields(m, n, L, c, j);
    if c2 == c {
      DeleteLinkedHere(m, d, L[c], j);
    } else {
      DeleteOther(m, L, c, j, c2);
    }
  }

  /** delete keeps every list circular and doubly linked, with node j gone from list c. */
  lemma DeleteOk(m: seq<u32>, L: seq<seq<nat>>, c: nat, j: nat)
    requires ListsOk(m, L) && c < LIST_NUM && j < |L[c]|
    ensures NextOf(m, L[c][j]) == After(Dummy(c), L[c], j) && PrevOf(m, L[c][j]) == Before(Dummy(c), L[c], j)
    ensures HasFields(m, Before(Dummy(c), L[c], j)) && HasFields(m, After(Dummy(c), L[c], j))
    ensures ListsOk(DeleteWords(m, L[c][j], Before(Dummy(c), L[c], j), After(Dummy(c), L[c], j)), Unlink(L, c, j))
  {
    var d := Dummy(c);
    ListSimple(m, L, c);
    DummyBelow(c);
    assert NextOf(m, L[c][j]) == After(d, L[c], j) && PrevOf(m, L[c][j]) == Before(d, L[c], j);
    var n := DeleteWords(m, L[c][j], Before(d, L[c], j), After(d, L[c], j));
    UnlinkFields(m, n, L, c, j);
    forall c2 | 0 <= c2 < LIST_NUM
      ensures Fields(n, Dummy(c2), Unlink(L, c, j)[c2]) && Linked(n, Dummy(c2), Unlink(L, c, j)[c2])
    {
      DeleteLinkedAny(m, L, c, j, c2);
    }
    UnlinkDistinct(L, c, j);
  }
}
