/*
 * The set-associative cache simulator of cachelab-handout/csim.c.
 *
 * The cache has 2^s sets of E lines; an address splits into a tag, a set
 * index of s bits and a block offset of b bits.  Each line has a valid
 * bit, a tag and an LRU rank: among the valid lines of a set, the most
 * recently used has rank E - 1 and the least recently used has rank
 * E - k when k lines are valid, so with a full set the victim is the line
 * of rank 0.  Every access updates the global hit, miss and eviction
 * counters.
 *
 * C `int` values are integers in [-2^31, 2^31).  On them `>>` by a count
 * below 32 is floor division by a power of two, and `&` is `BitAnd`, the
 * bitwise and of two's-complement integers.
 */
module CacheSim {
  import opened Powers

  /* The outcomes parseTraceFile reports. */
  const HIT: int := 0
  const MISS_HIT: int := 1
  const MISS: int := 2
  const MISS_EVICTION_HIT: int := 3
  const MISS_EVICTION: int := 4
  const HIT_HIT: int := 5
  /** Returned when no line of a full set has rank 0. */
  const NO_VICTIM: int := -1

  /** LLONG_MAX, the 64-bit constant the masks are shifted from. */
  const LLONG_MAX: int := 0x7fff_ffff_ffff_ffff

  /* ---------- C integers ---------- */

  predicate IsInt(v: int) {
    -0x8000_0000 <= v < 0x8000_0000
  }

  /** Conversion to a 32-bit int: the int with the same low 32 bits. */
  function ToInt(v: int): (r: int)
    ensures IsInt(r)
    ensures (v - r) % 0x1_0000_0000 == 0
  {
    (v + 0x8000_0000) % 0x1_0000_0000 - 0x8000_0000
  }

  /** The measure the bitwise recursion shrinks: 0 exactly for 0 and -1. */
  function Mag(x: int): nat {
    if x >= 0 then x else -x - 1
  }

  /**
   * C's `&` on two's-complement integers: the lowest bits are anded and
   * the rest is the and of the values shifted right by one.  0 and -1 are
   * the values whose bits are all equal.
   */
  function BitAnd(x: int, y: int): int
    decreases Mag(x) + Mag(y)
  {
    if Mag(x) == 0 && Mag(y) == 0 then (if x == -1 && y == -1 then -1 else 0)
    else 2 * BitAnd(x / 2, y / 2) + (x % 2) * (y % 2)
  }

  lemma {:induction false} BitAndZero(x: int)
    ensures BitAnd(x, 0) == 0
    decreases Mag(x)
  {
    if Mag(x) != 0 {
      BitAndZero(x / 2);
    }
  }

  /** Anding with -1, all bits set, keeps the value. */
  lemma {:induction false} BitAndAllOnes(x: int)
    ensures BitAnd(x, -1) == x
    decreases Mag(x)
  {
    if Mag(x) != 0 {
      BitAndAllOnes(x / 2);
    }
  }

  lemma ModDouble(x: int, p: nat)
    requires p >= 1
    ensures x % (2 * p) == 2 * ((x / 2) % p) + x % 2
  {
    var h := x / 2;
    assert x == 2 * h + x % 2;
    assert h == p * (h / p) + h % p;
    assert x == (h / p) * (2 * p) + (2 * (h % p) + x % 2);
    DivModUnique(x, 2 * p, h / p, 2 * (h % p) + x % 2);
  }

  /** Anding with 2^n - 1 keeps the n low bits: the remainder modulo 2^n. */
  lemma {:induction false} BitAndLowMask(x: int, n: nat)
    ensures BitAnd(x, Pow2(n) - 1) == x % Pow2(n)
    decreases n
  {
    if n == 0 {
      BitAndZero(x);
    } else {
      var m := Pow2(n - 1) - 1;
      assert Pow2(n) - 1 == 2 * m + 1;
      assert (2 * m + 1) / 2 == m && (2 * m + 1) % 2 == 1;
      BitAndLowMask(x / 2, n - 1);
      ModDouble(x, Pow2(n - 1));
    }
  }

  lemma Pow2At63()
    ensures Pow2(63) == LLONG_MAX + 1
  {
    Pow2ThirtyOne();
    Pow2ThirtyTwo();
    Pow2Add(31, 32);
  }

  /** LLONG_MAX >> j is 2^(63 - j) - 1. */
  lemma LongMaskShift(j: nat)
    requires j <= 63
    ensures LLONG_MAX / Pow2(j) == Pow2(63 - j) - 1
  {
    Pow2At63();
    Pow2Add(63 - j, j);
    assert LLONG_MAX == (Pow2(63 - j) - 1) * Pow2(j) + (Pow2(j) - 1);
    DivModUnique(LLONG_MAX, Pow2(j), Pow2(63 - j) - 1, Pow2(j) - 1);
  }

  /** A mask of 32 or more ones, cut to an int, is -1. */
  lemma WideMaskToInt(m: nat)
    requires m >= 32
    ensures ToInt(Pow2(m) - 1) == -1
  {
    Pow2Add(32, m - 32);
    Pow2ThirtyTwo();
    DivModUnique(Pow2(m) - 1 + 0x8000_0000, 0x1_0000_0000, Pow2(m - 32), 0x7fff_ffff);
  }

  /** A mask of at most 31 ones is an int already. */
  lemma NarrowMaskToInt(m: nat)
    requires m <= 31
    ensures ToInt(Pow2(m) - 1) == Pow2(m) - 1
  {
    Pow2Monotone(m, 31);
    Pow2ThirtyOne();
    DivModUnique(Pow2(m) - 1 + 0x8000_0000, 0x1_0000_0000, 0, Pow2(m) - 1 + 0x8000_0000);
  }

  /* ---------- address splitting ---------- */

  /**
   * getTag: addr >> (b + s) anded with LLONG_MAX >> (s + b - 1) cut to an
   * int.  That mask has every bit set, so the tag is addr shifted right by
   * s + b, sign and all.
   */
  function GetTag(addr: int, s: nat, b: nat): (tag: int)
    requires 1 <= s + b <= 31
    ensures tag == addr / Pow2(s + b)
  {
    var mask := ToInt(LLONG_MAX / Pow2(s + b - 1));
    LongMaskShift(s + b - 1);
    WideMaskToInt(64 - (s + b));
    BitAndAllOnes(addr / Pow2(b + s));
    BitAnd(addr / Pow2(b + s), mask)
  }

  /**
   * getSet: addr >> b anded with LLONG_MAX >> (63 - s) cut to an int,
   * which is 2^s - 1: the s bits above the block offset.
   */
  function GetSet(addr: int, s: nat, b: nat): (si: int)
    requires s + b <= 31
    ensures si == (addr / Pow2(b)) % Pow2(s)
    ensures 0 <= si < Pow2(s)
  {
    var mask := ToInt(LLONG_MAX / Pow2(63 - s));
    LongMaskShift(63 - s);
    NarrowMaskToInt(s);
    BitAndLowMask(addr / Pow2(b), s);
    BitAnd(addr / Pow2(b), mask)
  }

  /** Tag, set index and block offset together give the address back. */
  lemma AddressSplit(addr: int, s: nat, b: nat)
    requires 1 <= s + b <= 31
    ensures addr == (GetTag(addr, s, b) * Pow2(s) + GetSet(addr, s, b)) * Pow2(b) + addr % Pow2(b)
  {
    DivDiv(addr, b, s);
    Recombine(addr, Pow2(s), Pow2(b));
  }

  /** Two addresses agree on tag and set exactly when they lie in the same block. */
  lemma SameLine(a1: int, a2: int, s: nat, b: nat)
    requires 1 <= s + b <= 31
    ensures GetTag(a1, s, b) == GetTag(a2, s, b) && GetSet(a1, s, b) == GetSet(a2, s, b)
        <==> a1 / Pow2(b) == a2 / Pow2(b)
  {
    DivDiv(a1, b, s);
    DivDiv(a2, b, s);
    QuotRemEqual(a1 / Pow2(b), a2 / Pow2(b), Pow2(s));
  }

  /* ---------- the lines of one set ---------- */

  datatype Line = Line(valid: bool, tag: int, lruIndex: int)

  datatype Option<T> = None | Some(value: T)

  /** The three searches of an access: a valid line with the tag, an invalid line, the rank-0 line. */
  datatype Wanted = Holding(tag: int) | Empty | Oldest

  predicate Matches(l: Line, w: Wanted) {
    match w
    case Holding(tag) => l.valid && l.tag == tag
    case Empty => !l.valid
    case Oldest => l.lruIndex == 0
  }

  /** The first line from i on that matches w. */
  function First(row: seq<Line>, w: Wanted, i: nat := 0): (r: Option<nat>)
    requires i <= |row|
    ensures r.Some? ==> i <= r.value < |row| && Matches(row[r.value], w)
    ensures r.Some? ==> forall j :: i <= j < r.value ==> !Matches(row[j], w)
    ensures r.None? ==> forall j :: i <= j < |row| ==> !Matches(row[j], w)
    decreases |row| - i
  {
    if i == |row| then None
    else if Matches(row[i], w) then Some(i)
    else First(row, w, i + 1)
  }

  /** First is the first match: a matching line with no match before it is the answer. */
  lemma FirstIs(row: seq<Line>, w: Wanted, i: nat)
    requires i < |row| && Matches(row[i], w)
    requires forall j :: 0 <= j < i ==> !Matches(row[j], w)
    ensures First(row, w) == Some(i)
  {
  }

  /** lruCounter's effect on one line, for the accessed line `index` of rank `pivot`. */
  function Reranked(l: Line, isIndex: bool, pivot: int, E: int): Line {
    if isIndex then l.(lruIndex := E - 1)
    else if l.valid && l.lruIndex > pivot then l.(lruIndex := l.lruIndex - 1)
    else l
  }

  /** lruCounter: the accessed line takes rank E - 1 and every valid line ranked above it moves down one. */
  function LruAfter(row: seq<Line>, index: nat, E: int): (r: seq<Line>)
    requires index < |row|
    ensures |r| == |row|
  {
    seq(|row|, j requires 0 <= j < |row| => Reranked(row[j], j == index, row[index].lruIndex, E))
  }

  /** The line a miss fills: valid with the new tag, its old rank kept until lruCounter runs. */
  function Filled(l: Line, tag: int): Line {
    Line(true, tag, l.lruIndex)
  }

  /** What one access does to its set and to the three counters. */
  datatype Outcome = Outcome(state: int, row: seq<Line>, hits: nat, misses: nat, evictions: nat)

  /** parseTraceFile on the selected set, for operation op and the address's tag. */
  function Access(row: seq<Line>, op: char, tag: int, E: int): (o: Outcome)
  {
    var also := if op == 'M' then 1 else 0;
    match First(row, Holding(tag))
    case Some(i) => Outcome(if op == 'M' then HIT_HIT else HIT, LruAfter(row, i, E), 1 + also, 0, 0)
    case None =>
      match First(row, Empty)
      case Some(i) =>
        Outcome(if op == 'M' then MISS_HIT else MISS, LruAfter(row[i := Filled(row[i], tag)], i, E), also, 1, 0)
      case None =>
        match First(row, Oldest)
        case Some(i) =>
          Outcome(if op == 'M' then MISS_EVICTION_HIT else MISS_EVICTION,
                  LruAfter(row[i := Filled(row[i], tag)], i, E), also, 1, 1)
        case None => Outcome(NO_VICTIM, row, 0, 1, 1)
  }

  /* ---------- the LRU discipline ---------- */

  /**
   * One set against `order`, its valid lines from least to most recently
   * used: the k = |order| valid lines are the first k, the line at
   * position t of order has rank E - k + t, invalid lines have rank 0,
   * and no two valid lines hold the same tag.
   */
  predicate SetOk(row: seq<Line>, order: seq<nat>, E: nat) {
    && |row| == E && |order| <= E
    && (forall i :: 0 <= i < E ==> (row[i].valid <==> i < |order|))
    && (forall i :: |order| <= i < E ==> row[i].lruIndex == 0)
    && (forall t :: 0 <= t < |order| ==> order[t] < |order| && row[order[t]].lruIndex == E - |order| + t)
    && (forall i :: 0 <= i < |order| ==> i in order)
    && (forall i, j :: 0 <= i < j < |order| ==> row[i].tag != row[j].tag)
  }


  function IndexOf(order: seq<nat>, i: nat): (t: nat)
    requires i in order
    ensures t < |order| && order[t] == i
  {
    if order[0] == i then 0 else 1 + IndexOf(order[1..], i)
  }

  /** The order after line order[t] is used again: it moves to the most recent end. */
  function Touch(order: seq<nat>, t: nat): (r: seq<nat>)
    requires t < |order|
    ensures |r| == |order|
  {
    order[..t] + order[t + 1..] + [order[t]]
  }

  /** The recency order after an access, as the ghost companion of Access. */
  function NextOrder(row: seq<Line>, order: seq<nat>, tag: int): seq<nat> {
    match First(row, Holding(tag))
    case Some(i) => if i in order then Touch(order, IndexOf(order, i)) else order
    case None =>
      match First(row, Empty)
      case Some(i) => order + [i]
      case None => if |order| == 0 then order else order[1..] + [order[0]]
  }

  /** Ranks tell positions apart, so no line occurs twice in the order. */
  lemma OrderDistinct(row: seq<Line>, order: seq<nat>, E: nat)
    requires SetOk(row, order, E)
    ensures forall t, u :: 0 <= t < u < |order| ==> order[t] != order[u]
  {
  }

  /** lruCounter changes ranks only: validity and tags stay, and so do the ranks of other invalid lines. */
  lemma LruAfterKeeps(row: seq<Line>, index: nat, E: int)
    requires index < |row|
    ensures var r := LruAfter(row, index, E);
      forall j :: 0 <= j < |row| ==>
        && r[j].valid == row[j].valid && r[j].tag == row[j].tag
        && (j != index && !row[j].valid ==> r[j].lruIndex == row[j].lruIndex)
  {
  }

  /** Touching an order only moves one line: the same lines remain. */
  lemma TouchSame(order: seq<nat>, t: nat)
    requires t < |order|
    ensures multiset(Touch(order, t)) == multiset(order)
  {
    assert order == order[..t] + [order[t]] + order[t + 1..];
  }

  /** After a hit on order[t], the ranks follow the touched order. */
  lemma HitRanks(row: seq<Line>, order: seq<nat>, E: nat, t: nat)
    requires SetOk(row, order, E) && t < |order|
    ensures var o, r := Touch(order, t), LruAfter(row, order[t], E);
      forall u :: 0 <= u < |order| ==> o[u] < |order| && r[o[u]].lruIndex == E - |order| + u
  {
    var k := |order|;
    var i := order[t];
    var o := Touch(order, t);
    var r := LruAfter(row, i, E);
    OrderDistinct(row, order, E);
    forall u | 0 <= u < k
      ensures o[u] < k && r[o[u]].lruIndex == E - k + u
    {
      if u < t {
        assert o[u] == order[u];
      } else if u < k - 1 {
        assert o[u] == order[u + 1];
      } else {
        assert o[u] == i;
      }
    }
  }

  lemma HitKeeps(row: seq<Line>, order: seq<nat>, E: nat, i: nat)
    requires SetOk(row, order, E) && i < |row| && row[i].valid
    ensures i in order
    ensures SetOk(LruAfter(row, i, E), Touch(order, IndexOf(order, i)), E)
  {
    var t := IndexOf(order, i);
    HitRanks(row, order, E, t);
    TouchSame(order, t);
    var o := Touch(order, t);
    assert forall j :: j in order ==> j in o by {
      forall j | j in order
        ensures j in o
      {
        assert j in multiset(order);
      }
    }
    LruAfterKeeps(row, i, E);
  }

  lemma FillKeeps(row: seq<Line>, order: seq<nat>, E: nat, tag: int, v: nat)
    requires SetOk(row, order, E)
    requires First(row, Holding(tag)) == None && First(row, Empty) == Some(v)
    ensures v == |order|
    ensures SetOk(LruAfter(row[v := Filled(row[v], tag)], v, E), order + [v], E)
  {
    var k := |order|;
    assert !row[v].valid;
    assert k < v ==> !Matches(row[k], Empty);
    var o := order + [v];
    var r := LruAfter(row[v := Filled(row[v], tag)], v, E);
    forall u | 0 <= u < k + 1
      ensures o[u] < k + 1 && r[o[u]].lruIndex == E - (k + 1) + u
    {
      if u < k {
        assert o[u] == order[u];
      }
    }
    forall j | 0 <= j < k + 1
      ensures j in o
    {
      if j < k {
        var p := IndexOf(order, j);
        assert o[p] == j;
      } else {
        assert o[k] == j;
      }
    }
    forall i, j | 0 <= i < j < k + 1
      ensures r[i].tag != r[j].tag
    {
      if j == k {
        assert !Matches(row[i], Holding(tag));
      }
    }
  }

  lemma EvictVictim(row: seq<Line>, order: seq<nat>, E: nat)
    requires SetOk(row, order, E) && E >= 1 && |order| == E
    ensures First(row, Oldest) == Some(order[0])
  {
    forall j | 0 <= j < order[0]
      ensures !Matches(row[j], Oldest)
    {
      var p := IndexOf(order, j);
      assert row[j].lruIndex == p;
    }
    FirstIs(row, Oldest, order[0]);
  }

  lemma EvictKeeps(row: seq<Line>, order: seq<nat>, E: nat, tag: int)
    requires SetOk(row, order, E) && E >= 1
    requires First(row, Holding(tag)) == None && First(row, Empty) == None
    ensures |order| == E
    ensures First(row, Oldest) == Some(order[0])
    ensures SetOk(LruAfter(row[order[0] := Filled(row[order[0]], tag)], order[0], E), order[1..] + [order[0]], E)
  {
    var k := |order|;
    assert k < E ==> Matches(row[k], Empty);
    EvictVictim(row, order, E);
    OrderDistinct(row, order, E);
    var v := order[0];
    var o := order[1..] + [v];
    var r := LruAfter(row[v := Filled(row[v], tag)], v, E);
    forall u | 0 <= u < k
      ensures o[u] < k && r[o[u]].lruIndex == E - k + u
    {
      if u < k - 1 {
        assert o[u] == order[u + 1];
      }
    }
    forall j | 0 <= j < k
      ensures j in o
    {
      var p := IndexOf(order, j);
      if p == 0 {
        assert o[k - 1] == j;
      } else {
        assert o[p - 1] == j;
      }
    }
    forall i, j | 0 <= i < j < k
      ensures r[i].tag != r[j].tag
    {
      if i == v {
        assert !Matches(row[j], Holding(tag));
      } else if j == v {
        assert !Matches(row[i], Holding(tag));
      }
    }
  }

  /** Every access keeps the rank discipline, with the order NextOrder gives. */
  lemma AccessKeeps(row: seq<Line>, order: seq<nat>, op: char, tag: int, E: nat)
    requires SetOk(row, order, E)
    ensures SetOk(Access(row, op, tag, E).row, NextOrder(row, order, tag), E)
  {
    match First(row, Holding(tag))
    case Some(i) =>
      HitKeeps(row, order, E, i);
    case None =>
      match First(row, Empty)
      case Some(v) =>
        FillKeeps(row, order, E, tag, v);
      case None =>
        if E >= 1 {
          EvictKeeps(row, order, E, tag);
        }
  }

  /* ---------- what an access reports ---------- */

  predicate Cached(row: seq<Line>, tag: int) {
    exists j :: 0 <= j < |row| && Matches(row[j], Holding(tag))
  }

  /** An access hits exactly when a valid line of the set holds the tag. */
  lemma AccessHitIff(row: seq<Line>, op: char, tag: int, E: int)
    ensures var o := Access(row, op, tag, E);
      (o.state == HIT || o.state == HIT_HIT) <==> Cached(row, tag)
  {
  }

  /** A hit counts one hit, two for a modify, and no miss or eviction; no line changes its tag. */
  lemma AccessHitCounts(row: seq<Line>, op: char, tag: int, E: int)
    requires Cached(row, tag)
    ensures var o := Access(row, op, tag, E);
      && o.state == (if op == 'M' then HIT_HIT else HIT)
      && o.hits == (if op == 'M' then 2 else 1) && o.misses == 0 && o.evictions == 0
      && forall j :: 0 <= j < |row| ==> o.row[j].valid == row[j].valid && o.row[j].tag == row[j].tag
  {
    var j :| 0 <= j < |row| && Matches(row[j], Holding(tag));
    var i := First(row, Holding(tag)).value;
    LruAfterKeeps(row, i, E);
  }

  /** A miss in a set with an invalid line fills the first invalid line and evicts nothing. */
  lemma AccessFillCounts(row: seq<Line>, order: seq<nat>, op: char, tag: int, E: nat)
    requires SetOk(row, order, E) && !Cached(row, tag) && |order| < E
    ensures var o := Access(row, op, tag, E);
      && o.state == (if op == 'M' then MISS_HIT else MISS)
      && o.hits == (if op == 'M' then 1 else 0) && o.misses == 1 && o.evictions == 0
      && o.row[|order|] == Line(true, tag, E - 1)
      && forall j :: 0 <= j < |row| && j != |order| ==> o.row[j].valid == row[j].valid && o.row[j].tag == row[j].tag
  {
    var k := |order|;
    assert Matches(row[k], Empty);
    var v := First(row, Empty).value;
    FillKeeps(row, order, E, tag, v);
    LruAfterKeeps(row[v := Filled(row[v], tag)], v, E);
  }

  /** A miss in a full set evicts the least recently used line, order[0], and only it. */
  lemma AccessEvictCounts(row: seq<Line>, order: seq<nat>, op: char, tag: int, E: nat)
    requires SetOk(row, order, E) && !Cached(row, tag) && |order| == E >= 1
    ensures var o := Access(row, op, tag, E);
      && o.state == (if op == 'M' then MISS_EVICTION_HIT else MISS_EVICTION)
      && o.hits == (if op == 'M' then 1 else 0) && o.misses == 1 && o.evictions == 1
      && o.row[order[0]] == Line(true, tag, E - 1)
      && forall j :: 0 <= j < |row| && j != order[0] ==> o.row[j].valid == row[j].valid && o.row[j].tag == row[j].tag
  {
    EvictKeeps(row, order, E, tag);
    var v := order[0];
    LruAfterKeeps(row[v := Filled(row[v], tag)], v, E);
  }

  /** In a well-ranked set the search for a victim fails exactly when the set has no lines. */
  lemma AccessNoVictimIff(row: seq<Line>, order: seq<nat>, op: char, tag: int, E: nat)
    requires SetOk(row, order, E)
    ensures Access(row, op, tag, E).state == NO_VICTIM <==> E == 0
  {
    if E >= 1 && First(row, Holding(tag)).None? && First(row, Empty).None? {
      EvictKeeps(row, order, E, tag);
    }
  }

  /** After an access the tag is held by a valid line, the most recently used one. */
  lemma AccessMostRecent(row: seq<Line>, order: seq<nat>, op: char, tag: int, E: nat)
    requires SetOk(row, order, E) && E >= 1
    ensures var o, n := Access(row, op, tag, E), NextOrder(row, order, tag);
      && SetOk(o.row, n, E) && |n| >= 1
      && o.row[n[|n| - 1]].valid && o.row[n[|n| - 1]].tag == tag && o.row[n[|n| - 1]].lruIndex == E - 1
  {
    AccessKeeps(row, order, op, tag, E);
    match First(row, Holding(tag))
    case Some(i) =>
      HitKeeps(row, order, E, i);
    case None =>
      match First(row, Empty)
      case Some(v) =>
        FillKeeps(row, order, E, tag, v);
      case None =>
        EvictKeeps(row, order, E, tag);
  }

  /* ---------- the simulator ---------- */

  /**
   * The cache of 2^s sets by E lines and the global counters.  `recency`
   * is the ghost LRU order of every si.
   */
  class Simulator {
    const s: nat
    const E: nat
    const b: nat
    const lines: array2<Line>
    var hit: nat
    var miss: nat
    var eviction: nat
    ghost var recency: seq<seq<nat>>

    /** The lines of set k. */
    ghost function Row(k: nat): (r: seq<Line>)
      reads lines
      requires k < lines.Length0
      ensures |r| == lines.Length1
      ensures forall j :: 0 <= j < lines.Length1 ==> r[j] == lines[k, j]
    {
      seq(lines.Length1, j requires 0 <= j < lines.Length1 reads lines => lines[k, j])
    }

    ghost predicate Valid()
      reads this, lines
    {
      && 1 <= s + b <= 31
      && lines.Length0 == Pow2(s) && lines.Length1 == E
      && |recency| == Pow2(s)
      && forall k :: 0 <= k < Pow2(s) ==> SetOk(Row(k), recency[k], E)
    }

    /** initCache: every line of every si invalid; ranks start at 0. */
    constructor (s: nat, E: nat, b: nat)
      requires 1 <= s + b <= 31
      ensures Valid() && this.s == s && this.E == E && this.b == b
      ensures hit == 0 && miss == 0 && eviction == 0
      ensures forall k, j :: 0 <= k < Pow2(s) && 0 <= j < E ==> !lines[k, j].valid && lines[k, j].lruIndex == 0
      ensures forall k :: 0 <= k < Pow2(s) ==> recency[k] == []
    {
      this.s := s;
      this.E := E;
      this.b := b;
      var a := new Line[Pow2(s), E];
      var i := 0;
      while i < Pow2(s)
        invariant 0 <= i <= Pow2(s)
        invariant forall k, j :: 0 <= k < i && 0 <= j < E ==> !a[k, j].valid && a[k, j].lruIndex == 0
      {
        var j := 0;
        while j < E
          invariant 0 <= j <= E
          invariant forall k, j' :: 0 <= k < i && 0 <= j' < E ==> !a[k, j'].valid && a[k, j'].lruIndex == 0
          invariant forall j' :: 0 <= j' < j ==> !a[i, j'].valid && a[i, j'].lruIndex == 0
        {
          a[i, j] := a[i, j].(valid := false, lruIndex := 0);
          j := j + 1;
        }
        i := i + 1;
      }
      lines := a;
      hit, miss, eviction := 0, 0, 0;
      recency := seq(Pow2(s), k => []);
    }

    /** lruCounter on line `index` of si `si`. */
    method LruCounter(si: nat, index: nat)
      requires si < lines.Length0 && index < lines.Length1 == E
      modifies lines
      ensures Row(si) == LruAfter(old(Row(si)), index, E)
      ensures forall k, j :: 0 <= k < lines.Length0 && k != si && 0 <= j < lines.Length1 ==> lines[k, j] == old(lines[k, j])
    {
      ghost var r0 := Row(si);
      var i := 0;
      while i < E
        invariant 0 <= i <= E
        invariant forall j :: 0 <= j < i ==> lines[si, j] == (if j == index then r0[j] else Reranked(r0[j], false, r0[index].lruIndex, E))
        invariant forall j :: i <= j < E ==> lines[si, j] == r0[j]
        invariant forall k, j :: 0 <= k < lines.Length0 && k != si && 0 <= j < lines.Length1 ==> lines[k, j] == old(lines[k, j])
      {
        if lines[si, i].valid && lines[si, i].lruIndex > lines[si, index].lruIndex {
          lines[si, i] := lines[si, i].(lruIndex := lines[si, i].lruIndex - 1);
        }
        i := i + 1;
      }
      lines[si, index] := lines[si, index].(lruIndex := E - 1);
      assert Row(si) == LruAfter(r0, index, E);
    }

    /** One of the three line searches of parseTraceFile, over set si. */
    method Search(si: nat, w: Wanted) returns (r: Option<nat>)
      requires si < lines.Length0
      ensures r == First(Row(si), w)
    {
      var i := 0;
      while i < lines.Length1
        invariant 0 <= i <= lines.Length1
        invariant forall j :: 0 <= j < i ==> !Matches(lines[si, j], w)
      {
        if Matches(lines[si, i], w) {
          FirstIs(Row(si), w, i);
          return Some(i);
        }
        i := i + 1;
      }
      return None;
    }

    /** The hit path: one hit, two for a modify, and the line becomes the most recent. */
    method HitLine(si: nat, i: nat, op: char) returns (state: int)
      requires si < lines.Length0 && i < lines.Length1 == E
      modifies this`hit, lines
      ensures Row(si) == LruAfter(old(Row(si)), i, E)
      ensures forall k, j :: 0 <= k < lines.Length0 && k != si && 0 <= j < lines.Length1 ==> lines[k, j] == old(lines[k, j])
      ensures hit == old(hit) + (if op == 'M' then 2 else 1)
      ensures state == (if op == 'M' then HIT_HIT else HIT)
    {
      if op == 'M' {
        hit := hit + 1;
        hit := hit + 1;
        LruCounter(si, i);
        state := HIT_HIT;
      } else {
        hit := hit + 1;
        LruCounter(si, i);
        state := HIT;
      }
    }

    /** The miss paths: line i takes the tag and becomes the most recent; a modify adds a hit. */
    method FillLine(si: nat, i: nat, tag: int, op: char, withHit: int, withoutHit: int) returns (state: int)
      requires si < lines.Length0 && i < lines.Length1 == E
      modifies this`hit, lines
      ensures Row(si) == LruAfter(old(Row(si))[i := Filled(old(lines[si, i]), tag)], i, E)
      ensures forall k, j :: 0 <= k < lines.Length0 && k != si && 0 <= j < lines.Length1 ==> lines[k, j] == old(lines[k, j])
      ensures hit == old(hit) + (if op == 'M' then 1 else 0)
      ensures state == (if op == 'M' then withHit else withoutHit)
    {
      ghost var r0 := Row(si);
      lines[si, i] := lines[si, i].(valid := true, tag := tag);
      assert Row(si) == r0[i := Filled(r0[i], tag)];
      LruCounter(si, i);
      if op == 'M' {
        hit := hit + 1;
        state := withHit;
      } else {
        state := withoutHit;
      }
    }

    /** The body of parseTraceFile on set si for tag: the three searches and their paths. */
    method AccessSet(op: char, si: nat, tag: int) returns (state: int)
      requires si < lines.Length0 && lines.Length1 == E
      modifies this`hit, this`miss, this`eviction, lines
      ensures var o := Access(old(Row(si)), op, tag, E);
        && Row(si) == o.row && state == o.state
        && hit == old(hit) + o.hits && miss == old(miss) + o.misses && eviction == old(eviction) + o.evictions
      ensures forall k, j :: 0 <= k < lines.Length0 && k != si && 0 <= j < E ==> lines[k, j] == old(lines[k, j])
    {
      ghost var r0 := Row(si);
      var found := Search(si, Holding(tag));
      if found.Some? {
        state := HitLine(si, found.value, op);
      } else {
        miss := miss + 1;
        var empty := Search(si, Empty);
        if empty.Some? {
          state := FillLine(si, empty.value, tag, op, MISS_HIT, MISS);
        } else {
          eviction := eviction + 1;
          var oldest := Search(si, Oldest);
          if oldest.Some? {
            state := FillLine(si, oldest.value, tag, op, MISS_EVICTION_HIT, MISS_EVICTION);
          } else {
            state := NO_VICTIM;
          }
        }
      }
    }

    /**
     * parseTraceFile after the line is scanned: operation op on address
     * addr.  Only the selected set changes, as Access says, the counters
     * rise by what it reports, and the rank discipline is kept.
     */
    method ParseTraceFile(op: char, addr: int) returns (state: int)
      requires Valid() && IsInt(addr)
      modifies this, lines
      ensures Valid()
      ensures var si := GetSet(addr, s, b);
        var o := Access(old(Row(si)), op, GetTag(addr, s, b), E);
        && Row(si) == o.row && state == o.state
        && hit == old(hit) + o.hits && miss == old(miss) + o.misses && eviction == old(eviction) + o.evictions
        && recency == old(recency)[si := NextOrder(old(Row(si)), old(recency[si]), GetTag(addr, s, b))]
      ensures forall k, j :: 0 <= k < Pow2(s) && k != GetSet(addr, s, b) && 0 <= j < E ==> lines[k, j] == old(lines[k, j])
    {
      var tag := GetTag(addr, s, b);
      var si := GetSet(addr, s, b);
      ghost var r0 := Row(si);
      AccessKeeps(r0, recency[si], op, tag, E);
      state := AccessSet(op, si, tag);
      recency := recency[si := NextOrder(r0, recency[si], tag)];
      forall k | 0 <= k < Pow2(s) && k != si
        ensures SetOk(Row(k), recency[k], E)
      {
        assert Row(k) == old(Row(k));
      }
    }
  }
}
