/**
  The order book of src/main/book/level.h: price levels are nodes carved out of pages by a
  bump allocator, the two sides are sorted vectors of pointers to them, and erased nodes
  are kept on a free list threaded through the nodes themselves.
 */
module OrderBook {
  import opened Sequences
  import opened Pages
  import opened PriceTable

  /** Where a node currently belongs; `Loose` only while an operation holds it. */
  datatype Home = OnBids | OnAsks | OnFreeList | Loose

  predicate OnASide(home: Home) { home.OnBids? || home.OnAsks? }

  class Level {
    var px: nat
    var qty: nat
    var next: Level?
    const page: nat    // the address of the node: a page of the allocator
    const offset: nat  // and the offset in it
    ghost const number: nat  // how many nodes were allocated before it
    ghost var home: Home
    ghost var rank: nat  // on the free list: how many nodes are behind it

    constructor (px: nat, qty: nat, page: nat, offset: nat, ghost number: nat)
      ensures this.px == px && this.qty == qty && next == null && home == Loose
      ensures this.page == page && this.offset == offset && this.number == number
    {
      this.px, this.qty, this.page, this.offset, next := px, qty, page, offset, null;
      this.number, home, rank := number, Loose, 0;
    }
  }

  /** The bump allocator: `size` divides `pageSize`, and the last page is filled up to `curOffset`. */
  class LevelAllocator {
    const pageSize: nat
    const size: nat
    var pages: nat
    var curOffset: nat
    ghost var used: nat          // nodes in the last page
    ghost var nodes: set<Level>  // every node ever allocated

    constructor (pageSize: nat, size: nat)
      requires 0 < size <= pageSize && pageSize % size == 0
      ensures Valid() && Count() == 0 && nodes == {} && this.pageSize == pageSize && this.size == size
    {
      this.pageSize, this.size, pages, curOffset, used, nodes := pageSize, size, 0, 0, 0, {};
    }

    ghost predicate Valid()
      reads this
    {
      true == (
        && 0 < size <= pageSize && pageSize % size == 0
        && curOffset == used * size && curOffset <= pageSize
        && (pages == 0 ==> used == 0) && (pages > 0 ==> used > 0)
        && |nodes| == Filled(pages, used, pageSize / size)
        && Numbered(nodes, pageSize, size))
    }

    /** How many nodes were allocated. */
    ghost function Count(): (n: nat)
      requires Valid()
      reads this
    {
      Filled(pages, used, pageSize / size)
    }

    method Allocate(px: nat, qty: nat) returns (t: Level)
      requires Valid()
      modifies this
      ensures Valid() && Count() == old(Count()) + 1
      ensures fresh(t) && nodes == old(nodes) + {t}
      ensures t.px == px && t.qty == qty && t.next == null && t.home == Loose
      ensures (t.page, t.offset) == Slot(old(Count()), pageSize, size)
    {
      NextSlot(pages, used, pageSize, size);
      if pages == 0 || curOffset == pageSize {
        curOffset, used := 0, 0;
        pages := pages + 1;
      }
      curOffset, used := curOffset + size, used + 1;
      t := new Level(px, qty, pages - 1, curOffset - size, |nodes|);
      StillNumbered(nodes, t, pageSize, size);
      nodes := nodes + {t};
    }
  }

  /** The nodes are numbered without gaps or repetition, and every node is in the slot of its number. */
  ghost predicate Numbered(nodes: set<Level>, pageSize: nat, size: nat)
  {
    true == (
      && 0 < size <= pageSize
      && (forall n :: n in nodes ==> n.number < |nodes| && (n.page, n.offset) == Slot(n.number, pageSize, size))
      && (forall n, m :: n in nodes && m in nodes && n.number == m.number ==> n == m))
  }

  lemma StillNumbered(nodes: set<Level>, t: Level, pageSize: nat, size: nat)
    requires Numbered(nodes, pageSize, size) && t !in nodes
    requires t.number == |nodes| && (t.page, t.offset) == Slot(t.number, pageSize, size)
    ensures Numbered(nodes + {t}, pageSize, size)
  {
  }

  /** Two different nodes never overlap in memory. */
  lemma NodesApart(nodes: set<Level>, n: Level, m: Level, pageSize: nat, size: nat)
    requires Numbered(nodes, pageSize, size) && pageSize % size == 0 && n in nodes && m in nodes && n != m
    ensures n.offset + size <= pageSize && m.offset + size <= pageSize
    ensures n.page == m.page ==> n.offset + size <= m.offset || m.offset + size <= n.offset
  {
    if n.number < m.number {
      SlotsDisjoint(n.number, m.number, pageSize, size);
    } else {
      SlotsDisjoint(m.number, n.number, pageSize, size);
    }
  }

  /** The address of the i-th node: nodes fill the pages one after the other. */
  function Slot(i: nat, pageSize: nat, size: nat): (s: (nat, nat))
    requires 0 < size <= pageSize
  {
    PerPage(pageSize, size);
    (i / (pageSize / size), i % (pageSize / size) * size)
  }

  lemma PerPage(pageSize: nat, size: nat)
    requires 0 < size <= pageSize
    ensures pageSize / size > 0
    ensures pageSize % size == 0 ==> (pageSize / size) * size == pageSize
  {
    Quotient(pageSize, size);
  }

  /** The number of nodes in `pages` pages, the last of which holds `used`. */
  function Filled(pages: nat, used: nat, per: nat): (n: nat)
  {
    if pages == 0 then 0 else (pages - 1) * per + used
  }

  /** The page and index in the page of the next node. */
  function NextPlace(pages: nat, used: nat, per: nat): (nat, nat)
  {
    if pages == 0 || used == per then (pages, 0) else (pages - 1, used)
  }

  /** Where the bump allocator puts the next node is the slot of its number. */
  lemma NextSlot(pages: nat, used: nat, pageSize: nat, size: nat)
    requires 0 < size <= pageSize && pageSize % size == 0 && used * size <= pageSize
    requires if pages == 0 then used == 0 else used > 0
    ensures var per, full := pageSize / size, pages == 0 || used * size == pageSize;
            var place := NextPlace(pages, used, per);
            && place == (if full then (pages, 0) else (pages - 1, used))
            && Slot(Filled(pages, used, per), pageSize, size) == (place.0, place.1 * size)
            && Filled(place.0 + 1, place.1 + 1, per) == Filled(pages, used, per) + 1
            && (place.1 + 1) * size == place.1 * size + size <= pageSize
  {
    var per := pageSize / size;
    PerPage(pageSize, size);
    Ordered(used, per, size);
    var place := NextPlace(pages, used, per);
    NextNumber(pages, used, per);
    UniqueQuotient(Filled(pages, used, per), per, place.0, place.1);
    if place.1 + 1 < per { MulStep(place.1 + 1, per, size); }
    MulStep(place.1, place.1 + 1, size);
  }

  lemma Ordered(a: nat, b: nat, size: nat)
    requires size > 0 && a * size <= b * size
    ensures a <= b && (a == b <==> a * size == b * size)
  {
    if b < a { MulStep(b, a, size); }
    if a < b { MulStep(a, b, size); }
  }

  lemma NextNumber(pages: nat, used: nat, per: nat)
    requires 0 < per && used <= per && (if pages == 0 then used == 0 else used > 0)
    ensures var place := NextPlace(pages, used, per);
            place.1 < per && Filled(pages, used, per) == place.0 * per + place.1
  {
    if pages > 0 && used == per { assert pages * per == (pages - 1) * per + per; }
  }

  /** No two nodes overlap, and every node lies inside its page. */
  lemma SlotsDisjoint(i: nat, j: nat, pageSize: nat, size: nat)
    requires 0 < size <= pageSize && pageSize % size == 0 && i < j
    ensures var a, b := Slot(i, pageSize, size), Slot(j, pageSize, size);
            && a.1 + size <= pageSize && b.1 + size <= pageSize
            && (a.0 == b.0 ==> a.1 + size <= b.1)
  {
    var per := pageSize / size;
    PerPage(pageSize, size);
    Quotient(i, per);
    Quotient(j, per);
    MulStep(i % per, per, size);
    MulStep(j % per, per, size);
    if i / per == j / per { MulStep(i % per, j % per, size); }
  }

  lemma RemoveSorted(side: Side, es: seq<Entry>, i: nat)
    requires Sorted(side, es) && i < |es|
    ensures Sorted(side, RemoveAt(es, i))
  {
    assert forall j :: 0 <= j < |es| - 1 ==> RemoveAt(es, i)[j] == es[if j < i then j else j + 1];
  }

  lemma RemoveDistinct<T>(s: seq<T>, i: nat)
    requires Distinct(s) && i < |s|
    ensures Distinct(RemoveAt(s, i)) && s[i] !in RemoveAt(s, i)
    ensures forall x :: x in s <==> x == s[i] || x in RemoveAt(s, i)
  {
    var r := RemoveAt(s, i);
    assert forall j :: 0 <= j < |r| ==> r[j] == s[if j < i then j else j + 1];
    forall x | x in s && x != s[i] ensures x in r {
      var j :| 0 <= j < |s| && s[j] == x;
      assert r[if j < i then j else j - 1] == x;
    }
  }

  /** One side of the book. */
  class CLevelFwdBook {
    const side: Side
    var v: seq<Level>

    constructor (side: Side)
      ensures this.side == side && v == [] && Valid() && Entries() == []
    {
      this.side, v := side, [];
    }

    ghost function Entries(): (es: seq<Entry>)
      reads this, v
      ensures |es| == |v| && forall i :: 0 <= i < |v| ==> es[i] == Entry(v[i].px, v[i].qty)
    {
      seq(|v|, i requires 0 <= i < |v| reads this, v => Entry(v[i].px, v[i].qty))
    }

    /** The vector is sorted and holds no node twice. */
    ghost predicate Valid()
      reads this, v
    {
      true == (Sorted(side, Entries()) && Distinct(v))
    }

    method FindBound(px: nat) returns (i: nat)
      requires Valid()
      ensures LowerBound(side, Entries(), px, i)
    {
      var lo, hi := 0, |v|;
      ghost var es := Entries();
      while lo < hi
        invariant lo <= hi <= |v|
        invariant forall j :: 0 <= j < lo ==> Before(side, es[j].px, px)
        invariant forall j :: hi <= j < |v| ==> !Before(side, es[j].px, px)
      {
        var mid := (lo + hi) / 2;
        assert es[mid].px == v[mid].px;
        if Before(side, v[mid].px, px) {
          assert forall j :: 0 <= j < mid ==> !Before(side, es[mid].px, es[j].px);
          lo := mid + 1;
        } else {
          assert forall j :: mid < j < |v| ==> !Before(side, es[j].px, es[mid].px);
          hi := mid;
        }
      }
      i := lo;
    }

    method Insert(t: Level) returns (index: nat)
      requires Valid() && t !in v
      modifies this
      ensures LowerBound(side, old(Entries()), t.px, index) && v == InsertAt(old(v), index, t)
      ensures Valid() && Entries() == InsertAt(old(Entries()), index, Entry(t.px, t.qty))
      ensures old(Strict(side, Entries())) ==> (Strict(side, Entries()) <==> t.px !in old(Table(Entries())))
    {
      index := FindBound(t.px);
      InsertKeepsOrder(side, Entries(), Entry(t.px, t.qty), index);
      v := InsertAt(v, index, t);
      assert Entries() == InsertAt(old(Entries()), index, Entry(t.px, t.qty));
    }

    /** The index of the level at `px`, found at its lower bound; -1 when there is none. */
    method Locate(px: nat) returns (index: int)
      requires Valid()
      ensures if px in Table(Entries()) then 0 <= index < |v| && v[index].px == Entries()[index].px == px else index == -1
    {
      index := FindBound(px);
      FoundAtBound(side, Entries(), px, index);
      if !(index < |v| && px == v[index].px) { index := -1; }
    }

    /** The second half of `Erase`: the located level leaves the vector. */
    method Remove(index: nat) returns (t: Level)
      requires Valid() && index < |v|
      modifies this
      ensures t == old(v)[index] && v == RemoveAt(old(v), index)
      ensures Valid() && Entries() == RemoveAt(old(Entries()), index)
    {
      t := v[index];
      RemoveSorted(side, Entries(), index);
      RemoveDistinct(v, index);
      v := RemoveAt(v, index);
      assert Entries() == RemoveAt(old(Entries()), index);
    }

    method Update(px: nat, qty: nat) returns (ok: bool, index: int)
      requires Valid()
      modifies v`qty
      ensures Valid() && (ok <==> px in old(Table(Entries())))
      ensures !ok ==> Entries() == old(Entries())
      ensures ok ==> 0 <= index < |v| && old(Entries())[index].px == px && Entries() == old(Entries())[index := Entry(px, qty)]
    {
      index := Locate(px);
      ok := index >= 0;
      if ok {
        v[index].qty := qty;
        assert Entries() == old(Entries())[index := Entry(px, qty)];
      }
    }

    /** The best level: the last one. */
    method GetBack() returns (best: Option<Entry>)
      ensures best == if Entries() == [] then None else Some(Entries()[|Entries()| - 1])
    {
      best := if v == [] then None else Some(Entry(v[|v| - 1].px, v[|v| - 1].qty));
    }

    method GetLevel(level: nat) returns (t: Option<Entry>)
      ensures t == if level < |Entries()| then Some(Entries()[level]) else None
    {
      t := if level < |v| then Some(Entry(v[level].px, v[level].qty)) else None;
    }

    /** The first `levels` levels from the back; all of them when `levels` is 0. */
    method Snap(levels: int) returns (out: seq<Entry>)
      ensures out == Best(Entries(), Depth(|v|, levels))
      ensures Strict(side, Entries()) ==> Shows(side, Table(Entries()), levels, out)
    {
      out := [];
      var i := 0;
      while (levels == 0 || i < levels) && i < |v|
        invariant i == |out| <= |v| && (levels != 0 ==> i <= if levels < 0 then 0 else levels)
        invariant forall k :: 0 <= k < i ==> out[k] == Entries()[|v| - 1 - k]
      {
        out := out + [Entry(v[|v| - 1 - i].px, v[|v| - 1 - i].qty)];
        i := i + 1;
      }
      assert out == Best(Entries(), Depth(|v|, levels));
      if Strict(side, Entries()) { Shown(side, Entries(), levels); }
    }

    method Clear() returns (levels: seq<Level>)
      modifies this
      ensures levels == old(v) && v == [] && Valid() && Entries() == []
    {
      levels := v;
      v := [];
    }
  }

  ghost function Elements(s: seq<Level>): (r: set<Level>)
  {
    set t | t in s
  }

  lemma {:induction false} CountElements(s: seq<Level>)
    requires Distinct(s)
    ensures |Elements(s)| == |s|
  {
    if s != [] {
      var rest := s[1..];
      CountElements(rest);
      assert Elements(s) == {s[0]} + Elements(rest);
    }
  }

  lemma WithoutFirst(s: seq<Level>, i: nat)
    requires Distinct(s) && i < |s|
    ensures Elements(s[i..]) - {s[i]} == Elements(s[i + 1..])
  {
    assert s[i..] == [s[i]] + s[i + 1..];
  }

  function NodeAt(s: seq<Level>, i: nat): (n: Level?) { if i < |s| then s[i] else null }

  /** `s` lists the nodes that are at home there. */
  ghost predicate Lists(nodes: set<Level>, s: seq<Level>, home: Home)
    reads nodes`home
  {
    && (forall n :: n in s ==> n in nodes && n.home == home)
    && (forall n :: n in nodes && n.home == home ==> n in s)
  }

  class CBook {
    const bids: CLevelFwdBook
    const asks: CLevelFwdBook
    const la: LevelAllocator
    var freeList: Level?
    ghost var free: seq<Level>  // the free list, first node first
    ghost var peak: nat         // the largest number of levels ever in the book at once

    constructor (pageSize: nat, size: nat)
      requires 0 < size <= pageSize && pageSize % size == 0
      ensures Valid() && Bids() == map[] && Asks() == map[] && peak == 0
    {
      bids := new CLevelFwdBook(Bid);
      asks := new CLevelFwdBook(Ask);
      la := new LevelAllocator(pageSize, size);
      freeList, free, peak := null, [], 0;
    }

    /** The tables the two sides stand for. */
    ghost function Bids(): (m: map<nat, nat>)
      reads bids, bids.v
    {
      Table(bids.Entries())
    }

    ghost function Asks(): (m: map<nat, nat>)
      reads asks, asks.v
    {
      Table(asks.Entries())
    }

    /** The free list is threaded through its nodes and ends in null; ranks fall along it, so it has no cycle. */
    ghost predicate Chain()
      reads this`freeList, this`free, free`next, free`rank
    {
      true == (
        && freeList == (if free == [] then null else free[0])
        && (forall i :: 0 <= i < |free| ==> free[i].next == NodeAt(free, i + 1))
        && (forall i :: 0 <= i < |free| ==> free[i].rank == |free| - 1 - i))
    }

    /**
      The allocated nodes are partitioned: each belongs to one side, to the other side, to
      the free list, or is held by the operation that is running (`held`).
     */
    ghost predicate Holds(one: CLevelFwdBook, oneHome: Home, other: CLevelFwdBook, otherHome: Home, held: set<Level>)
      reads this`freeList, this`free, la, la.nodes, one, other, one.v, other.v, free
    {
      true == (
        && one != other && oneHome != otherHome && OnASide(oneHome) && OnASide(otherHome)
        && one.Valid() && other.Valid() && la.Valid() && Chain()
        && Lists(la.nodes, one.v, oneHome) && Lists(la.nodes, other.v, otherHome) && Lists(la.nodes, free, OnFreeList)
        && (forall n :: n in held ==> n in la.nodes && n.home == Loose)
        && (forall n :: n in la.nodes && n.home == Loose ==> n in held)
        && la.Count() == |one.v| + |other.v| + |free| + |held|)
    }

    /**
      Between operations: the sides and the free list partition the allocated nodes, and as
      many nodes were ever allocated as there were levels at the fullest moment.
     */
    ghost predicate Valid()
      reads this, bids, asks, la, la.nodes, bids.v, asks.v, free
    {
      true == (
        && bids.side == Bid && asks.side == Ask
        && Holds(bids, OnBids, asks, OnAsks, {}) && la.Count() == peak)
    }

    lemma Swap(one: CLevelFwdBook, oneHome: Home, other: CLevelFwdBook, otherHome: Home, held: set<Level>)
      ensures Holds(one, oneHome, other, otherHome, held) <==> Holds(other, otherHome, one, oneHome, held)
    {
    }

    /** A node for a new level: the first one of the free list, or a new one. */
    method Allocate(px: nat, qty: nat, ghost one: CLevelFwdBook, ghost oneHome: Home, ghost other: CLevelFwdBook, ghost otherHome: Home) returns (t: Level)
      requires Holds(one, oneHome, other, otherHome, {})
      modifies this`freeList, this`free, la, free
      ensures Holds(one, oneHome, other, otherHome, {t}) && t.px == px && t.qty == qty
      ensures one.Entries() == old(one.Entries()) && other.Entries() == old(other.Entries())
      ensures la.Count() == old(la.Count()) + if old(free) == [] then 1 else 0
      ensures fresh(la.nodes - old(la.nodes)) && old(la.nodes) <= la.nodes
      ensures t in old(free) || fresh(t)
    {
      if freeList != null {
        t := TakeFree(px, qty, one, oneHome, other, otherHome);
      } else {
        t := TakeNew(px, qty, one, oneHome, other, otherHome);
      }
    }

    /** A node the allocator has not handed out before. */
    method TakeNew(px: nat, qty: nat, ghost one: CLevelFwdBook, ghost oneHome: Home, ghost other: CLevelFwdBook, ghost otherHome: Home) returns (t: Level)
      requires Holds(one, oneHome, other, otherHome, {})
      modifies la
      ensures Holds(one, oneHome, other, otherHome, {t}) && t.px == px && t.qty == qty
      ensures one.Entries() == old(one.Entries()) && other.Entries() == old(other.Entries())
      ensures la.Count() == old(la.Count()) + 1
      ensures fresh(la.nodes - old(la.nodes)) && old(la.nodes) <= la.nodes && fresh(t)
    {
      ghost var nodes := la.nodes;
      t := la.Allocate(px, qty);
      ListsGrow(nodes, one.v, oneHome, t);
      ListsGrow(nodes, other.v, otherHome, t);
      ListsGrow(nodes, free, OnFreeList, t);
    }

    /** The head of the free list, set up for a new level. */
    method TakeFree(px: nat, qty: nat, ghost one: CLevelFwdBook, ghost oneHome: Home, ghost other: CLevelFwdBook, ghost otherHome: Home) returns (t: Level)
      requires Holds(one, oneHome, other, otherHome, {}) && freeList != null
      modifies this`freeList, this`free, free
      ensures Holds(one, oneHome, other, otherHome, {t}) && t.px == px && t.qty == qty
      ensures one.Entries() == old(one.Entries()) && other.Entries() == old(other.Entries())
      ensures t in old(free)
    {
      assert free[0] in la.nodes && free[0].home == OnFreeList;
      t := Unthread(px, qty);
      assert one.Valid() && one.Entries() == old(one.Entries());
      assert other.Valid() && other.Entries() == old(other.Entries());
    }

    /** Unlinks the head of the free list. */
    method Unthread(px: nat, qty: nat) returns (t: Level)
      requires Chain() && freeList != null
      modifies this`freeList, this`free, freeList
      ensures Chain() && t == old(free)[0] && t !in free && free == old(free)[1..]
      ensures t.next == null && t.home == Loose && t.px == px && t.qty == qty
    {
      t := freeList;
      ghost var f := free;
      assert forall i :: 0 < i < |f| ==> f[i].rank != t.rank;
      freeList := t.next;
      t.next := null;
      t.px, t.qty := px, qty;
      t.home := Loose;
      free := f[1..];
      forall i | 0 <= i < |free| ensures free[i].next == NodeAt(free, i + 1) {
        assert free[i] == f[i + 1] && old(f[i + 1].next) == NodeAt(f, i + 2);
      }
    }

    /** Links a node in front of the free list. */
    method Thread(t: Level)
      requires Chain() && t !in free
      modifies this`freeList, this`free, t
      ensures Chain() && free == [t] + old(free)
      ensures t.home == OnFreeList
    {
      t.px, t.qty := 0, 0;
      t.next := freeList;
      freeList := t;
      t.home, t.rank := OnFreeList, |free|;
      free := [t] + free;
    }

    /** Puts a held node on the free list. */
    method Free(t: Level, ghost one: CLevelFwdBook, ghost oneHome: Home, ghost other: CLevelFwdBook, ghost otherHome: Home, ghost held: set<Level>)
      requires t in held && Holds(one, oneHome, other, otherHome, held)
      modifies this`freeList, this`free, t
      ensures Holds(one, oneHome, other, otherHome, held - {t})
      ensures one.Entries() == old(one.Entries()) && other.Entries() == old(other.Entries())
      ensures la.Count() == old(la.Count())
    {
      assert t in la.nodes && t.home == Loose;
      Thread(t);
      assert one.Valid() && one.Entries() == old(one.Entries());
      assert other.Valid() && other.Entries() == old(other.Entries());
      assert Lists(la.nodes, one.v, oneHome) && Lists(la.nodes, other.v, otherHome) && Lists(la.nodes, free, OnFreeList);
    }

    /** A held node is put in its vector. */
    method Place(t: Level, one: CLevelFwdBook, ghost oneHome: Home, ghost other: CLevelFwdBook, ghost otherHome: Home) returns (index: nat)
      requires Holds(one, oneHome, other, otherHome, {t})
      modifies one, t`home
      ensures Holds(one, oneHome, other, otherHome, {}) && la.Count() == old(la.Count())
      ensures LowerBound(one.side, old(one.Entries()), t.px, index)
      ensures one.Entries() == InsertAt(old(one.Entries()), index, Entry(t.px, t.qty))
      ensures other.Entries() == old(other.Entries())
    {
      Settle(t, one, oneHome, other, otherHome);
      index := PutIn(t, one, oneHome, other, otherHome);
    }

    method PutIn(t: Level, one: CLevelFwdBook, ghost oneHome: Home, ghost other: CLevelFwdBook, ghost otherHome: Home) returns (index: nat)
      requires Between(t, one, oneHome, other, otherHome)
      modifies one
      ensures Holds(one, oneHome, other, otherHome, {}) && la.Count() == old(la.Count())
      ensures LowerBound(one.side, old(one.Entries()), t.px, index)
      ensures one.Entries() == InsertAt(old(one.Entries()), index, Entry(t.px, t.qty))
      ensures other.Entries() == old(other.Entries())
    {
      index := one.Insert(t);
      ListsInsert(la.nodes, old(one.v), t, oneHome, index);
    }

    /** The state in which a node's home is `one` although the vector does not have it. */
    ghost predicate Between(t: Level, one: CLevelFwdBook, oneHome: Home, other: CLevelFwdBook, otherHome: Home)
      reads this`freeList, this`free, la, la.nodes, one, other, one.v, other.v, free, t
    {
      true == (
        && one != other && oneHome != otherHome && OnASide(oneHome) && OnASide(otherHome)
        && one.Valid() && other.Valid() && la.Valid() && Chain() && t !in one.v
        && ListsBut(la.nodes, one.v, oneHome, t) && Lists(la.nodes, other.v, otherHome) && Lists(la.nodes, free, OnFreeList)
        && (forall n :: n in la.nodes ==> n.home != Loose)
        && la.Count() == |one.v| + |other.v| + |free| + 1)
    }

    /** The home of a new node is set before the vector has it. */
    ghost method Settle(t: Level, one: CLevelFwdBook, oneHome: Home, other: CLevelFwdBook, otherHome: Home)
      requires Holds(one, oneHome, other, otherHome, {t})
      modifies t`home
      ensures Between(t, one, oneHome, other, otherHome)
      ensures one.Entries() == old(one.Entries()) && other.Entries() == old(other.Entries())
    {
      assert t in {t} && t in la.nodes && t.home == Loose;
      t.home := oneHome;
    }

    /** The home of an erased node is cleared after the vector has given it up. */
    ghost method Unsettle(t: Level, one: CLevelFwdBook, oneHome: Home, other: CLevelFwdBook, otherHome: Home)
      requires Between(t, one, oneHome, other, otherHome)
      modifies t`home
      ensures Holds(one, oneHome, other, otherHome, {t}) && la.Count() == old(la.Count())
      ensures one.Entries() == old(one.Entries()) && other.Entries() == old(other.Entries())
    {
      t.home := Loose;
    }

    /** `Erase` of the vector and the release of the node. */
    method EraseFrom(px: nat, one: CLevelFwdBook, ghost oneHome: Home, ghost other: CLevelFwdBook, ghost otherHome: Home) returns (ok: bool, index: int)
      requires Holds(one, oneHome, other, otherHome, {})
      modifies this`freeList, this`free, one, la.nodes
      ensures Holds(one, oneHome, other, otherHome, {}) && la.Count() == old(la.Count())
      ensures ok <==> px in old(Table(one.Entries()))
      ensures !ok ==> one.Entries() == old(one.Entries())
      ensures ok ==> 0 <= index < |old(one.Entries())| && old(one.Entries())[index].px == px
                     && one.Entries() == RemoveAt(old(one.Entries()), index)
      ensures other.Entries() == old(other.Entries())
    {
      ghost var es := one.Entries();
      index := one.Locate(px);
      ok := index >= 0;
      if ok { Release(index, one, oneHome, other, otherHome); }
      assert ok ==> one.Entries() == RemoveAt(es, index) && es[index].px == px;
    }

    /** A located level goes from its vector to the free list. */
    method Release(index: nat, one: CLevelFwdBook, ghost oneHome: Home, ghost other: CLevelFwdBook, ghost otherHome: Home)
      requires Holds(one, oneHome, other, otherHome, {}) && index < |one.v|
      modifies this`freeList, this`free, one, la.nodes
      ensures Holds(one, oneHome, other, otherHome, {}) && la.Count() == old(la.Count())
      ensures one.Entries() == RemoveAt(old(one.Entries()), index)
      ensures other.Entries() == old(other.Entries())
    {
      var t := TakeOut(index, one, oneHome, other, otherHome);
      Unsettle(t, one, oneHome, other, otherHome);
      Free(t, one, oneHome, other, otherHome, {t});
    }

    /** Takes a level out of its vector. */
    method TakeOut(index: nat, one: CLevelFwdBook, ghost oneHome: Home, ghost other: CLevelFwdBook, ghost otherHome: Home) returns (t: Level)
      requires Holds(one, oneHome, other, otherHome, {}) && index < |one.v|
      modifies one
      ensures Between(t, one, oneHome, other, otherHome) && t in la.nodes
      ensures one.Entries() == RemoveAt(old(one.Entries()), index)
      ensures other.Entries() == old(other.Entries()) && la.Count() == old(la.Count())
    {
      ListsErase(la.nodes, one.v, oneHome, index);
      t := one.Remove(index);
    }

    method UpdateIn(px: nat, qty: nat, one: CLevelFwdBook, ghost oneHome: Home, ghost other: CLevelFwdBook, ghost otherHome: Home) returns (ok: bool, index: int)
      requires Holds(one, oneHome, other, otherHome, {})
      modifies one.v`qty
      ensures Holds(one, oneHome, other, otherHome, {})
      ensures ok <==> px in old(Table(one.Entries()))
      ensures !ok ==> one.Entries() == old(one.Entries())
      ensures ok ==> 0 <= index < |old(one.Entries())| && old(one.Entries())[index].px == px
                     && one.Entries() == old(one.Entries())[index := Entry(px, qty)]
      ensures other.Entries() == old(other.Entries())
    {
      Apart(one, oneHome, other, otherHome);
      HoldsIs(one, oneHome, other, otherHome);
      ok, index := one.Update(px, qty);
      assert other.Valid() && other.Entries() == old(other.Entries());
      assert Partition(one, oneHome, other, otherHome);
      HoldsIs(one, oneHome, other, otherHome);
    }

    /** Where the nodes are, without their prices and quantities. */
    ghost predicate Partition(one: CLevelFwdBook, oneHome: Home, other: CLevelFwdBook, otherHome: Home)
      reads this`freeList, this`free, la, la.nodes`home, one, other, free`next, free`rank
    {
      true == (
        && one != other && oneHome != otherHome && OnASide(oneHome) && OnASide(otherHome)
        && la.Valid() && Chain()
        && Lists(la.nodes, one.v, oneHome) && Lists(la.nodes, other.v, otherHome) && Lists(la.nodes, free, OnFreeList)
        && (forall n :: n in la.nodes ==> n.home != Loose)
        && la.Count() == |one.v| + |other.v| + |free|)
    }

    lemma HoldsIs(one: CLevelFwdBook, oneHome: Home, other: CLevelFwdBook, otherHome: Home)
      ensures Holds(one, oneHome, other, otherHome, {}) <==> one.Valid() && other.Valid() && Partition(one, oneHome, other, otherHome)
    {
    }

    /** No node is on both sides. */
    lemma Apart(one: CLevelFwdBook, oneHome: Home, other: CLevelFwdBook, otherHome: Home)
      requires Holds(one, oneHome, other, otherHome, {})
      ensures forall i :: 0 <= i < |other.v| ==> other.v[i] !in one.v
    {
      forall i | 0 <= i < |other.v| ensures other.v[i] !in one.v { assert other.v[i].home == otherHome; }
    }

    /** A level is allocated and put in its vector, equal prices included. */
    method InsertIn(px: nat, qty: nat, one: CLevelFwdBook, ghost oneHome: Home, ghost other: CLevelFwdBook, ghost otherHome: Home) returns (index: nat)
      requires Holds(one, oneHome, other, otherHome, {}) && la.Count() == peak
      modifies this`freeList, this`free, this`peak, la, free, one
      ensures Holds(one, oneHome, other, otherHome, {}) && la.Count() == peak
      ensures LowerBound(one.side, old(one.Entries()), px, index)
      ensures one.Entries() == InsertAt(old(one.Entries()), index, Entry(px, qty))
      ensures other.Entries() == old(other.Entries())
      ensures peak == Max(old(peak), |one.v| + |other.v|)
      ensures fresh(la.nodes - old(la.nodes))
    {
      Counted(one, oneHome, other, otherHome);
      ghost var levels := |one.v| + |other.v|;
      index := InsertNode(px, qty, one, oneHome, other, otherHome);
      peak := Max(peak, levels + 1);
    }

    /** Every node is a level or free. */
    lemma Counted(one: CLevelFwdBook, oneHome: Home, other: CLevelFwdBook, otherHome: Home)
      requires Holds(one, oneHome, other, otherHome, {})
      ensures la.Count() == |one.v| + |other.v| + |free|
      ensures |one.Entries()| == |one.v| && |other.Entries()| == |other.v|
    {
    }

    method InsertNode(px: nat, qty: nat, one: CLevelFwdBook, ghost oneHome: Home, ghost other: CLevelFwdBook, ghost otherHome: Home) returns (index: nat)
      requires Holds(one, oneHome, other, otherHome, {})
      modifies this`freeList, this`free, la, free, one
      ensures Holds(one, oneHome, other, otherHome, {})
      ensures LowerBound(one.side, old(one.Entries()), px, index)
      ensures one.Entries() == InsertAt(old(one.Entries()), index, Entry(px, qty))
      ensures other.Entries() == old(other.Entries())
      ensures la.Count() == old(la.Count()) + if old(free) == [] then 1 else 0
      ensures fresh(la.nodes - old(la.nodes))
    {
      var t := Allocate(px, qty, one, oneHome, other, otherHome);
      index := Place(t, one, oneHome, other, otherHome);
    }

    /** The vector gives up all its nodes, which the operation then holds. */
    method TakeAll(one: CLevelFwdBook, ghost oneHome: Home, ghost other: CLevelFwdBook, ghost otherHome: Home) returns (levels: seq<Level>)
      requires Holds(one, oneHome, other, otherHome, {})
      modifies one, one.v`home
      ensures Holds(one, oneHome, other, otherHome, Elements(levels)) && levels == old(one.v) && Distinct(levels)
      ensures one.Entries() == [] && other.Entries() == old(other.Entries()) && la.Count() == old(la.Count())
    {
      levels := one.Clear();
      assert Emptied(levels, one, oneHome, other, otherHome);
      Hold(levels, one, oneHome, other, otherHome);
    }

    /** The state in which a vector has given up its nodes although their home is still there. */
    ghost predicate Emptied(levels: seq<Level>, one: CLevelFwdBook, oneHome: Home, other: CLevelFwdBook, otherHome: Home)
      reads this`freeList, this`free, la, la.nodes, one, other, one.v, other.v, free
    {
      true == (
        && one != other && oneHome != otherHome && OnASide(oneHome) && OnASide(otherHome)
        && one.v == [] && other.Valid() && la.Valid() && Chain() && Distinct(levels)
        && Lists(la.nodes, levels, oneHome) && Lists(la.nodes, other.v, otherHome) && Lists(la.nodes, free, OnFreeList)
        && (forall n :: n in la.nodes ==> n.home != Loose)
        && la.Count() == |levels| + |other.v| + |free|)
    }

    /** The nodes that a vector gave up are held. */
    ghost method Hold(levels: seq<Level>, one: CLevelFwdBook, oneHome: Home, other: CLevelFwdBook, otherHome: Home)
      requires Emptied(levels, one, oneHome, other, otherHome)
      modifies levels`home
      ensures Holds(one, oneHome, other, otherHome, Elements(levels)) && la.Count() == old(la.Count())
      ensures one.Entries() == [] && other.Entries() == old(other.Entries())
    {
      CountElements(levels);
      LoosenAll(la.nodes, levels, oneHome, other.v, otherHome, free);
      assert other.Valid() && other.Entries() == old(other.Entries());
      assert one.Valid() && Chain();
    }

    /** All nodes of one list become held ones; the other two lists stay. */
    ghost method LoosenAll(nodes: set<Level>, levels: seq<Level>, home: Home, others: seq<Level>, otherHome: Home, free: seq<Level>)
      requires OnASide(home) && OnASide(otherHome) && home != otherHome
      requires Lists(nodes, levels, home) && Lists(nodes, others, otherHome) && Lists(nodes, free, OnFreeList)
      modifies levels`home
      ensures Lists(nodes, [], home) && Lists(nodes, others, otherHome) && Lists(nodes, free, OnFreeList)
      ensures Lists(nodes, levels, Loose) <== old(Lists(nodes, [], Loose))
    {
      forall t | t in levels { t.home := Loose; }
    }

    /** Every level of the side goes to the free list. */
    method ClearSide(one: CLevelFwdBook, ghost oneHome: Home, ghost other: CLevelFwdBook, ghost otherHome: Home)
      requires Holds(one, oneHome, other, otherHome, {})
      modifies this`freeList, this`free, one, one.v
      ensures Holds(one, oneHome, other, otherHome, {}) && la.Count() == old(la.Count())
      ensures one.Entries() == [] && other.Entries() == old(other.Entries())
    {
      var levels := TakeAll(one, oneHome, other, otherHome);
      var i := 0;
      while i < |levels|
        invariant i <= |levels| && Distinct(levels)
        invariant Holds(one, oneHome, other, otherHome, Elements(levels[i..])) && la.Count() == old(la.Count())
        invariant one.Entries() == [] && other.Entries() == old(other.Entries())
      {
        WithoutFirst(levels, i);
        Free(levels[i], one, oneHome, other, otherHome, Elements(levels[i..]));
        i := i + 1;
      }
    }

    method InsertBid(px: nat, qty: nat) returns (index: nat)
      requires Valid()
      modifies this, la, free, bids
      ensures Valid() && LowerBound(Bid, old(bids.Entries()), px, index)
      ensures bids.Entries() == InsertAt(old(bids.Entries()), index, Entry(px, qty))
      ensures asks.Entries() == old(asks.Entries())
      ensures peak == Max(old(peak), |bids.v| + |asks.v|) && fresh(la.nodes - old(la.nodes))
    {
      index := InsertIn(px, qty, bids, OnBids, asks, OnAsks);
    }

    method InsertAsk(px: nat, qty: nat) returns (index: nat)
      requires Valid()
      modifies this, la, free, asks
      ensures Valid() && LowerBound(Ask, old(asks.Entries()), px, index)
      ensures asks.Entries() == InsertAt(old(asks.Entries()), index, Entry(px, qty))
      ensures bids.Entries() == old(bids.Entries())
      ensures peak == Max(old(peak), |bids.v| + |asks.v|) && fresh(la.nodes - old(la.nodes))
    {
      Swap(bids, OnBids, asks, OnAsks, {});
      index := InsertIn(px, qty, asks, OnAsks, bids, OnBids);
      Swap(bids, OnBids, asks, OnAsks, {});
    }

    method UpdateBid(px: nat, qty: nat) returns (ok: bool, index: int)
      requires Valid()
      modifies bids.v`qty
      ensures Valid() && (ok <==> px in old(Bids()))
      ensures !ok ==> bids.Entries() == old(bids.Entries())
      ensures ok ==> 0 <= index < |old(bids.Entries())| && old(bids.Entries())[index].px == px
                     && bids.Entries() == old(bids.Entries())[index := Entry(px, qty)]
      ensures asks.Entries() == old(asks.Entries())
    {
      ok, index := UpdateIn(px, qty, bids, OnBids, asks, OnAsks);
    }

    method UpdateAsk(px: nat, qty: nat) returns (ok: bool, index: int)
      requires Valid()
      modifies asks.v`qty
      ensures Valid() && (ok <==> px in old(Asks()))
      ensures !ok ==> asks.Entries() == old(asks.Entries())
      ensures ok ==> 0 <= index < |old(asks.Entries())| && old(asks.Entries())[index].px == px
                     && asks.Entries() == old(asks.Entries())[index := Entry(px, qty)]
      ensures bids.Entries() == old(bids.Entries())
    {
      Swap(bids, OnBids, asks, OnAsks, {});
      ok, index := UpdateIn(px, qty, asks, OnAsks, bids, OnBids);
      Swap(bids, OnBids, asks, OnAsks, {});
    }

    method EraseBid(px: nat) returns (ok: bool, index: int)
      requires Valid()
      modifies this`freeList, this`free, bids, la.nodes
      ensures Valid() && (ok <==> px in old(Bids()))
      ensures !ok ==> bids.Entries() == old(bids.Entries())
      ensures ok ==> 0 <= index < |old(bids.Entries())| && old(bids.Entries())[index].px == px
                     && bids.Entries() == RemoveAt(old(bids.Entries()), index)
      ensures asks.Entries() == old(asks.Entries())
    {
      ok, index := EraseFrom(px, bids, OnBids, asks, OnAsks);
    }

    method EraseAsk(px: nat) returns (ok: bool, index: int)
      requires Valid()
      modifies this`freeList, this`free, asks, la.nodes
      ensures Valid() && (ok <==> px in old(Asks()))
      ensures !ok ==> asks.Entries() == old(asks.Entries())
      ensures ok ==> 0 <= index < |old(asks.Entries())| && old(asks.Entries())[index].px == px
                     && asks.Entries() == RemoveAt(old(asks.Entries()), index)
      ensures bids.Entries() == old(bids.Entries())
    {
      Swap(bids, OnBids, asks, OnAsks, {});
      ok, index := EraseFrom(px, asks, OnAsks, bids, OnBids);
      Swap(bids, OnBids, asks, OnAsks, {});
    }

    method ClearBid()
      requires Valid()
      modifies this`freeList, this`free, bids, bids.v
      ensures Valid() && bids.Entries() == [] && asks.Entries() == old(asks.Entries())
    {
      ClearSide(bids, OnBids, asks, OnAsks);
    }

    method ClearAsk()
      requires Valid()
      modifies this`freeList, this`free, asks, asks.v
      ensures Valid() && asks.Entries() == [] && bids.Entries() == old(bids.Entries())
    {
      Swap(bids, OnBids, asks, OnAsks, {});
      ClearSide(asks, OnAsks, bids, OnBids);
      Swap(bids, OnBids, asks, OnAsks, {});
    }

    method Clear()
      requires Valid()
      modifies this`freeList, this`free, bids, bids.v, asks, asks.v
      ensures Valid() && Bids() == map[] && Asks() == map[]
    {
      ClearBid();
      ClearAsk();
    }

    /** No price stands twice on a side: what the feed protocol keeps. */
    ghost predicate OneLevelAPrice()
      reads bids, bids.v, asks, asks.v
    {
      Strict(Bid, bids.Entries()) && Strict(Ask, asks.Entries())
    }

    /** The highest bid; with several levels at that price, one of them. */
    method BestBid() returns (best: Option<Entry>)
      requires bids.Valid() && bids.side.Bid?
      ensures best.None? <==> Bids() == map[]
      ensures best.Some? ==> best.value in bids.Entries() && best.value.px in Bids() && forall px :: px in Bids() ==> px <= best.value.px
      ensures best.Some? && Strict(Bid, bids.Entries()) ==> Bids()[best.value.px] == best.value.qty
    {
      best := bids.GetBack();
      if best.Some? { LastIsBest(Bid, bids.Entries()); }
    }

    /** The lowest ask; with several levels at that price, one of them. */
    method BestAsk() returns (best: Option<Entry>)
      requires asks.Valid() && asks.side.Ask?
      ensures best.None? <==> Asks() == map[]
      ensures best.Some? ==> best.value in asks.Entries() && best.value.px in Asks() && forall px :: px in Asks() ==> px >= best.value.px
      ensures best.Some? && Strict(Ask, asks.Entries()) ==> Asks()[best.value.px] == best.value.qty
    {
      best := asks.GetBack();
      if best.Some? { LastIsBest(Ask, asks.Entries()); }
    }

    /** The `levels` best levels of each side, best first; all of them when `levels` is 0. */
    method Snap(levels: int) returns (bid: seq<Entry>, ask: seq<Entry>)
      ensures bid == Best(bids.Entries(), Depth(|bids.v|, levels)) && ask == Best(asks.Entries(), Depth(|asks.v|, levels))
      ensures |bid| == (if levels == 0 then |bids.v| else Min(if levels < 0 then 0 else levels, |bids.v|))
      ensures |ask| == (if levels == 0 then |asks.v| else Min(if levels < 0 then 0 else levels, |asks.v|))
      ensures bids.side.Bid? && asks.side.Ask? && OneLevelAPrice() ==> Shows(Bid, Bids(), levels, bid) && Shows(Ask, Asks(), levels, ask)
    {
      bid := SnapSide(Bid, bids, levels);
      ask := SnapSide(Ask, asks, levels);
    }

    method SnapSide(side: Side, book: CLevelFwdBook, levels: int) returns (out: seq<Entry>)
      ensures out == Best(book.Entries(), Depth(|book.v|, levels))
      ensures book.side == side && Strict(side, book.Entries()) ==> Shows(side, Table(book.Entries()), levels, out)
    {
      out := book.Snap(levels);
    }

    /** The two tables and the number of nodes ever allocated. */
    ghost function State(): Tables
      reads this`peak, bids, bids.v, asks, asks.v
    {
      Tables(Bids(), Asks(), peak)
    }

    /** A zero quantity erases the bid, another one updates it or else inserts it. */
    method ApplyBid(px: nat, qty: nat) returns (index: int)
      requires Valid() && OneLevelAPrice()
      modifies this, la, la.nodes, bids
      ensures Valid() && OneLevelAPrice() && asks.Entries() == old(asks.Entries())
      ensures Bids() == Changed(old(Bids()), px, qty)
      ensures peak == Max(old(peak), |bids.v| + |asks.v|) && fresh(la.nodes - old(la.nodes))
    {
      if qty == 0 {
        ghost var es := bids.Entries();
        var ok;
        ok, index := EraseBid(px);
        EraseChanges(Bid, es, bids.Entries(), px, ok, index);
      } else {
        index := SetBid(px, qty);
      }
    }

    method SetBid(px: nat, qty: nat) returns (index: int)
      requires Valid() && OneLevelAPrice() && qty > 0
      modifies this, la, la.nodes, bids
      ensures Valid() && OneLevelAPrice() && asks.Entries() == old(asks.Entries())
      ensures Bids() == Changed(old(Bids()), px, qty)
      ensures peak == Max(old(peak), |bids.v| + |asks.v|) && fresh(la.nodes - old(la.nodes))
    {
      ghost var es := bids.Entries();
      var ok;
      ok, index := UpdateBid(px, qty);
      if !ok { index := InsertBid(px, qty); }
      SetChanges(Bid, es, bids.Entries(), px, qty, index);
    }

    method ApplyAsk(px: nat, qty: nat) returns (index: int)
      requires Valid() && OneLevelAPrice()
      modifies this, la, la.nodes, asks
      ensures Valid() && OneLevelAPrice() && bids.Entries() == old(bids.Entries())
      ensures Asks() == Changed(old(Asks()), px, qty)
      ensures peak == Max(old(peak), |bids.v| + |asks.v|) && fresh(la.nodes - old(la.nodes))
    {
      if qty == 0 {
        ghost var es := asks.Entries();
        var ok;
        ok, index := EraseAsk(px);
        EraseChanges(Ask, es, asks.Entries(), px, ok, index);
      } else {
        index := SetAsk(px, qty);
      }
    }

    method SetAsk(px: nat, qty: nat) returns (index: int)
      requires Valid() && OneLevelAPrice() && qty > 0
      modifies this, la, la.nodes, asks
      ensures Valid() && OneLevelAPrice() && bids.Entries() == old(bids.Entries())
      ensures Asks() == Changed(old(Asks()), px, qty)
      ensures peak == Max(old(peak), |bids.v| + |asks.v|) && fresh(la.nodes - old(la.nodes))
    {
      ghost var es := asks.Entries();
      var ok;
      ok, index := UpdateAsk(px, qty);
      if !ok { index := InsertAsk(px, qty); }
      SetChanges(Ask, es, asks.Entries(), px, qty, index);
    }

    /** One change of the feed. */
    method Apply(c: Change) returns (index: int)
      requires Valid() && OneLevelAPrice()
      modifies this, la, la.nodes, bids, asks
      ensures Valid() && OneLevelAPrice() && State() == Next(old(State()), c)
      ensures c.side.Bid? ==> asks.Entries() == old(asks.Entries()) && Bids() == if c.qty == 0 then old(Bids()) - {c.px} else old(Bids())[c.px := c.qty]
      ensures c.side.Ask? ==> bids.Entries() == old(bids.Entries()) && Asks() == if c.qty == 0 then old(Asks()) - {c.px} else old(Asks())[c.px := c.qty]
      ensures fresh(la.nodes - old(la.nodes))
    {
      if c.side.Bid? { index := ApplyBid(c.px, c.qty); } else { index := ApplyAsk(c.px, c.qty); }
      Sizes();
    }

    lemma Sizes()
      requires Valid() && OneLevelAPrice()
      ensures |bids.v| == |Bids()| && |asks.v| == |Asks()|
    {
      TableSize(Bid, bids.Entries());
      TableSize(Ask, asks.Entries());
    }

    /** A whole feed: the book is the two tables, and it owns as many nodes as it had levels at its fullest. */
    method ApplyAll(feed: seq<Change>)
      requires Valid() && OneLevelAPrice()
      modifies this, la, la.nodes, bids, asks
      ensures Valid() && OneLevelAPrice() && State() == After(old(State()), feed)
      ensures la.Count() == After(old(State()), feed).fullest
      ensures LastStands(Bid, old(Bids()), feed, Bids()) && LastStands(Ask, old(Asks()), feed, Asks())
    {
      var i := 0;
      while i < |feed|
        invariant i <= |feed| && Valid() && OneLevelAPrice() && State() == After(old(State()), feed[..i])
        invariant fresh(la.nodes - old(la.nodes))
      {
        AfterOneMore(old(State()), feed, i);
        var _ := Apply(feed[i]);
        i := i + 1;
      }
      assert feed[..i] == feed;
      LastChangesStand(old(State()), feed);
    }
  }

  /** A held node is on no list. */
  lemma ListsGrow(nodes: set<Level>, s: seq<Level>, home: Home, t: Level)
    requires Lists(nodes, s, home) && t.home != home
    ensures Lists(nodes + {t}, s, home)
  {
  }

  lemma ListsErase(nodes: set<Level>, s: seq<Level>, home: Home, i: nat)
    requires Lists(nodes, s, home) && Distinct(s) && i < |s|
    ensures ListsBut(nodes, RemoveAt(s, i), home, s[i]) && s[i] !in RemoveAt(s, i)
  {
    RemoveDistinct(s, i);
  }

  /** `s` lists the nodes that are at home there, except for `t`. */
  ghost predicate ListsBut(nodes: set<Level>, s: seq<Level>, home: Home, t: Level)
    reads nodes`home, t`home
  {
    && t in nodes && t.home == home
    && (forall n :: n in s ==> n in nodes && n.home == home)
    && (forall n :: n in nodes && n.home == home ==> n in s || n == t)
  }

  lemma ListsInsert(nodes: set<Level>, s: seq<Level>, t: Level, home: Home, i: nat)
    requires ListsBut(nodes, s, home, t) && i <= |s|
    ensures Lists(nodes, InsertAt(s, i, t), home)
  {
    var r := InsertAt(s, i, t);
    assert s == s[..i] + s[i..];
    assert forall n :: n in r <==> n == t || n in s[..i] || n in s[i..];
  }
}
