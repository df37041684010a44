/**
  The two page caches of src/main/store/store.h.  A mapped page is a value that names
  the page, the file offset it is mapped at and the address `mmap` returned; an address
  is never handed out twice, so a page that was unmapped and mapped again is told apart.
 */
module PageCaches {
  import opened Sequences
  import opened LruTheory

  datatype Page = Page(index: nat, offset: nat, addr: nat)

  function Indices(entries: seq<Page>): (s: seq<nat>)
    ensures |s| == |entries| && forall i :: 0 <= i < |s| ==> s[i] == entries[i].index
  {
    seq(|entries|, i requires 0 <= i < |entries| => entries[i].index)
  }

  /** Removing the one place where `p` stands. */
  lemma {:induction false} WithoutAt(s: seq<nat>, i: nat)
    requires Distinct(s) && i < |s|
    ensures Without(s, s[i]) == RemoveAt(s, i)
  {
    if i == 0 {
      WithoutKeepsOrder(s[1..], s[0]);
    } else {
      WithoutAt(s[1..], i - 1);
      assert s[1..][..i - 1] == s[1..i] && s[1..][i..] == s[i + 1..];
    }
  }

  lemma IndicesRemoveAt(entries: seq<Page>, i: nat)
    requires i < |entries|
    ensures Indices(RemoveAt(entries, i)) == RemoveAt(Indices(entries), i)
  {
  }

  lemma CacheIsDistinct(trace: seq<nat>, k: nat)
    requires k > 0
    ensures Distinct(After(trace, k))
  {
    CacheHoldsMostRecent(trace, k);
    RecentIsSet(trace);
  }

  class LRUCache {
    const pageSize: nat
    const maxSize: nat
    var entries: seq<Page>
    var nextAddr: nat
    var mapped: map<nat, nat>   // the process's live mappings: address to file offset
    ghost var trace: seq<nat>   // the page index of every lookup made

    constructor (pageSize: nat, maxSize: nat)
      requires pageSize > 0 && maxSize > 0
      ensures Valid() && fresh(this)
      ensures this.pageSize == pageSize && this.maxSize == maxSize && entries == []
    {
      this.pageSize, this.maxSize := pageSize, maxSize;
      entries, nextAddr, mapped, trace := [], 0, map[], [];
    }

    /** The deque holds the most recently used pages, each mapped at its own offset. */
    ghost predicate Valid()
      reads this
    {
      true == (  // an equation, so that the verifier passes it on as one fact
        && pageSize > 0 && maxSize > 0
        && Indices(entries) == After(trace, maxSize)
        && |entries| <= maxSize
        && (forall i :: 0 <= i < |entries| ==> entries[i].offset == entries[i].index * pageSize)
        && Alive(entries, mapped, nextAddr))
    }

    /**
      Returns the page holding `offset`, mapping it when it is not cached.  `from` is the
      place of the entry that moved to the front or was evicted, if there was one; every
      other entry keeps its mapping and its order.
     */
    method FindPage(offset: nat) returns (page: Page, ghost from: Option<nat>)
      requires Valid()
      modifies this
      ensures Valid() && trace == old(trace) + [offset / pageSize]
      ensures page.index == offset / pageSize && page.offset == page.index * pageSize
      ensures from.Some? ==> from.value < |old(entries)|
      ensures entries == [page] + if from.Some? then RemoveAt(old(entries), from.value) else old(entries)
      ensures from.Some? && page != old(entries)[from.value] ==> from.value == maxSize - 1 && page.addr == old(nextAddr)
      ensures from.None? ==> page.addr == old(nextAddr)
    {
      var pageIndex := offset / pageSize;
      var b := Search(pageIndex);
      if b < |entries| {
        page, from := entries[b], Some(b);
        MoveToFront(b);
      } else {
        page, from := MapPage(pageIndex);
      }
    }

    /** The scan of the deque: the first entry for the page, or the end. */
    method Search(pageIndex: nat) returns (b: nat)
      requires Valid()
      ensures b <= |entries|
      ensures if b < |entries| then entries[b].index == pageIndex else pageIndex !in Indices(entries)
    {
      b := 0;
      while b < |entries| && entries[b].index != pageIndex
        invariant b <= |entries| && forall i :: 0 <= i < b ==> entries[i].index != pageIndex
      {
        b := b + 1;
      }
    }

    method MoveToFront(b: nat)
      requires Valid() && b < |entries|
      modifies this`entries, this`trace
      ensures Valid() && trace == old(trace) + [old(entries)[b].index]
      ensures entries == [old(entries)[b]] + RemoveAt(old(entries), b)
    {
      HitTouches(trace, maxSize, entries, b);
      StillAlive(entries, mapped, nextAddr, b);
      trace := trace + [entries[b].index];
      entries := [entries[b]] + RemoveAt(entries, b);
    }

    /** A page that is not cached: the oldest entry makes room when the deque is full. */
    method MapPage(pageIndex: nat) returns (page: Page, ghost from: Option<nat>)
      requires Valid() && pageIndex !in Indices(entries)
      modifies this
      ensures Valid() && trace == old(trace) + [pageIndex]
      ensures page == Page(pageIndex, pageIndex * pageSize, old(nextAddr))
      ensures from == if |old(entries)| == maxSize then Some(maxSize - 1) else None
      ensures entries == [page] + if from.Some? then RemoveAt(old(entries), from.value) else old(entries)
    {
      from := None;
      MissTouches(trace, maxSize, entries, Page(pageIndex, pageIndex * pageSize, nextAddr));
      trace := trace + [pageIndex];
      if |entries| == maxSize {
        from := Some(|entries| - 1);
        Unmap();
      }
      page := Map(pageIndex);
    }

    /** `munmap` of the oldest entry. */
    method Unmap()
      requires entries != [] && Alive(entries, mapped, nextAddr)
      modifies this`entries, this`mapped
      ensures entries == old(entries)[..|old(entries)| - 1] && Alive(entries, mapped, nextAddr)
    {
      mapped := mapped - {entries[|entries| - 1].addr};
      entries := entries[..|entries| - 1];
    }

    /** `mmap` of a page at an address not used before. */
    method Map(pageIndex: nat) returns (page: Page)
      requires Alive(entries, mapped, nextAddr)
      modifies this`entries, this`mapped, this`nextAddr
      ensures page == Page(pageIndex, pageIndex * pageSize, old(nextAddr))
      ensures entries == [page] + old(entries) && Alive(entries, mapped, nextAddr)
    {
      page := Page(pageIndex, pageIndex * pageSize, nextAddr);
      mapped := mapped[nextAddr := page.offset];
      nextAddr := nextAddr + 1;
      entries := [page] + entries;
    }
  }

  /** Every cached page is mapped, at an address of its own. */
  ghost predicate Alive(entries: seq<Page>, mapped: map<nat, nat>, nextAddr: nat)
  {
    && (forall i :: 0 <= i < |entries| ==> entries[i].addr in mapped && mapped[entries[i].addr] == entries[i].offset)
    && (forall i, j :: 0 <= i < j < |entries| ==> entries[i].addr != entries[j].addr)
    && (forall a :: a in mapped ==> a < nextAddr)
  }

  /** Moving an entry to the front keeps what is mapped, and every entry is one of before. */
  lemma StillAlive(entries: seq<Page>, mapped: map<nat, nat>, nextAddr: nat, b: nat)
    requires Alive(entries, mapped, nextAddr) && b < |entries|
    ensures var moved := [entries[b]] + RemoveAt(entries, b);
            Alive(moved, mapped, nextAddr) && |moved| == |entries| && forall i :: 0 <= i < |moved| ==> moved[i] in entries
  {
    var moved := [entries[b]] + RemoveAt(entries, b);
    assert forall i :: 0 <= i < |moved| ==> moved[i] == entries[if i == 0 then b else if i <= b then i - 1 else i];
  }

  lemma HitTouches(trace: seq<nat>, k: nat, entries: seq<Page>, b: nat)
    requires k > 0 && Indices(entries) == After(trace, k) && b < |entries| <= k
    ensures Indices([entries[b]] + RemoveAt(entries, b)) == After(trace + [entries[b].index], k)
  {
    CacheIsDistinct(trace, k);
    WithoutAt(Indices(entries), b);
    IndicesRemoveAt(entries, b);
    assert (trace + [entries[b].index])[..|trace|] == trace;
    assert Indices([entries[b]] + RemoveAt(entries, b)) == [entries[b].index] + Indices(RemoveAt(entries, b));
  }

  lemma MissTouches(trace: seq<nat>, k: nat, entries: seq<Page>, page: Page)
    requires k > 0 && Indices(entries) == After(trace, k) && |entries| <= k && page.index !in Indices(entries)
    ensures Indices([page] + if |entries| == k then entries[..k - 1] else entries) == After(trace + [page.index], k)
  {
    CacheIsDistinct(trace, k);
    WithoutKeepsOrder(Indices(entries), page.index);
    assert (trace + [page.index])[..|trace|] == trace;
  }
}
