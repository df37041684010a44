/**
  The drop-behind cache of anonymous logs (src/main/store/store.h:355-425): pages are
  added in order as they are written, and a lookup unmaps every page that ends at or
  before the offset looked up.
 */
module OneShot {
  import opened Sequences
  import opened Pages

  datatype Event = Added(offset: nat) | Looked(offset: nat)

  /** The pages left after unmapping, from the front, those that end at or before `x`. */
  function DropBehind(pages: seq<nat>, x: nat, pageSize: nat): (r: seq<nat>)
  {
    if pages == [] || x < pages[0] + pageSize then pages else DropBehind(pages[1..], x, pageSize)
  }

  /** What a lookup of `x` returns: the first page left, when `x` is in it. */
  function Front(pages: seq<nat>, x: nat, pageSize: nat): (page: Option<nat>)
  {
    var left := DropBehind(pages, x, pageSize);
    if left != [] && left[0] <= x < left[0] + pageSize then Some(left[0]) else None
  }

  /** The deque after a history of additions and lookups. */
  function Live(history: seq<Event>, pageSize: nat): (r: seq<nat>)
  {
    if history == [] then []
    else
      var before := Live(history[..|history| - 1], pageSize);
      match history[|history| - 1]
      case Added(o) => before + [o]
      case Looked(x) => DropBehind(before, x, pageSize)
  }

  /** Every addition met the two assertions of `AddPage`. */
  ghost predicate InOrder(history: seq<Event>, pageSize: nat)
  {
    history == [] ||
    var before, e := history[..|history| - 1], history[|history| - 1];
    && InOrder(before, pageSize)
    && (e.Added? ==> pageSize > 0 && e.offset % pageSize == 0
                     && (Live(before, pageSize) != [] ==> Live(before, pageSize)[|Live(before, pageSize)| - 1] < e.offset))
  }

  ghost predicate Increasing(pages: seq<nat>) { forall i, j :: 0 <= i < j < |pages| ==> pages[i] < pages[j] }

  lemma {:induction false} DropBehindIsSuffix(pages: seq<nat>, x: nat, pageSize: nat) returns (k: nat)
    requires Increasing(pages)
    ensures k <= |pages| && DropBehind(pages, x, pageSize) == pages[k..]
    ensures forall i :: 0 <= i < k ==> pages[i] + pageSize <= x
    ensures forall i :: k <= i < |pages| ==> x < pages[i] + pageSize
  {
    if pages == [] || x < pages[0] + pageSize {
      k := 0;
    } else {
      var j := DropBehindIsSuffix(pages[1..], x, pageSize);
      k := j + 1;
      assert pages[1..][j..] == pages[k..];
      forall i | 0 <= i < k ensures pages[i] + pageSize <= x {
        if i > 0 { assert pages[i] == pages[1..][i - 1]; }
      }
      forall i | k <= i < |pages| ensures x < pages[i] + pageSize { assert pages[i] == pages[1..][i - 1]; }
    }
  }

  lemma {:induction false} LiveIsIncreasing(history: seq<Event>, pageSize: nat)
    requires InOrder(history, pageSize)
    ensures Increasing(Live(history, pageSize))
    ensures forall i :: 0 <= i < |Live(history, pageSize)| ==> pageSize > 0 && Live(history, pageSize)[i] % pageSize == 0
  {
    if history != [] {
      var before, e := history[..|history| - 1], history[|history| - 1];
      LiveIsIncreasing(before, pageSize);
      if e.Looked? { var k := DropBehindIsSuffix(Live(before, pageSize), e.offset, pageSize); }
    }
  }

  /** The addition at `i` was followed by no lookup of a strictly later page. */
  ghost predicate Undisturbed(history: seq<Event>, i: nat, o: nat, pageSize: nat)
  {
    && i < |history| && history[i] == Added(o)
    && forall j :: i < j < |history| && history[j].Looked? ==> history[j].offset < o + pageSize
  }

  lemma Extend(history: seq<Event>, e: Event, pageSize: nat)
    ensures (history + [e])[..|history|] == history
    ensures Live(history + [e], pageSize) ==
            if e.Added? then Live(history, pageSize) + [e.offset] else DropBehind(Live(history, pageSize), e.offset, pageSize)
    ensures InOrder(history, pageSize) && e.Looked? ==> InOrder(history + [e], pageSize)
  {
    assert (history + [e])[..|history|] == history;
  }

  /** A page is in the cache exactly while no strictly later page has been looked up since it was added. */
  lemma {:induction false} LiveUntilPassed(history: seq<Event>, pageSize: nat, o: nat)
    requires InOrder(history, pageSize)
    ensures o in Live(history, pageSize) <==> exists i :: Undisturbed(history, i, o, pageSize)
  {
    if o in Live(history, pageSize) { var i := LiveIsUndisturbed(history, pageSize, o); }
    if i :| Undisturbed(history, i, o, pageSize) { UndisturbedIsLive(history, pageSize, o, i); }
  }

  lemma {:induction false} LiveIsUndisturbed(history: seq<Event>, pageSize: nat, o: nat) returns (i: nat)
    requires InOrder(history, pageSize) && o in Live(history, pageSize)
    ensures Undisturbed(history, i, o, pageSize)
  {
    var before, e := history[..|history| - 1], history[|history| - 1];
    LiveIsIncreasing(before, pageSize);
    if e == Added(o) {
      i := |before|;
    } else {
      if e.Looked? { var k := DropBehindIsSuffix(Live(before, pageSize), e.offset, pageSize); }
      i := LiveIsUndisturbed(before, pageSize, o);
      assert before[i] == history[i];
      forall j | i < j < |history| && history[j].Looked? ensures history[j].offset < o + pageSize {
        if j < |before| { assert before[j] == history[j]; }
      }
    }
  }

  lemma {:induction false} UndisturbedIsLive(history: seq<Event>, pageSize: nat, o: nat, i: nat)
    requires InOrder(history, pageSize) && Undisturbed(history, i, o, pageSize)
    ensures o in Live(history, pageSize)
  {
    var before, e := history[..|history| - 1], history[|history| - 1];
    if i < |before| {
      LookedBefore(history, i, o, pageSize);
      UndisturbedIsLive(before, pageSize, o, i);
      if e.Looked? {
        LiveIsIncreasing(before, pageSize);
        var live := Live(before, pageSize);
        var k := DropBehindIsSuffix(live, e.offset, pageSize);
        var m :| 0 <= m < |live| && live[m] == o;
        assert k <= m && live[k..][m - k] == o;
      }
    }
  }

  lemma LookedBefore(history: seq<Event>, i: nat, o: nat, pageSize: nat)
    requires Undisturbed(history, i, o, pageSize) && i < |history| - 1
    ensures Undisturbed(history[..|history| - 1], i, o, pageSize)
  {
    var before := history[..|history| - 1];
    forall j | i < j < |before| && before[j].Looked? ensures before[j].offset < o + pageSize {
      assert before[j] == history[j];
    }
  }

  /** A lookup finds the page with `x` exactly when one is cached: the pages in front of it, and only those, are dropped on the way. */
  lemma FrontIsCached(pages: seq<nat>, x: nat, pageSize: nat, o: nat)
    requires pageSize > 0 && Increasing(pages) && (forall i :: 0 <= i < |pages| ==> pages[i] % pageSize == 0)
    requires o % pageSize == 0 && o <= x < o + pageSize
    ensures Front(pages, x, pageSize) == Some(o) <==> o in pages
    ensures Front(pages, x, pageSize) == None <==> o !in pages
  {
    var k := DropBehindIsSuffix(pages, x, pageSize);
    if o in pages {
      var m :| 0 <= m < |pages| && pages[m] == o;
      assert k <= m;
      if k < m { Below(pages[k], o, pageSize); }
    }
    if k < |pages| && pages[k] <= x && pages[k] != o {
      if pages[k] < o { Below(pages[k], o, pageSize); } else { Below(o, pages[k], pageSize); }
    }
  }

  /**
    Over any history: a lookup in a page finds it if and only if the page was added and no
    strictly later page has been looked up since.  So an added page is found by every later
    lookup inside it until the first lookup of a strictly later page, and never after.
   */
  lemma FoundExactlyWhen(history: seq<Event>, pageSize: nat, x: nat, o: nat)
    requires pageSize > 0 && InOrder(history, pageSize) && o % pageSize == 0 && o <= x < o + pageSize
    ensures Front(Live(history, pageSize), x, pageSize) == Some(o) <==> exists i :: Undisturbed(history, i, o, pageSize)
    ensures Front(Live(history, pageSize), x, pageSize) == None <==> forall i :: !Undisturbed(history, i, o, pageSize)
  {
    LiveIsIncreasing(history, pageSize);
    LiveUntilPassed(history, pageSize, o);
    FrontIsCached(Live(history, pageSize), x, pageSize, o);
  }

  class OneShotCache {
    const pageSize: nat
    var pages: seq<nat>
    ghost var history: seq<Event>

    constructor (pageSize: nat)
      requires pageSize > 0
      ensures Valid() && fresh(this) && this.pageSize == pageSize && pages == []
    {
      this.pageSize := pageSize;
      pages, history := [], [];
    }

    ghost predicate Valid()
      reads this
    {
      pageSize > 0 && InOrder(history, pageSize) && pages == Live(history, pageSize)
    }

    /** Unmaps the `k` pages behind `offset` and returns the page that holds it, if it is still mapped. */
    method FindPage(offset: nat) returns (page: Option<nat>, ghost k: nat)
      requires Valid()
      modifies this
      ensures Valid() && history == old(history) + [Looked(offset)]
      ensures k <= |old(pages)| && pages == old(pages)[k..]
      ensures forall i :: 0 <= i < k ==> old(pages)[i] + pageSize <= offset
      ensures k < |old(pages)| ==> offset < old(pages)[k] + pageSize
      ensures page == if pages != [] && pages[0] <= offset then Some(pages[0]) else None
      ensures page == if PageStart(offset, pageSize) in old(pages) then Some(PageStart(offset, pageSize)) else None
      ensures page.Some? <==> exists i :: Undisturbed(old(history), i, PageStart(offset, pageSize), pageSize)
    {
      LiveIsIncreasing(history, pageSize);
      FoundExactlyWhen(history, pageSize, offset, PageStart(offset, pageSize));
      FrontIsCached(pages, offset, pageSize, PageStart(offset, pageSize));
      Extend(history, Looked(offset), pageSize);
      history := history + [Looked(offset)];
      k := 0;
      while pages != [] && offset >= pages[0] + pageSize
        invariant history == old(history) + [Looked(offset)]
        invariant k <= |old(pages)| && pages == old(pages)[k..]
        invariant DropBehind(pages, offset, pageSize) == DropBehind(old(pages), offset, pageSize)
        invariant forall i :: 0 <= i < k ==> old(pages)[i] + pageSize <= offset
        decreases |pages|
      {
        pages, k := pages[1..], k + 1;
      }
      page := None;
      if pages != [] {
        if offset >= pages[0] && offset < pages[0] + pageSize {
          page := Some(pages[0]);
        }
      }
    }

    /** The page holding `offset`, without unmapping anything. */
    method PeakPage(offset: nat) returns (page: Option<nat>)
      requires Valid()
      ensures page.Some? ==> page.value in pages && page.value <= offset < page.value + pageSize
      ensures page.Some? <==> exists i :: 0 <= i < |pages| && pages[i] <= offset < pages[i] + pageSize
    {
      var b := 0;
      while b < |pages|
        invariant b <= |pages|
        invariant forall i :: 0 <= i < b ==> !(pages[i] <= offset < pages[i] + pageSize)
      {
        if offset >= pages[b] && offset < pages[b] + pageSize { return Some(pages[b]); }
        b := b + 1;
      }
      page := None;
    }

    method AddPage(o: nat)
      requires Valid()
      requires o % pageSize == 0 && (pages != [] ==> pages[|pages| - 1] < o)
      modifies this
      ensures Valid() && pages == old(pages) + [o] && history == old(history) + [Added(o)]
    {
      Extend(history, Added(o), pageSize);
      history := history + [Added(o)];
      pages := pages + [o];
    }
  }
}
