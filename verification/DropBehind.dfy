/**
  Gathered writes over a drop-behind cache (src/main/store/store.h:389-405, 727-752): every
  page that is looked up makes the cache unmap the pages before it, and with them the
  addresses that were gathered from those pages.
 */
module DropBehind {
  import opened Sequences
  import opened Pages
  import opened RWStream

  /** What is mapped.  A page of such a log is mapped once, so its offset stands for its address. */
  ghost function Kept(log: LogRWStream): (mapped: map<nat, nat>)
    requires log.cache.DropBehindCache?
    reads log.cache.one
  {
    map o | o in log.cache.one.pages :: o
  }

  /** What is read through the addresses of the runs. */
  ghost function Readable(log: LogRWStream, runs: seq<Segment>): (s: seq<Byte>)
    requires log.cache.DropBehindCache?
    reads log, log.writeBuf, log.writeBuf.file, log.cache.one
  {
    Deref(Kept(log), runs, log.writeBuf.file.bytes)
  }

  function Total(runs: seq<Segment>): (n: nat)
  {
    if runs == [] then 0 else Total(runs[..|runs| - 1]) + runs[|runs| - 1].len
  }

  /** Where what lies in the last page of `n` bytes from `start` on begins. */
  function LastPart(start: nat, n: nat, p: nat): (from: nat)
    requires p > 0 && n > 0
    ensures start <= from < start + n
  {
    Max(start, PageStart(start + n - 1, p))
  }

  /** `n` bytes from `start` on, one run a page. */
  function PageRuns(start: nat, n: nat, p: nat): (runs: seq<Segment>)
    requires p > 0
    decreases n
  {
    if n == 0 then []
    else
      var base, from := PageStart(start + n - 1, p), LastPart(start, n, p);
      PageRuns(start, from - start, p) + [Segment(base, from - base, start + n - from)]
  }

  /**
    The runs of a gather-write of `size` written bytes, or a refusal (-2 in the source) when their
    first page is not cached any more.  What can be read through the addresses when the callback
    gets them is what lies in the last page, and so all that was asked for exactly when that
    lies in one page.
   */
  method Gather(log: LogRWStream, start: nat, size: nat, cacheSize: nat) returns (ok: bool, runs: seq<Segment>)
    requires log.Valid() && log.cache.DropBehindCache? && cacheSize > 0 && 0 < size && start + size <= log.available
    modifies log.CacheParts()
    ensures log.Valid() && (ok <==> old(log.Floor()) <= start)
    ensures ok ==> 0 < Total(runs) == Min(size, PageStart(start, log.pageSize) + Span(cacheSize, log.pageSize) - start)
    ensures ok ==> runs == PageRuns(start, Total(runs), log.pageSize)
    ensures ok ==> Readable(log, runs) == log.Log()[LastPart(start, Total(runs), log.pageSize)..start + Total(runs)]
    ensures ok ==> (Readable(log, runs) == log.Log()[start..start + Total(runs)]
                    <==> start % log.pageSize + Total(runs) <= log.pageSize)
  {
    ghost var p, f := log.pageSize, log.Floor();
    ghost var next, queued;
    ok, runs, next, queued := GatherPages(log, start, size, cacheSize);
    if ok {
      HowMuch(runs, next, queued, start, size, cacheSize, p, log.Floor(), f, log.available);
      OnlyLastKept(log, runs, next, queued, start, Min(size, Span(cacheSize, p)), f);
    }
  }

  /** Where the loop stops. */
  lemma {:induction false} HowMuch(runs: seq<Segment>, next: nat, queued: nat, start: nat, size: nat, c: nat, p: nat, floor: nat, f: nat, available: nat)
    requires Trail(runs, next, queued, start, Min(size, Span(c, p)), p, floor, f) && p > 0 && c > 0 && 0 < size && start + size <= available
    requires OnPage(PageStart(start, p), next, |runs|, c, p, PageStart(available, p) + p)
    requires queued >= Min(size, Span(c, p)) || next > PageStart(available, p) || |runs| >= c
    ensures f <= start && 0 < queued == Min(size, PageStart(start, p) + Span(c, p) - start)
  {
    HowFar(PageStart(start, p), next, PageStart(available, p), |runs|, c, p, start, size, queued, PageStart(available, p) + p);
  }

  /** The loop over pages. */
  method GatherPages(log: LogRWStream, start: nat, size: nat, cacheSize: nat) returns (ok: bool, runs: seq<Segment>, ghost next: nat, ghost gathered: nat)
    requires log.Valid() && log.cache.DropBehindCache? && cacheSize > 0 && 0 < size && start + size <= log.available
    modifies log.CacheParts()
    ensures Gathering(log, ok, runs, next, gathered, start, Min(size, Span(cacheSize, log.pageSize)), old(log.Floor()))
    ensures var p := log.pageSize;
            OnPage(PageStart(start, p), next, |runs|, cacheSize, p, PageStart(log.available, p) + p)
    ensures ok ==> gathered >= Min(size, Span(cacheSize, log.pageSize)) || next > PageStart(log.available, log.pageSize) || |runs| >= cacheSize
  {
    var p := log.pageSize;
    var limit, lastPage := Min(size, Span(cacheSize, p)), PageStart(log.available, p);
    ghost var first, f, r := PageStart(start, p), log.Floor(), lastPage + p;
    var pageStart, queued := PageStart(start, p), 0;
    ok, runs := true, [];
    log.Bounds();
    while ok && queued < limit && pageStart <= lastPage && |runs| < cacheSize
      invariant Gathering(log, ok, runs, pageStart, queued, start, limit, f)
      invariant OnPage(first, pageStart, |runs|, cacheSize, p, r)
      decreases ok, cacheSize - |runs|
    {
      ok, runs, queued, pageStart := GatherOne(log, runs, pageStart, queued, start, limit, cacheSize, f, r);
    }
    next, gathered := pageStart, queued;
  }

  /** How far `Gather` has come; `f` is the floor where it began. */
  ghost predicate Gathering(log: LogRWStream, ok: bool, runs: seq<Segment>, pageStart: nat, queued: nat, start: nat, limit: nat, f: nat)
    reads log.Parts()
  {
    true == (
      && log.Valid() && log.cache.DropBehindCache? && start + limit <= log.available
      && (if ok then Trail(runs, pageStart, queued, start, limit, log.pageSize, log.Floor(), f) else f > start))
  }

  /** The page of the last run is the oldest that is cached. */
  ghost predicate Trail(runs: seq<Segment>, pageStart: nat, queued: nat, start: nat, limit: nat, p: nat, floor: nat, f: nat)
  {
    true == (
      && p > 0 && pageStart % p == 0 && runs == PageRuns(start, queued, p) && queued <= limit
      && start < pageStart + p && start + queued == Min(start + limit, Max(start, pageStart))
      && (if queued == 0 then pageStart == PageStart(start, p) && floor == f
          else f <= start && pageStart == floor + p && floor == PageStart(start + queued - 1, p)))
  }

  /** One turn of the loop. */
  method GatherOne(log: LogRWStream, runs: seq<Segment>, pageStart: nat, queued: nat, start: nat, limit: nat, cacheSize: nat, ghost f: nat, ghost r: nat)
    returns (ok: bool, runs': seq<Segment>, queued': nat, pageStart': nat)
    requires Gathering(log, true, runs, pageStart, queued, start, limit, f) && queued < limit && |runs| < cacheSize
    requires f % log.pageSize == 0 && r == PageStart(log.available, log.pageSize) + log.pageSize
    requires OnPage(PageStart(start, log.pageSize), pageStart, |runs|, cacheSize, log.pageSize, r)
    modifies log.CacheParts()
    ensures Gathering(log, ok, runs', pageStart', queued', start, limit, f) && (ok ==> |runs'| == |runs| + 1)
    ensures OnPage(PageStart(start, log.pageSize), pageStart', |runs'|, cacheSize, log.pageSize, r)
  {
    ghost var floor, reach := log.Floor(), log.Reach();
    var p := log.pageSize;
    log.Bounds();
    NextPageThere(runs, pageStart, queued, start, limit, p, floor, f, log.available);
    SpanStep(|runs|, cacheSize, p);
    var pageOffset := (start + queued) % p;
    var base := log.FindPage(pageStart);
    ok := base.Some?;
    runs', queued', pageStart' := runs, queued, pageStart;
    if ok {
      var run := Segment(pageStart, pageOffset, Min(limit - queued, p - pageOffset));
      runs', queued', pageStart' := runs + [run], queued + run.len, pageStart + p;
    }
    TrailOn(runs, pageStart, queued, start, limit, p, floor, f, log.available, reach, log.Floor(), ok, runs', queued', pageStart');
  }

  /** The next page is one that was written. */
  lemma {:induction false} NextPageThere(runs: seq<Segment>, pageStart: nat, queued: nat, start: nat, limit: nat, p: nat, floor: nat, f: nat, available: nat)
    requires Trail(runs, pageStart, queued, start, limit, p, floor, f) && queued < limit && start + limit <= available
    ensures p > 0 && pageStart % p == 0 && pageStart <= PageStart(available, p)
  {
    Aligned(PageStart(available, p), pageStart, p);
  }

  /** The lookup of the next page drops those before it; the cache has it unless it is the first one and too old. */
  lemma {:induction false} TrailOn(runs: seq<Segment>, pageStart: nat, queued: nat, start: nat, limit: nat, p: nat, floor: nat, f: nat, available: nat, reach: nat, floor': nat,
      found: bool, runs': seq<Segment>, queued': nat, pageStart': nat)
    requires Trail(runs, pageStart, queued, start, limit, p, floor, f) && queued < limit && f % p == 0 && start + limit <= available <= reach
    requires floor' == Max(floor, Min(pageStart, reach)) && (found <==> floor <= pageStart < reach)
    requires p > 0
    requires var o := (start + queued) % p;
             var run := Segment(pageStart, o, Min(limit - queued, p - o));
             found ==> runs' == runs + [run] && queued' == queued + run.len && pageStart' == pageStart + p
    ensures if found then Trail(runs', pageStart', queued', start, limit, p, floor', f) else f > start
  {
    NextRun(pageStart, p, start, queued, limit);
    Aligned(PageStart(start, p), f, p);
    var o := (start + queued) % p;
    OneMoreRun(start, queued, Min(limit - queued, p - o), pageStart, p);
  }

  lemma {:induction false} OneMoreRun(start: nat, queued: nat, len: nat, pageStart: nat, p: nat)
    requires p > 0 && pageStart % p == 0 && len > 0 && start + queued == Max(start, pageStart) && start + queued + len <= pageStart + p
    ensures PageStart(start + queued + len - 1, p) == pageStart
    ensures PageRuns(start, queued + len, p) == PageRuns(start, queued, p) + [Segment(pageStart, start + queued - pageStart, len)]
  {
    var last := start + queued + len - 1;
    Aligned(PageStart(last, p), pageStart, p);
    Aligned(pageStart, PageStart(last, p), p);
  }

  /** Only what lies in the last page can be read through the addresses. */
  lemma {:induction false} OnlyLastKept(log: LogRWStream, runs: seq<Segment>, pageStart: nat, queued: nat, start: nat, limit: nat, f: nat)
    requires Gathering(log, true, runs, pageStart, queued, start, limit, f) && queued > 0
    ensures 0 < Total(runs) == queued && runs == PageRuns(start, Total(runs), log.pageSize)
    ensures Readable(log, runs) == log.Log()[LastPart(start, Total(runs), log.pageSize)..start + Total(runs)]
    ensures Readable(log, runs) == log.Log()[start..start + Total(runs)] <==> start % log.pageSize + Total(runs) <= log.pageSize
  {
    log.Bounds();
    OldestKept(log);
    KeptRuns(Kept(log), runs, log.writeBuf.file.bytes, pageStart, queued, start, limit, log.pageSize, log.Floor(), f, log.available);
  }

  lemma {:induction false} KeptRuns(mapped: map<nat, nat>, runs: seq<Segment>, bytes: seq<Byte>, pageStart: nat, queued: nat, start: nat, limit: nat, p: nat, floor: nat, f: nat, available: nat)
    requires Trail(runs, pageStart, queued, start, limit, p, floor, f) && p > 0 && queued > 0 && start + limit <= available <= |bytes|
    requires floor < |bytes| ==> floor in mapped && mapped[floor] == floor
    requires forall a :: a in mapped ==> floor <= a
    ensures 0 < Total(runs) == queued && runs == PageRuns(start, Total(runs), p) && start + queued <= available
    ensures Deref(mapped, runs, bytes) == bytes[..available][LastPart(start, Total(runs), p)..start + Total(runs)]
    ensures Deref(mapped, runs, bytes) == bytes[..available][start..start + Total(runs)] <==> start % p + Total(runs) <= p
  {
    var before, from := LastRun(start, queued, p);
    ReadsLast(mapped, runs, before, floor, start, from, start + queued, bytes, available);
  }

  /** What is mapped begins at the floor. */
  lemma OldestKept(log: LogRWStream)
    requires log.Valid() && log.cache.DropBehindCache?
    ensures log.Floor() < log.Reach() ==> log.Floor() in Kept(log) && Kept(log)[log.Floor()] == log.Floor()
    ensures forall a :: a in Kept(log) ==> log.Floor() <= a
  {
    var pages := log.cache.one.pages;
    forall a | a in Kept(log) ensures log.Floor() <= a {
      var j :| 0 <= j < |pages| && pages[j] == a;
      StartsBelow(pages, log.pageSize, log.writeBuf.offset, j);
    }
  }

  /** The last run, and those before it. */
  lemma {:induction false} LastRun(start: nat, n: nat, p: nat) returns (before: seq<Segment>, from: nat)
    requires p > 0 && n > 0
    ensures from == LastPart(start, n, p) && Total(PageRuns(start, n, p)) == n
    ensures var base := PageStart(start + n - 1, p);
            base <= from && PageRuns(start, n, p) == before + [Segment(base, from - base, start + n - from)]
            && forall t :: 0 <= t < |before| ==> before[t].addr < base
    ensures from == start <==> start % p + n <= p
  {
    from := LastPart(start, n, p);
    before := PageRuns(start, from - start, p);
    RunsBelow(start, n, p);
    RunsBelow(start, from - start, p);
    OnePage(start, PageStart(start, p), PageStart(start + n - 1, p), n, p);
  }

  lemma {:induction false} ReadsLast(mapped: map<nat, nat>, runs: seq<Segment>, before: seq<Segment>, base: nat, start: nat, from: nat, end: nat, bytes: seq<Byte>, available: nat)
    requires base <= from && start <= from < end <= available <= |bytes|
    requires runs == before + [Segment(base, from - base, end - from)] && forall t :: 0 <= t < |before| ==> before[t].addr < base
    requires base in mapped && mapped[base] == base && forall a :: a in mapped ==> base <= a
    ensures Deref(mapped, runs, bytes) == bytes[..available][from..end]
    ensures Deref(mapped, runs, bytes) == bytes[..available][start..end] <==> from == start
  {
    DerefNothing(mapped, before, bytes);
    DerefLast(mapped, runs, before, Segment(base, from - base, end - from), bytes);
    LastOrAll(bytes, available, start, from, end);
  }

  lemma {:induction false} DerefLast(mapped: map<nat, nat>, runs: seq<Segment>, before: seq<Segment>, run: Segment, bytes: seq<Byte>)
    requires runs == before + [run] && Deref(mapped, before, bytes) == [] && run.addr in mapped && mapped[run.addr] == run.addr
    ensures Deref(mapped, runs, bytes) == View(bytes, run.addr + run.offset, run.len)
  {
    assert runs[..|before|] == before;
  }

  /** The last part is all of it exactly when it begins where that does. */
  lemma LastOrAll(bytes: seq<Byte>, available: nat, start: nat, from: nat, end: nat)
    requires start <= from <= end <= available <= |bytes|
    ensures var part := View(bytes, from, end - from);
            part == bytes[..available][from..end] && (part == bytes[..available][start..end] <==> from == start)
  {
    var log := bytes[..available];
    assert log[from..end] == bytes[from..end];
    assert from > start ==> |log[from..end]| != |log[start..end]|;
  }

  /** The page of the last byte begins before the first byte exactly when there is one page. */
  lemma OnePage(start: nat, first: nat, base: nat, n: nat, p: nat)
    requires p > 0 && n > 0 && first % p == 0 && base % p == 0 && first <= start < first + p && base < start + n <= base + p
    ensures base <= start <==> start % p + n <= p
  {
    InPage(start, first, p);
    Aligned(first, base, p);
    Aligned(base, first, p);
  }

  lemma {:induction false} DerefNothing(mapped: map<nat, nat>, runs: seq<Segment>, bytes: seq<Byte>)
    requires forall t :: 0 <= t < |runs| ==> runs[t].addr !in mapped
    ensures Deref(mapped, runs, bytes) == []
  {
    if runs != [] {
      assert runs[|runs| - 1].addr !in mapped;
      DerefNothing(mapped, runs[..|runs| - 1], bytes);
    }
  }

  lemma {:induction false} RunsBelow(start: nat, n: nat, p: nat)
    requires p > 0
    ensures Total(PageRuns(start, n, p)) == n
    ensures forall t :: 0 <= t < |PageRuns(start, n, p)| ==> PageRuns(start, n, p)[t].addr < start + n
    decreases n
  {
    if n > 0 {
      var before := LastPart(start, n, p) - start;
      RunsBelow(start, before, p);
      assert PageRuns(start, n, p)[..|PageRuns(start, n, p)| - 1] == PageRuns(start, before, p);
    }
  }
}
