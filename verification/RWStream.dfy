/**
  The paged log itself, `LogRWStream` of src/main/store/store.h:505-780: a write buffer
  and a page cache over one file, read by absolute offset.
 */
module RWStream {
  import opened Sequences
  import opened Pages
  import opened PageCaches
  import opened OneShot
  import opened WriteBuffer

  /** The cache a log is instantiated with. */
  datatype ReadCache = Lru(lru: LRUCache) | DropBehindCache(one: OneShotCache)

  lemma SpliceBefore(bytes: seq<Byte>, a: nat, at: nat, data: seq<Byte>)
    requires at + |data| <= a <= |bytes|
    ensures Splice(bytes, at, data)[..a] == Splice(bytes[..a], at, data)
  {
  }

  /** How many of the `n` positions from `from` on lie in a file of `b` bytes. */
  function Inside(b: nat, from: nat, n: nat): (k: nat)
    ensures k <= n && (k > 0 ==> from + k <= b)
  {
    if from + n <= b then n else if from <= b then b - from else 0
  }

  /** The bytes of a file among the `n` from `from` on. */
  function View(bytes: seq<Byte>, from: nat, n: nat): (s: seq<Byte>)
    ensures |s| <= n
    ensures from + n <= |bytes| ==> |s| == n && s == bytes[from..from + n]
    ensures n > 0 && |s| == n ==> from + n <= |bytes|
  {
    seq(Inside(|bytes|, from, n), i requires 0 <= i < Inside(|bytes|, from, n) => bytes[from + i])
  }

  lemma ViewSplit(bytes: seq<Byte>, from: nat, n: nat, m: nat)
    ensures View(bytes, from, n) + View(bytes, from + n, m) == View(bytes, from, n + m)
  {
  }

  class LogRWStream {
    const pageSize: nat
    const writeBuf: LogWriteBuf
    const cache: ReadCache
    var available: nat

    constructor (pageSize: nat, offset: nat, file: MappedFile, cache: ReadCache)
      requires pageSize > 0 && offset % pageSize == 0 && |file.bytes| == offset
      requires cache.Lru? ==> cache.lru.Valid() && cache.lru.pageSize == pageSize
      requires cache.DropBehindCache? ==> cache.one.Valid() && cache.one.pageSize == pageSize && cache.one.pages == []
      ensures Valid() && available == offset && writeBuf.file == file && this.cache == cache && this.pageSize == pageSize
      ensures fresh(writeBuf) && writeBuf.State() == WriteState(file.bytes, offset, None, 0)
    {
      this.pageSize, this.cache, available := pageSize, cache, offset;
      writeBuf := new LogWriteBuf(pageSize, offset, false, file, if cache.DropBehindCache? then cache.one else null);
    }

    ghost function Parts(): (s: set<object>)
    {
      {this, writeBuf, writeBuf.file} + (if cache.Lru? then {cache.lru} else {cache.one})
    }

    ghost function CacheParts(): (s: set<object>)
    {
      if cache.Lru? then {cache.lru} else {cache.one}
    }

    // The invariants below are equations with `true` so that the verifier passes each of them on
    // as one fact instead of taking it apart at every call.

    /** Cache and write buffer work on the same pages. */
    ghost predicate Sound()
      reads Parts()
    {
      true == (
        && writeBuf.pageSize == pageSize && !writeBuf.readOnly
        && (cache.Lru? ==> writeBuf.cache == null && cache.lru.Valid() && cache.lru.pageSize == pageSize)
        && (cache.DropBehindCache? ==> writeBuf.cache == cache.one)
        && writeBuf.Valid())
    }

    /** The file ends with the mapped page, and what is available is what was written. */
    ghost predicate Valid()
      reads Parts()
    {
      true == (Sound() && writeBuf.State().Linear(pageSize) && available == writeBuf.State().End())
    }

    /** The log: the bytes up to the physical write position. */
    ghost function Log(): (s: seq<Byte>)
      requires Valid()
      reads Parts()
      ensures |s| == available
    {
      writeBuf.file.bytes[..available]
    }

    /** The oldest offset that can still be read. */
    ghost function Floor(): (f: nat)
      requires Sound()
      reads Parts()
    {
      match cache
      case Lru(_) => 0
      case DropBehindCache(one) => FloorOf(one.pages, writeBuf.offset)
    }

    /**
      Where the last page that a scan looks at ends.  With a cache that maps on demand this is
      a page past the end of the file when the last page of the file is full.
     */
    ghost function Reach(): (r: nat)
      requires Valid()
      reads Parts()
    {
      match cache
      case Lru(_) => PageStart(available, pageSize) + pageSize
      case DropBehindCache(_) => writeBuf.offset
    }

    /** `_readCache.FindPage`: a drop-behind cache gives up every page below the one asked for. */
    method FindPage(start: nat) returns (base: Option<nat>)
      requires Valid() && start % pageSize == 0 && start <= PageStart(available, pageSize)
      modifies CacheParts()
      ensures Valid() && Reach() == old(Reach())
      ensures base == if cache.Lru? || old(Floor()) <= start < Reach() then Some(start) else None
      ensures Floor() == if cache.Lru? then 0 else Max(old(Floor()), Min(start, Reach()))
    {
      if cache.Lru? { base := FindMapped(start); } else { base := FindKept(start); }
    }

    /** The lookup of a scan that began at the floor `f` and has come to `pageStart`. */
    method Look(pageStart: nat, ghost f: nat, ghost r: nat) returns (found: bool)
      requires Valid() && Reach() == r && pageStart % pageSize == 0 && pageStart <= PageStart(available, pageSize)
      requires f <= Floor() <= Max(f, Min(pageStart, r))
      modifies CacheParts()
      ensures Valid() && Reach() == r && f <= Floor() <= Max(f, Min(pageStart, r))
      ensures writeBuf.file.bytes == old(writeBuf.file.bytes)
      ensures found <==> f <= pageStart < r
    {
      var base := FindPage(pageStart);
      found := base.Some?;
    }

    method FindMapped(start: nat) returns (base: Option<nat>)
      requires Valid() && start % pageSize == 0 && cache.Lru?
      modifies cache.lru
      ensures Valid() && base == Some(start)
    {
      var page, from := cache.lru.FindPage(start);
      Quotient(start, pageSize);
      base := Some(page.offset);
    }

    method FindKept(start: nat) returns (base: Option<nat>)
      requires Valid() && start % pageSize == 0 && cache.DropBehindCache? && start <= PageStart(available, pageSize)
      modifies cache.one
      ensures Valid()
      ensures base == if old(Floor()) <= start < writeBuf.offset then Some(start) else None
      ensures Floor() == Max(old(Floor()), Min(start, writeBuf.offset))
    {
      var one := cache.one;
      LiveIsIncreasing(one.history, pageSize);
      ghost var pages := one.pages;
      ghost var k;
      base, k := one.FindPage(start);
      LookupConsecutive(pages, pageSize, writeBuf.offset, k, start);
      LastPage(writeBuf.State(), pageSize);
    }

    /** Readable offsets start and end at page boundaries, and what is available is readable. */
    lemma Bounds()
      requires Valid()
      ensures Floor() % pageSize == 0 && Reach() % pageSize == 0 && |writeBuf.file.bytes| % pageSize == 0
      ensures Floor() <= available <= Reach() <= PageStart(available, pageSize) + pageSize
      ensures available <= |writeBuf.file.bytes| <= Reach()
      ensures |writeBuf.file.bytes| < Reach() <==> cache.Lru? && available == |writeBuf.file.bytes|
    {
      NextPage(PageStart(available, pageSize), pageSize);
      LastPage(writeBuf.State(), pageSize);
      if cache.DropBehindCache? {
        var pages := cache.one.pages;
        LiveIsIncreasing(cache.one.history, pageSize);
        ConsecutiveEnds(pages, pageSize, writeBuf.offset, 0);
      }
    }

    /** What a reader that starts at `start` gets first: bytes below the floor are skipped. */
    ghost function First(start: nat): (e: nat)
      requires Sound()
      reads Parts()
    {
      Max(start, Floor())
    }

    /** Copying `size` bytes from `start` on runs into a page past the end of the file. */
    ghost predicate Faults(start: nat, size: nat)
      requires Valid()
      reads Parts()
    {
      PastEnd(First(start), size, |writeBuf.file.bytes|, Reach())
    }

    /** That happens exactly with a cache that maps on demand, when the last page of the file is full and the bytes go past it. */
    lemma FaultsExactlyWhen(start: nat, size: nat)
      requires Valid()
      ensures Faults(start, size) <==>
              cache.Lru? && available == |writeBuf.file.bytes| && size > 0 && start < available + pageSize && available < start + size
    {
      Bounds();
      LastPage(writeBuf.State(), pageSize);
    }

    /**
      Copies `size` bytes from `start` on, page by page.  A page the cache no longer has is
      passed over without being counted, so that the copy then starts at the first page it has.
      `fault` is the signal that the kernel raises when a mapped page past the end of the file is touched.
     */
    method Pop(start: nat, size: nat) returns (ok: bool, dest: seq<Byte>, fault: bool)
      requires Valid()
      modifies CacheParts()
      ensures Valid() && Reach() == old(Reach()) && old(Floor()) <= Floor()
      ensures fault <==> old(Faults(start, size))
      ensures ok <==> if size > 0 then old(First(start)) + size <= |writeBuf.file.bytes| else old(First(start)) < Reach()
      ensures ok ==> dest == View(writeBuf.file.bytes, old(First(start)), size)
      ensures ok ==> Floor() <= Max(old(Floor()), LastByte(old(First(start)), size))
    {
      ghost var e, f, r := First(start), Floor(), Reach();
      Bounds();
      ghost var next;
      ok, dest, fault, next := PopPages(start, size, e, f, r);
      TransferEnds(ok, fault, |writeBuf.file.bytes|, next, PageStart(available, pageSize), pageSize, start, size, |dest|, e, f, r);
    }

    /** The loop over pages. */
    method PopPages(start: nat, size: nat, ghost e: nat, ghost f: nat, ghost r: nat)
      returns (ok: bool, dest: seq<Byte>, fault: bool, ghost next: nat)
      requires Valid() && e == First(start) && f == Floor() && r == Reach()
      modifies CacheParts()
      ensures Copied(ok, fault, next, start, size, dest, e, f, r) && (ok || fault || next > PageStart(available, pageSize))
    {
      var pageStart, lastPage := PageStart(start, pageSize), PageStart(available, pageSize);
      Bounds();
      ok, dest, fault := false, [], false;
      while pageStart <= lastPage && !ok && !fault
        invariant Copied(ok, fault, pageStart, start, size, dest, e, f, r)
        decreases lastPage + pageSize - pageStart
      {
        ok, dest, fault, pageStart := PopPage(pageStart, start, size, dest, e, f, r);
      }
      next := pageStart;
    }

    /** How far `Pop` has come when the pages before `pageStart` have been looked at. */
    ghost predicate Copied(ok: bool, fault: bool, pageStart: nat, start: nat, size: nat, dest: seq<Byte>, e: nat, f: nat, r: nat)
      reads Parts()
    {
      true == (
        && Valid() && Reach() == r && f <= Floor() <= Max(f, if ok then LastByte(e, size) else Min(pageStart, r))
        && CopyState(writeBuf.file.bytes, ok, fault, pageStart, pageSize, start, size, dest, e, f, r))
    }

    /** One turn of the loop of `Pop`, for the page at `pageStart`; `next` is the page behind it. */
    method PopPage(pageStart: nat, start: nat, size: nat, got: seq<Byte>, ghost e: nat, ghost f: nat, ghost r: nat)
      returns (done: bool, dest: seq<Byte>, fault: bool, next: nat)
      requires Copied(false, false, pageStart, start, size, got, e, f, r) && pageStart <= PageStart(available, pageSize)
      modifies CacheParts()
      ensures next == pageStart + pageSize && Copied(done, fault, next, start, size, dest, e, f, r)
    {
      CopySkip(writeBuf.file.bytes, pageStart, pageSize, start, size, got, e, f, r);
      var found := Look(pageStart, f, r);
      done, dest, fault := false, got, false;
      if found { done, dest, fault := CopyPage(pageStart, start, size, got, e, f, r); }
      FloorStays(Floor(), pageStart, pageSize, done, f, r, LastByte(e, size));
      next := pageStart + pageSize;
    }

    /** Copies from a page that the cache has. */
    method CopyPage(pageStart: nat, start: nat, size: nat, got: seq<Byte>, ghost e: nat, ghost f: nat, ghost r: nat)
      returns (done: bool, dest: seq<Byte>, fault: bool)
      requires CopyState(writeBuf.file.bytes, false, false, pageStart, pageSize, start, size, got, e, f, r) && f <= pageStart < r
      ensures CopyState(writeBuf.file.bytes, done, fault, pageStart + pageSize, pageSize, start, size, dest, e, f, r)
      ensures done ==> pageStart <= LastByte(e, size)
    {
      CopyTurn(writeBuf.file.bytes, pageStart, pageSize, start, size, got, e, f, r);
      done, dest, fault := false, got, Missing(|writeBuf.file.bytes|, pageStart, pageSize, start, size - |got|);
      if !fault {
        dest := PageCopy(writeBuf.file.bytes, pageStart, pageSize, start, size, got);
        done := |dest| == size;
      }
    }

    /** Appends to the log; after a `SetPosition` the effect is that of `Pushed` (see `AppendAfterSetPositionExactlyWhen`). */
    method Push(data: seq<Byte>) returns (r: int)
      requires Sound()
      modifies Parts()
      ensures Sound() && r == 0 && available == old(available) + |data|
      ensures writeBuf.State() == old(writeBuf.State()).Pushed(data, pageSize)
      ensures old(Valid()) ==> Valid() && Log() == old(Log()) + data && Floor() == old(Floor())
    {
      ghost var w, valid := writeBuf.State(), Valid();
      r := writeBuf.Push(data);
      available := available + |data|;
      if valid { PushAppends(w, data, pageSize); }
    }

    /** How many bytes the next `Readv` offers to take: the rest of the page being written. */
    function Room(): (n: nat)
      requires Valid()
      reads Parts()
      ensures n == pageSize - available % pageSize && 0 < n <= pageSize
    {
      RoomLeft(writeBuf.State(), pageSize);
      pageSize - writeBuf.State().WithRoom(pageSize).pos
    }

    method Readv(reply: ReadReply<Byte>) returns (r: int)
      requires Valid() && (reply.Failed? ==> reply.code < 0) && (reply.Got? ==> |reply.bytes| <= Room())
      modifies Parts()
      ensures Valid() && Floor() == old(Floor())
      ensures r == if reply.Failed? then reply.code else |reply.bytes|
      ensures Log() == old(Log()) + (if reply.Got? then reply.bytes else [])
    {
      ghost var w := writeBuf.State();
      r := writeBuf.Readv(reply);
      if r > 0 { available := available + r; }
      StoreAppends(w, if reply.Got? then reply.bytes else [], pageSize);
    }

    /** Hands out the rest of the page for the caller to fill; all of it is available at once. */
    method ZeroCopyWriteNext() returns (at: nat, len: nat)
      requires Valid()
      modifies Parts()
      ensures Valid() && Floor() == old(Floor())
      ensures at == old(available) && len == old(Room()) > 0 && len <= writeBuf.pos
      ensures |Log()| == at + len && Log()[..at] == old(Log()) && WritePageKept()
    {
      ghost var w := writeBuf.State();
      var r;
      r, at, len := writeBuf.ZeroCopyNext();
      available := available + len;
      ClaimAppends(w, pageSize);
    }

    /** The page written last is still mapped: no lookup behind it has made a drop-behind cache give it up. */
    ghost predicate WritePageKept()
      reads this, writeBuf, if cache.Lru? then {} else {cache.one}
    {
      cache.DropBehindCache? ==> cache.one.pages != []
    }

    /**
      Gives back the last `len` bytes handed out; the result of the write buffer is ignored.
      The log can be written on when the page had as many bytes and is still mapped.
     */
    method ZeroCopyWriteBackup(len: nat)
      requires Valid() && len <= available
      modifies this, writeBuf
      ensures available == old(available) - len
      ensures Valid() <==> len <= old(writeBuf.pos) && (len > 0 ==> old(WritePageKept()))
      ensures Valid() ==> Floor() == old(Floor()) && Log() == old(Log())[..available]
    {
      var ok := writeBuf.Backup(len);
      available := available - len;
    }

    /** The caller of `ZeroCopyWriteNext` stores into the page it was given. */
    method FillClaimed(at: nat, data: seq<Byte>)
      requires Valid() && at + |data| <= available
      modifies writeBuf.file
      ensures Valid() && Floor() == old(Floor())
      ensures Log() == Splice(old(Log()), at, data)
    {
      SpliceBefore(writeBuf.file.bytes, available, at, data);
      writeBuf.file.Store(at, data);
    }

    /** One byte at an absolute offset. */
    method Peak(offset: nat) returns (ok: bool, d: Byte)
      requires Valid()
      modifies CacheParts()
      ensures Valid() && Floor() == old(Floor())
      ensures ok <==> Floor() <= offset < available
      ensures ok ==> d == Log()[offset]
    {
      Bounds();
      var found := PeakPage(offset);
      ok := found && offset < available;
      d := if ok then writeBuf.file.bytes[offset] else 0;
    }

    /** Whether the cache has, or can map, the page of `offset`; nothing is given up. */
    method PeakPage(offset: nat) returns (found: bool)
      requires Valid()
      modifies CacheParts()
      ensures Valid() && Floor() == old(Floor()) && Reach() == old(Reach())
      ensures found == (cache.Lru? || Floor() <= offset < Reach())
    {
      match cache
      case Lru(lru) =>
        var page, from := lru.FindPage(offset);
        found := true;
      case DropBehindCache(one) =>
        var page := one.PeakPage(offset);
        found := page.Some?;
        Covered(one.pages, pageSize, writeBuf.offset, offset);
    }

    /**
      The first position from `start` on that holds `d`, among everything that is mapped: the
      scan runs to the end of the last page, past what was written, and into a page past the
      end of the file when the last page of the file is full and `d` did not turn up before.
     */
    method Find(start: nat, d: Byte) returns (found: bool, offset: nat, fault: bool)
      requires Valid()
      modifies CacheParts()
      ensures Valid() && Reach() == old(Reach()) && old(Floor()) <= Floor()
      ensures found <==> exists x :: old(First(start)) <= x < |writeBuf.file.bytes| && writeBuf.file.bytes[x] == d
      ensures fault <==> !found && old(First(start)) < Reach() && |writeBuf.file.bytes| < Reach()
      ensures found ==> old(First(start)) <= offset < |writeBuf.file.bytes| && writeBuf.file.bytes[offset] == d
      ensures found ==> Absent(writeBuf.file.bytes, old(First(start)), offset - old(First(start)), d)
      ensures !found && !fault ==> offset == NOT_FOUND
    {
      ghost var e, f, r := First(start), Floor(), Reach();
      Bounds();
      ghost var n, next;
      found, offset, fault, n, next := FindPages(start, d, e, f, r);
      if !found && !fault {
        offset := NOT_FOUND;
        ScanEnds(next, PageStart(available, pageSize), pageSize, start, r + e + 1, n, e, f, r);
      }
    }

    /** The loop over pages. */
    method FindPages(start: nat, d: Byte, ghost e: nat, ghost f: nat, ghost r: nat)
      returns (found: bool, offset: nat, fault: bool, ghost n: nat, ghost next: nat)
      requires Valid() && e == First(start) && f == Floor() && r == Reach()
      modifies CacheParts()
      ensures Searched(found, fault, offset, next, start, n, d, e, f, r) && (found || fault || next > PageStart(available, pageSize))
    {
      var pageStart, lastPage := PageStart(start, pageSize), PageStart(available, pageSize);
      Bounds();
      found, offset, fault, n := false, 0, false, 0;
      while pageStart <= lastPage && !found && !fault
        invariant Searched(found, fault, offset, pageStart, start, n, d, e, f, r)
        decreases lastPage + pageSize - pageStart
      {
        found, offset, fault, n, pageStart := FindOnPage(pageStart, start, n, d, e, f, r);
      }
      next := pageStart;
    }

    /** How far `Find` has come when the pages before `pageStart` have been looked at. */
    ghost predicate Searched(found: bool, fault: bool, offset: nat, pageStart: nat, start: nat, n: nat, d: Byte, e: nat, f: nat, r: nat)
      reads Parts()
    {
      true == (
        && Valid() && Reach() == r && f <= Floor() <= Max(f, Min(pageStart, r))
        && FindState(writeBuf.file.bytes, found, fault, offset, pageStart, pageSize, start, n, d, e, f, r))
    }

    /** One turn of the loop of `Find`. */
    method FindOnPage(pageStart: nat, start: nat, ghost n: nat, d: Byte, ghost e: nat, ghost f: nat, ghost r: nat)
      returns (found: bool, offset: nat, fault: bool, ghost n': nat, next: nat)
      requires Searched(false, false, 0, pageStart, start, n, d, e, f, r) && pageStart <= PageStart(available, pageSize)
      modifies CacheParts()
      ensures next == pageStart + pageSize && Searched(found, fault, offset, next, start, n', d, e, f, r)
    {
      FindSkip(writeBuf.file.bytes, pageStart, pageSize, start, n, d, e, f, r);
      var there := Look(pageStart, f, r);
      found, offset, fault, n' := false, 0, false, n;
      if there { found, offset, fault, n' := ScanPage(pageStart, start, n, d, e, f, r); }
      FloorStays(Floor(), pageStart, pageSize, false, f, r, 0);
      next := pageStart + pageSize;
    }

    /** Scans a page that the cache has. */
    method ScanPage(pageStart: nat, start: nat, ghost n: nat, d: Byte, ghost e: nat, ghost f: nat, ghost r: nat)
      returns (found: bool, offset: nat, fault: bool, ghost n': nat)
      requires Valid() && FindState(writeBuf.file.bytes, false, false, 0, pageStart, pageSize, start, n, d, e, f, r) && f <= pageStart < r
      ensures FindState(writeBuf.file.bytes, found, fault, offset, pageStart + pageSize, pageSize, start, n', d, e, f, r)
    {
      ghost var bytes := writeBuf.file.bytes;
      Bounds();
      FindTurn(bytes, pageStart, pageSize, start, n, d, e, f, r);
      var from := Max(start, pageStart);
      found, offset, fault, n' := false, 0, from >= |writeBuf.file.bytes|, n;
      if !fault {
        found, offset := FindFrom(from, pageStart + pageSize, d, e);
        n' := offset - e;
        FindTurnOn(bytes, found, offset, pageStart, pageSize, start, n, d, e, f, r);
      }
    }

    /** The scan of one page. */
    method FindFrom(start: nat, end: nat, d: Byte, ghost e: nat) returns (found: bool, offset: nat)
      requires e <= start <= end <= |writeBuf.file.bytes| && Absent(writeBuf.file.bytes, e, start - e, d)
      ensures start <= offset <= end && Absent(writeBuf.file.bytes, e, offset - e, d)
      ensures if found then offset < end && writeBuf.file.bytes[offset] == d else offset == end
    {
      offset := start;
      while offset < end
        invariant start <= offset <= end && Absent(writeBuf.file.bytes, e, offset - e, d)
      {
        if writeBuf.file.bytes[offset] == d { return true, offset; }
        offset := offset + 1;
      }
      found := false;
    }

    /** The pages of a cache that maps on demand are mapped for reading only; those of a drop-behind cache are the ones that were written. */
    predicate ReadOnly() { cache.Lru? }

    /**
      XORs the bytes from `start` on with the repeated mask, in the pages themselves.  The
      position in the mask runs on from page to page.  `fault` is the signal that the kernel
      raises at the first byte stored into a page that is read-only.
     */
    method Unmask(start: nat, len: nat, mask: seq<Byte>) returns (ok: bool, fault: bool)
      requires Valid() && mask != []
      modifies CacheParts(), writeBuf.file
      ensures Valid() && Reach() == old(Reach()) && Floor() == old(Floor())
      ensures fault <==> ReadOnly() && len > 0 && start < Reach()
      ensures ok <==> !fault && old(First(start)) < Reach() && old(First(start)) + len <= Reach()
      ensures writeBuf.file.bytes == AfterUnmask(old(writeBuf.file.bytes), ReadOnly(), old(First(start)), Reach(), len, mask)
      ensures |writeBuf.file.bytes| == |old(writeBuf.file.bytes)|
      ensures forall i :: 0 <= i < |writeBuf.file.bytes| ==>
                writeBuf.file.bytes[i] == if !ReadOnly() && old(First(start)) <= i < old(First(start)) + len && i < Reach()
                                          then old(writeBuf.file.bytes)[i] ^ mask[(i - old(First(start))) % |mask|] else old(writeBuf.file.bytes)[i]
    {
      ghost var e, f, r, b0 := First(start), Floor(), Reach(), writeBuf.file.bytes;
      Bounds();
      var read;
      ghost var next;
      ok, read, fault, next := UnmaskPages(start, len, mask, b0, e, f, r);
      if !ok && !fault { ScanEnds(next, PageStart(available, pageSize), pageSize, start, len, read, e, f, r); }
      MaskedNothing(b0, e, mask);
      if !fault { MaskedToEnd(b0, e, read, Touched(e, r, len), mask); }
      UnmaskedAt(b0, ReadOnly(), e, r, len, mask);
    }

    /** The loop over pages. */
    method UnmaskPages(start: nat, len: nat, mask: seq<Byte>, ghost b0: seq<Byte>, ghost e: nat, ghost f: nat, ghost r: nat)
      returns (ok: bool, read: nat, fault: bool, ghost next: nat)
      requires Valid() && mask != [] && e == First(start) && f == Floor() && r == Reach() && b0 == writeBuf.file.bytes
      modifies CacheParts(), writeBuf.file
      ensures Unmasked(ok, fault, next, start, len, read, mask, b0, e, f, r) && (ok || fault || next > PageStart(available, pageSize))
    {
      var pageStart, lastPage := PageStart(start, pageSize), PageStart(available, pageSize);
      Bounds();
      MaskedNothing(b0, e, mask);
      ok, read, fault := false, 0, false;
      while pageStart <= lastPage && !ok && !fault
        invariant Unmasked(ok, fault, pageStart, start, len, read, mask, b0, e, f, r)
        decreases lastPage + pageSize - pageStart
      {
        ok, read, fault, pageStart := UnmaskPage(pageStart, start, len, read, mask, b0, e, f, r);
      }
      next := pageStart;
    }

    /** How far `Unmask` has come when the pages before `pageStart` have been looked at. */
    ghost predicate Unmasked(ok: bool, fault: bool, pageStart: nat, start: nat, len: nat, read: nat, mask: seq<Byte>, b0: seq<Byte>, e: nat, f: nat, r: nat)
      reads Parts()
    {
      true == (
        && mask != [] && Valid() && Reach() == r && Floor() == f && writeBuf.file.bytes == Masked(b0, e, read, mask, 0)
        && (ReadOnly() ==> read == 0)
        && (if fault then !ok && ReadOnly() && len > 0 && e < r
            else if ok then read == len && e < r && e + len <= r
            else Scan(pageStart, pageSize, start, len, read, e, f, r)))
    }

    /** One turn of the loop of `Unmask`. */
    method UnmaskPage(pageStart: nat, start: nat, len: nat, read: nat, mask: seq<Byte>, ghost b0: seq<Byte>, ghost e: nat, ghost f: nat, ghost r: nat)
      returns (ok: bool, read': nat, fault: bool, next: nat)
      requires Unmasked(false, false, pageStart, start, len, read, mask, b0, e, f, r) && pageStart <= PageStart(available, pageSize)
      modifies CacheParts(), writeBuf.file
      ensures next == pageStart + pageSize && Unmasked(ok, fault, next, start, len, read', mask, b0, e, f, r)
    {
      ScanSkip(pageStart, pageSize, start, len, read, e, f, r);
      var found := PeakPage(pageStart);
      ok, read', fault := false, read, false;
      if found { ok, read', fault := XorPage(pageStart, start, len, read, mask, b0, e, f, r); }
      next := pageStart + pageSize;
    }

    /** Unmasks in a page that the cache has. */
    method XorPage(pageStart: nat, start: nat, len: nat, read: nat, mask: seq<Byte>, ghost b0: seq<Byte>, ghost e: nat, ghost f: nat, ghost r: nat)
      returns (ok: bool, read': nat, fault: bool)
      requires Unmasked(false, false, pageStart, start, len, read, mask, b0, e, f, r) && f <= pageStart < r
      modifies writeBuf.file
      ensures Unmasked(ok, fault, pageStart + pageSize, start, len, read', mask, b0, e, f, r)
    {
      ScanTurn(pageStart, pageSize, start, len, read, e, f, r);
      Aligned(pageStart, r, pageSize);
      var startPos := Max(start, pageStart);
      var outSize := Min(len - read, pageStart + pageSize - startPos);
      ok, read', fault := false, read, ReadOnly() && outSize > 0;
      if !fault {
        XorOn(startPos, outSize, mask, read, b0, e);
        read' := read + outSize;
        ok := read' == len;
      }
    }

    /** `XorInPlace` where the masking has come to. */
    method XorOn(start: nat, n: nat, mask: seq<Byte>, maskPos: nat, ghost b0: seq<Byte>, ghost e: nat)
      requires Valid() && mask != [] && start == e + maskPos && writeBuf.file.bytes == Masked(b0, e, maskPos, mask, 0)
      modifies writeBuf.file
      ensures Valid() && Floor() == old(Floor()) && Reach() == old(Reach())
      ensures writeBuf.file.bytes == Masked(b0, e, maskPos + n, mask, 0)
    {
      MaskedOn(b0, e, maskPos, n, mask);
      XorInPlace(start, n, mask, maskPos);
    }

    /** The XOR loop of one page, `maskPos` being how much of the mask was used before. */
    method XorInPlace(start: nat, n: nat, mask: seq<Byte>, maskPos: nat)
      requires Valid() && mask != []
      modifies writeBuf.file
      ensures Valid() && Floor() == old(Floor()) && Reach() == old(Reach())
      ensures writeBuf.file.bytes == Masked(old(writeBuf.file.bytes), start, n, mask, maskPos)
      ensures |writeBuf.file.bytes| == |old(writeBuf.file.bytes)|
      ensures forall i :: 0 <= i < |writeBuf.file.bytes| ==>
                writeBuf.file.bytes[i] == if start <= i < start + n then old(writeBuf.file.bytes)[i] ^ mask[(maskPos + i - start) % |mask|]
                                          else old(writeBuf.file.bytes)[i]
    {
      var bytes := writeBuf.file.bytes;
      MaskedNothingFrom(bytes, start, mask, maskPos);
      var i := 0;
      while i < n
        invariant i <= n && bytes == Masked(writeBuf.file.bytes, start, i, mask, maskPos)
      {
        if start + i < |bytes| {
          bytes := bytes[start + i := bytes[start + i] ^ mask[(maskPos + i) % |mask|]];
        }
        i := i + 1;
      }
      MaskedAt(writeBuf.file.bytes, start, n, mask, maskPos);
      writeBuf.file.bytes := bytes;
    }

    method SetPosition(offset: nat)
      requires Valid() && cache.Lru?
      requires offset <= |writeBuf.file.bytes|
      modifies this, writeBuf, writeBuf.file
      ensures Sound() && available == old(available)
      ensures writeBuf.State() == Positioned(old(writeBuf.file.bytes), offset, pageSize)
    {
      writeBuf.SetPosition(offset);
    }

    /** How many bytes a gather-write of `size` bytes from `start` hands to the kernel, in the lengths of its runs. */
    ghost function Offered(start: nat, size: nat): (n: nat)
      requires Valid() && cache.Lru?
      reads Parts()
    {
      if start < Reach() then Min(size, Min(PageStart(start, pageSize) + Span(cache.lru.maxSize, pageSize), Reach()) - start) else 0
    }

    /**
      A gather-write: at most `CacheSize` pages are looked up, and the callback gets one run
      of bytes in each.  `accepted` is the callback's answer and `sent` what it read through
      the addresses it was given, at the time it was called; the kernel accepts nothing that is
      not in the file.
     */
    method Writev(start: nat, size: nat, accepted: int) returns (r: int, sent: seq<Byte>)
      requires Valid() && cache.Lru? && accepted <= Offered(start, size)
      requires accepted > 0 ==> start + accepted <= |writeBuf.file.bytes|
      modifies CacheParts()
      ensures Valid() && Reach() == old(Reach())
      ensures r == accepted
      ensures sent == View(writeBuf.file.bytes, start, if accepted > 0 then accepted else 0)
    {
      var runs := Gather(start, size);
      var gathered := Deref(cache.lru.mapped, runs, writeBuf.file.bytes);
      r, sent := accepted, [];
      if accepted > 0 {
        assert View(writeBuf.file.bytes, start, |gathered|)[..accepted] == View(writeBuf.file.bytes, start, accepted);
        sent := gathered[..accepted];
      }
    }

    /** A gather-write of written bytes sends a slice of the log. */
    method WritevWritten(start: nat, size: nat, accepted: int) returns (r: int, sent: seq<Byte>)
      requires Valid() && cache.Lru? && start + size <= available && accepted <= Offered(start, size)
      modifies CacheParts()
      ensures Valid() && Log() == old(Log()) && r == accepted && |sent| == (if r > 0 then r else 0) <= size
      ensures sent == Log()[start..start + |sent|]
    {
      Bounds();
      r, sent := Writev(start, size, accepted);
    }

    /** The runs of one gather-write: every address handed out is still mapped, where it was, at the end. */
    method Gather(start: nat, size: nat) returns (runs: seq<Segment>)
      requires Valid() && cache.Lru?
      modifies CacheParts()
      ensures Valid() && Reach() == old(Reach())
      ensures |runs| <= cache.lru.maxSize
      ensures forall t :: 0 <= t < |runs| ==> runs[t].addr in cache.lru.mapped
      ensures Deref(cache.lru.mapped, runs, writeBuf.file.bytes) == View(writeBuf.file.bytes, start, old(Offered(start, size)))
    {
      ghost var bases, next, queued;
      runs, bases, next, queued := GatherPages(start, Min(size, Span(cache.lru.maxSize, pageSize)));
      AllGathered(runs, bases, next, queued, start, size);
      StillMapped(runs, bases, next, queued, start, Min(size, Span(cache.lru.maxSize, pageSize)), Reach());
      SameRuns(cache.lru.mapped, runs, bases, writeBuf.file.bytes);
    }

    /** Where the loop ends is what `Offered` says. */
    lemma AllGathered(runs: seq<Segment>, bases: seq<nat>, next: nat, queued: nat, start: nat, size: nat)
      requires Valid() && cache.Lru?
      requires var c := cache.lru.maxSize;
               && Gathered(runs, bases, next, queued, start, Min(size, Span(c, pageSize)), Reach())
               && OnPage(PageStart(start, pageSize), next, |runs|, c, pageSize, Reach())
               && (queued >= Min(size, Span(c, pageSize)) || next > PageStart(available, pageSize) || |runs| >= c)
      ensures queued == Offered(start, size) && |runs| <= cache.lru.maxSize
    {
      HowFar(PageStart(start, pageSize), next, PageStart(available, pageSize), |runs|, cache.lru.maxSize, pageSize, start, size, queued, Reach());
    }

    /** The page behind every run gathered is still mapped where it was. */
    lemma StillMapped(runs: seq<Segment>, bases: seq<nat>, pageStart: nat, queued: nat, start: nat, limit: nat, r: nat)
      requires Gathered(runs, bases, pageStart, queued, start, limit, r)
      ensures |bases| == |runs|
      ensures forall t :: 0 <= t < |runs| ==> runs[t].addr in cache.lru.mapped && cache.lru.mapped[runs[t].addr] == bases[t]
    {
      forall t | 0 <= t < |runs|
        ensures runs[t].addr in cache.lru.mapped && cache.lru.mapped[runs[t].addr] == bases[t]
      {
        assert cache.lru.entries[|runs| - 1 - t].addr == runs[t].addr;
      }
    }

    /** The loop over pages. */
    method GatherPages(start: nat, limit: nat) returns (runs: seq<Segment>, ghost bases: seq<nat>, ghost next: nat, ghost gathered: nat)
      requires Valid() && cache.Lru?
      modifies CacheParts()
      ensures Gathered(runs, bases, next, gathered, start, limit, old(Reach()))
      ensures OnPage(PageStart(start, pageSize), next, |runs|, cache.lru.maxSize, pageSize, old(Reach()))
      ensures gathered >= limit || next > PageStart(available, pageSize) || |runs| >= cache.lru.maxSize
    {
      ghost var r := Reach();
      var pageStart, lastPage := PageStart(start, pageSize), PageStart(available, pageSize);
      ghost var first := pageStart;
      var queued: nat := 0;
      runs, bases := [], [];
      while queued < limit && pageStart <= lastPage && |runs| < cache.lru.maxSize
        invariant Gathered(runs, bases, pageStart, queued, start, limit, r)
        invariant OnPage(first, pageStart, |runs|, cache.lru.maxSize, pageSize, r)
        decreases lastPage + pageSize - pageStart
      {
        SpanStep(|runs|, cache.lru.maxSize, pageSize);
        runs, queued, bases := GatherPage(runs, bases, pageStart, queued, start, limit, r);
        pageStart := pageStart + pageSize;
      }
      next, gathered := pageStart, queued;
    }

    /** The pages gathered so far are the newest entries of the cache, the last one in front. */
    ghost predicate Gathered(runs: seq<Segment>, bases: seq<nat>, pageStart: nat, queued: nat, start: nat, limit: nat, r: nat)
      reads Parts()
    {
      true == (
        && Valid() && cache.Lru? && Reach() == r && pageStart % pageSize == 0
        && InFront(runs, bases, cache.lru.entries, pageStart)
        && queued <= limit && start < pageStart + pageSize
        && start + queued == Min(start + limit, Max(start, pageStart))
        && |bases| == |runs| && Through(bases, runs, writeBuf.file.bytes) == View(writeBuf.file.bytes, start, queued))
    }

    /** One turn of the loop of `Writev`. */
    method GatherPage(runs: seq<Segment>, ghost bases: seq<nat>, pageStart: nat, queued: nat, start: nat, limit: nat, ghost r: nat)
      returns (runs': seq<Segment>, queued': nat, ghost bases': seq<nat>)
      requires Gathered(runs, bases, pageStart, queued, start, limit, r) && queued < limit && |runs| < cache.lru.maxSize
      modifies CacheParts()
      ensures Gathered(runs', bases', pageStart + pageSize, queued', start, limit, r) && |runs'| == |runs| + 1
    {
      ghost var bytes, entries := writeBuf.file.bytes, cache.lru.entries;
      NextRun(pageStart, pageSize, start, queued, limit);
      var pageOffset := (start + queued) % pageSize;
      var page, from := cache.lru.FindPage(pageStart);
      StillInFront(runs, bases, entries, page, from, cache.lru.entries, pageStart, pageSize);
      var run := Segment(page.addr, pageOffset, Min(limit - queued, pageSize - pageOffset));
      runs', bases' := runs + [run], bases + [pageStart];
      queued' := queued + run.len;
      ThroughOneMore(bases, runs, pageStart, run, bytes, start, queued);
    }
  }

  /** The pages behind the runs are the first entries of the cache, the last run's page in front. */
  ghost predicate InFront(runs: seq<Segment>, bases: seq<nat>, entries: seq<Page>, pageStart: nat)
  {
    && |runs| == |bases| <= |entries|
    && (forall u :: 0 <= u < |runs| ==> entries[u].offset < pageStart)
    && (forall t :: 0 <= t < |runs| ==> entries[|runs| - 1 - t].addr == runs[t].addr && entries[|runs| - 1 - t].offset == bases[t])
  }

  /** A run of bytes handed to the kernel: an address, an offset from it and a length. */
  datatype Segment = Segment(addr: nat, offset: nat, len: nat)

  /** What reading the runs through the process's mappings yields; an unmapped address yields nothing. */
  function Deref(mapped: map<nat, nat>, runs: seq<Segment>, bytes: seq<Byte>): (s: seq<Byte>)
  {
    if runs == [] then []
    else
      var run := runs[|runs| - 1];
      Deref(mapped, runs[..|runs| - 1], bytes)
      + if run.addr in mapped then View(bytes, mapped[run.addr] + run.offset, run.len) else []
  }

  /** The same when the page behind each run is known. */
  ghost function Through(bases: seq<nat>, runs: seq<Segment>, bytes: seq<Byte>): (s: seq<Byte>)
    requires |bases| == |runs|
  {
    if runs == [] then []
    else
      var i := |runs| - 1;
      Through(bases[..i], runs[..i], bytes) + View(bytes, bases[i] + runs[i].offset, runs[i].len)
  }

  lemma LastRunSame(mapped: map<nat, nat>, runs: seq<Segment>, bases: seq<nat>, bytes: seq<Byte>)
    requires |bases| == |runs| > 0
    requires var i := |runs| - 1;
             && runs[i].addr in mapped && mapped[runs[i].addr] == bases[i]
             && Deref(mapped, runs[..i], bytes) == Through(bases[..i], runs[..i], bytes)
    ensures Deref(mapped, runs, bytes) == Through(bases, runs, bytes)
  {
  }

  lemma {:induction false} SameRuns(mapped: map<nat, nat>, runs: seq<Segment>, bases: seq<nat>, bytes: seq<Byte>)
    requires |bases| == |runs|
    requires forall t :: 0 <= t < |runs| ==> runs[t].addr in mapped && mapped[runs[t].addr] == bases[t]
    ensures Deref(mapped, runs, bytes) == Through(bases, runs, bytes)
  {
    if runs != [] {
      var i := |runs| - 1;
      SameRuns(mapped, runs[..i], bases[..i], bytes);
      LastRunSame(mapped, runs, bases, bytes);
    }
  }

  lemma ThroughOneMore(bases: seq<nat>, runs: seq<Segment>, base: nat, run: Segment, bytes: seq<Byte>, start: nat, queued: nat)
    requires |bases| == |runs| && Through(bases, runs, bytes) == View(bytes, start, queued)
    requires base + run.offset == start + queued
    ensures Through(bases + [base], runs + [run], bytes) == View(bytes, start, queued + run.len)
  {
    assert (bases + [base])[..|runs|] == bases && (runs + [run])[..|runs|] == runs;
    assert Through(bases + [base], runs + [run], bytes) == Through(bases, runs, bytes) + View(bytes, start + queued, run.len);
    ViewSplit(bytes, start, queued, run.len);
  }

  /** The lookup of a further page moves the pages gathered so far down by one and evicts none of them. */
  lemma StillInFront(runs: seq<Segment>, bases: seq<nat>, entries: seq<Page>, page: Page, from: Option<nat>, entries': seq<Page>, pageStart: nat, p: nat)
    requires InFront(runs, bases, entries, pageStart) && p > 0
    requires from.Some? ==> from.value < |entries| && (page == entries[from.value] || from.value >= |runs|)
    requires page.offset == pageStart
    requires entries' == [page] + if from.Some? then RemoveAt(entries, from.value) else entries
    ensures forall run: Segment :: run.addr == page.addr ==> InFront(runs + [run], bases + [pageStart], entries', pageStart + p)
  {
    forall run: Segment | run.addr == page.addr
      ensures InFront(runs + [run], bases + [pageStart], entries', pageStart + p)
    {
      OneMoreInFront(runs, bases, entries, page, from, entries', pageStart, p, run);
    }
  }

  lemma OneMoreInFront(runs: seq<Segment>, bases: seq<nat>, entries: seq<Page>, page: Page, from: Option<nat>, entries': seq<Page>, pageStart: nat, p: nat, run: Segment)
    requires InFront(runs, bases, entries, pageStart) && p > 0
    requires from.Some? ==> from.value < |entries| && from.value >= |runs|
    requires page.offset == pageStart && run.addr == page.addr
    requires entries' == [page] + if from.Some? then RemoveAt(entries, from.value) else entries
    ensures InFront(runs + [run], bases + [pageStart], entries', pageStart + p)
  {
    var runs', bases', k := runs + [run], bases + [pageStart], |runs|;
    assert forall u :: 0 <= u < k ==> entries'[u + 1] == entries[u];
    forall t | 0 <= t <= k ensures entries'[k - t].addr == runs'[t].addr && entries'[k - t].offset == bases'[t] {
      if t < k { assert entries'[k - 1 - t + 1] == entries[k - 1 - t]; }
    }
    forall u | 0 <= u <= k ensures entries'[u].offset < pageStart + p {
      if u > 0 { assert entries'[u - 1 + 1] == entries[u - 1]; }
    }
  }

  /** The next run begins where the last one ended, inside the page at `pageStart`. */
  lemma NextRun(pageStart: nat, p: nat, start: nat, queued: nat, limit: nat)
    requires p > 0 && pageStart % p == 0 && queued < limit && start < pageStart + p
    requires start + queued == Min(start + limit, Max(start, pageStart))
    ensures var o := (start + queued) % p;
            && pageStart + o == start + queued && o < p
            && start + queued + Min(limit - queued, p - o) == Min(start + limit, Max(start, pageStart + p))
    ensures (pageStart + p) % p == 0 && pageStart / p * p == pageStart
  {
    NextPage(pageStart, p);
    InPage(start + queued, pageStart, p);
    Quotient(pageStart, p);
  }

  /** `k` of at most `c` pages lie between `first` and `pageStart`. */
  ghost predicate OnPage(first: nat, pageStart: nat, k: nat, c: nat, p: nat, r: nat)
  {
    true == (pageStart == first + Span(k, p) && k <= c && (k == 0 || pageStart <= r))
  }

  /** The bytes of `c` pages. */
  function Span(c: nat, p: nat): (n: nat)
    ensures n == c * p && (c > 0 ==> n >= p)
  {
    if c > 0 then MulStep(0, c, p); c * p else c * p
  }

  lemma SpanStep(k: nat, c: nat, p: nat)
    requires k < c
    ensures Span(k + 1, p) == Span(k, p) + p <= Span(c, p)
  {
    MulStep(k, c, p);
  }

  /** The offset of `x` in its page. */
  lemma InPage(x: nat, base: nat, p: nat)
    requires p > 0 && base % p == 0 && base <= x < base + p
    ensures x % p == x - base
  {
    Quotient(base, p);
    UniqueQuotient(x, p, base / p, x - base);
  }

  /** Where the loop over pages stops: everything asked for, the cache's worth of pages, or the last page. */
  lemma HowFar(first: nat, pageStart: nat, lastPage: nat, k: nat, c: nat, p: nat, start: nat, size: nat, queued: nat, r: nat)
    requires p > 0 && first == PageStart(start, p) && OnPage(first, pageStart, k, c, p, r) && pageStart % p == 0
    requires lastPage % p == 0 && r == lastPage + p && c > 0
    requires var limit := Min(size, Span(c, p));
             queued <= limit && start + queued == Min(start + limit, Max(start, pageStart))
             && (queued >= limit || pageStart > lastPage || k >= c)
    ensures queued == if start < r then Min(size, Min(first + Span(c, p), r) - start) else 0
  {
    NextPage(lastPage, p);
    if pageStart > lastPage { Below(lastPage, pageStart, p); }
    if k < c { SpanStep(k, c, p); } else { assert k == c; }
    if first < r { Below(first, r, p); }
    Stops(first, pageStart, Span(k, p), Span(c, p), k >= c, p, start, size, queued, r);
  }

  lemma Stops(first: nat, pageStart: nat, kp: nat, cp: nat, full: bool, p: nat, start: nat, size: nat, queued: nat, r: nat)
    requires first <= start < first + p && pageStart == first + kp && kp <= cp && (if full then kp == cp else kp + p <= cp)
    requires first < r ==> first + p <= r
    requires var limit := Min(size, cp);
             queued <= limit && start + queued == Min(start + limit, Max(start, pageStart))
             && (queued >= limit || pageStart >= r || full)
    requires p <= cp && (kp == 0 || pageStart <= r)
    ensures queued == if start < r then Min(size, Min(first + cp, r) - start) else 0
  {
  }

  const NOT_FOUND: nat := 0xFFFF_FFFF_FFFF_FFFF

  /** `d` is nowhere in the file among the `n` positions from `from` on. */
  ghost predicate Absent(bytes: seq<Byte>, from: nat, n: nat, d: Byte)
  {
    forall x :: from <= x < from + n && x < |bytes| ==> bytes[x] != d
  }

  /** A scan for `d`: the `n` bytes looked at do not hold it, and where the scan stands. */
  ghost predicate FindState(bytes: seq<Byte>, found: bool, fault: bool, offset: nat, pageStart: nat, p: nat, start: nat, n: nat, d: Byte, e: nat, f: nat, r: nat)
  {
    true == (
      && Absent(bytes, e, n, d) && (n > 0 ==> e + n <= |bytes|)
      && (if fault then !found && e < r && |bytes| < r && |bytes| <= e + n
          else if found then offset == e + n < |bytes| && bytes[offset] == d
          else Scan(pageStart, p, start, r + e + 1, n, e, f, r)))
  }

  /** A turn whose page lies past the end of the file; and where the scan of a page begins. */
  lemma FindTurn(bytes: seq<Byte>, pageStart: nat, p: nat, start: nat, n: nat, d: Byte, e: nat, f: nat, r: nat)
    requires FindState(bytes, false, false, 0, pageStart, p, start, n, d, e, f, r) && |bytes| % p == 0
    ensures start <= pageStart + p
    ensures f <= pageStart < r ==>
              && Max(start, pageStart) == e + n < pageStart + p <= r
              && (if e + n < |bytes| then pageStart + p <= |bytes|
                  else FindState(bytes, false, true, 0, pageStart + p, p, start, n, d, e, f, r))
  {
    ScanTurn(pageStart, p, start, r + e + 1, n, e, f, r);
    if pageStart < r { Below(pageStart, r, p); }
    Aligned(pageStart, |bytes|, p);
  }

  /** A page that the cache does not have is passed over. */
  lemma FindSkip(bytes: seq<Byte>, pageStart: nat, p: nat, start: nat, n: nat, d: Byte, e: nat, f: nat, r: nat)
    requires FindState(bytes, false, false, 0, pageStart, p, start, n, d, e, f, r)
    ensures p > 0 && pageStart % p == 0
    ensures !(f <= pageStart < r) ==> FindState(bytes, false, false, 0, pageStart + p, p, start, n, d, e, f, r)
  {
    ScanTurn(pageStart, p, start, r + e + 1, n, e, f, r);
  }

  /** A turn that scanned its page. */
  lemma FindTurnOn(bytes: seq<Byte>, found: bool, offset: nat, pageStart: nat, p: nat, start: nat, n: nat, d: Byte, e: nat, f: nat, r: nat)
    requires FindState(bytes, false, false, 0, pageStart, p, start, n, d, e, f, r) && f <= pageStart < r
    requires e + n == Max(start, pageStart) <= offset <= pageStart + p <= |bytes| && Absent(bytes, e, offset - e, d)
    requires if found then offset < |bytes| && bytes[offset] == d else offset == pageStart + p
    ensures FindState(bytes, found, false, offset, pageStart + p, p, start, offset - e, d, e, f, r)
  {
    ScanTurn(pageStart, p, start, r + e + 1, n, e, f, r);
    Below(pageStart, r, p);
  }

  /** The file with `n` bytes from `from` on XORed with the mask, starting at mask position `maskPos`. */
  function Masked(bytes: seq<Byte>, from: nat, n: nat, mask: seq<Byte>, maskPos: nat): (s: seq<Byte>)
    requires mask != []
    ensures |s| == |bytes|
  {
    seq(|bytes|, i requires 0 <= i < |bytes| =>
      if from <= i < from + n then bytes[i] ^ mask[(maskPos + (i - from)) % |mask|] else bytes[i])
  }

  /** Which byte of the mask meets which byte of the file. */
  lemma MaskedAt(bytes: seq<Byte>, from: nat, n: nat, mask: seq<Byte>, maskPos: nat)
    requires mask != []
    ensures forall i :: 0 <= i < |bytes| ==>
              Masked(bytes, from, n, mask, maskPos)[i] == if from <= i < from + n then bytes[i] ^ mask[(maskPos + i - from) % |mask|] else bytes[i]
  {
    var s := Masked(bytes, from, n, mask, maskPos);
    forall i | 0 <= i < |bytes| ensures s[i] == if from <= i < from + n then bytes[i] ^ mask[(maskPos + i - from) % |mask|] else bytes[i] {
      if from <= i { assert maskPos + (i - from) == maskPos + i - from; }
    }
  }

  lemma UnmaskedAt(bytes: seq<Byte>, readOnly: bool, e: nat, r: nat, len: nat, mask: seq<Byte>)
    requires mask != []
    ensures forall i :: 0 <= i < |bytes| ==>
              AfterUnmask(bytes, readOnly, e, r, len, mask)[i] == if !readOnly && e <= i < e + len && i < r then bytes[i] ^ mask[(i - e) % |mask|] else bytes[i]
  {
    MaskedAt(bytes, e, Touched(e, r, len), mask, 0);
  }

  lemma MaskedNothingFrom(bytes: seq<Byte>, from: nat, mask: seq<Byte>, maskPos: nat)
    requires mask != []
    ensures Masked(bytes, from, 0, mask, maskPos) == bytes
  {
  }

  lemma MaskedNothing(bytes: seq<Byte>, from: nat, mask: seq<Byte>)
    requires mask != []
    ensures Masked(bytes, from, 0, mask, 0) == bytes
  {
  }

  /** Masking can be done in two parts when the mask position is carried over. */
  lemma MaskedOn(bytes: seq<Byte>, from: nat, n: nat, m: nat, mask: seq<Byte>)
    requires mask != []
    ensures Masked(Masked(bytes, from, n, mask, 0), from + n, m, mask, n) == Masked(bytes, from, n + m, mask, 0)
  {
    var a, b := Masked(Masked(bytes, from, n, mask, 0), from + n, m, mask, n), Masked(bytes, from, n + m, mask, 0);
    forall i | 0 <= i < |bytes| ensures a[i] == b[i] {
      if from + n <= i { assert n + (i - (from + n)) == 0 + (i - from); }
    }
  }

  /** Masking that reached the end of the file has masked as much as a longer one would. */
  lemma MaskedToEnd(bytes: seq<Byte>, from: nat, n: nat, m: nat, mask: seq<Byte>)
    requires mask != [] && (n == m || (|bytes| <= from + n && |bytes| <= from + m))
    ensures Masked(bytes, from, n, mask, 0) == Masked(bytes, from, m, mask, 0)
  {
  }

  /** How many of the `len` bytes from `e` on lie before `r`, where what is mapped ends. */
  function Touched(e: nat, r: nat, len: nat): (n: nat) { if e + len <= r then len else Max(e, r) - e }

  /** What an unmasking of `len` bytes from `e` on leaves in a file mapped up to `r`. */
  function AfterUnmask(bytes: seq<Byte>, readOnly: bool, e: nat, r: nat, len: nat, mask: seq<Byte>): (s: seq<Byte>)
    requires mask != []
    ensures |s| == |bytes|
  {
    if readOnly then bytes else Masked(bytes, e, Touched(e, r, len), mask, 0)
  }

  /** A range that lies in the file is unmasked, whatever the file and the mask, exactly when the pages can be stored into or there is nothing to store. */
  lemma UnmasksExactlyWhen(n: nat, readOnly: bool, e: nat, r: nat, len: nat)
    requires e + len <= n <= r
    ensures (forall bytes: seq<Byte>, mask: seq<Byte> | |bytes| == n && mask != [] ::
               AfterUnmask(bytes, readOnly, e, r, len, mask) == Masked(bytes, e, len, mask, 0))
            <==> !readOnly || len == 0
  {
    if readOnly && len == 0 {
      forall bytes: seq<Byte>, mask: seq<Byte> | |bytes| == n && mask != []
        ensures AfterUnmask(bytes, readOnly, e, r, len, mask) == Masked(bytes, e, len, mask, 0)
      {
        MaskedNothing(bytes, e, mask);
      }
    } else if readOnly {
      var bytes: seq<Byte>, mask: seq<Byte> := seq(n, _ => 0), [1];
      assert Masked(bytes, e, len, mask, 0)[e] == bytes[e] ^ mask[(0 + (e - e)) % |mask|] != bytes[e];
      assert AfterUnmask(bytes, readOnly, e, r, len, mask) != Masked(bytes, e, len, mask, 0);
    }
  }

  /** Unmasking twice restores the bytes: section 5.3 of RFC 6455 masks and unmasks with the same operation. */
  lemma MaskedTwice(bytes: seq<Byte>, from: nat, n: nat, mask: seq<Byte>)
    requires mask != []
    ensures Masked(Masked(bytes, from, n, mask, 0), from, n, mask, 0) == bytes
  {
    var a := Masked(Masked(bytes, from, n, mask, 0), from, n, mask, 0);
    forall i | 0 <= i < |bytes| ensures a[i] == bytes[i] {
      if from <= i < from + n { XorCancels(bytes[i], mask[(0 + (i - from)) % |mask|]); }
    }
  }

  /** The write state that `SetPosition` leaves. */
  function Positioned(bytes: seq<Byte>, offset: nat, p: nat): (w: WriteState)
    requires p > 0
  {
    WriteState(if offset == |bytes| then Resize(bytes, offset + p) else bytes, PageStart(offset, p), Some(PageStart(offset, p)), offset % p)
  }

  /** Consecutive pages hold exactly the offsets from where they begin to where they end. */
  lemma {:induction false} Covered(pages: seq<nat>, p: nat, end: nat, x: nat)
    requires p > 0 && Consecutive(pages, p, end)
    ensures FloorOf(pages, end) <= x < end <==> exists i :: 0 <= i < |pages| && pages[i] <= x < pages[i] + p
  {
    if pages != [] {
      ConsecutiveEnds(pages, p, end, 0);
      if x < pages[0] + p {
        if i :| 0 <= i < |pages| && pages[i] <= x < pages[i] + p { StartsBelow(pages, p, end, i); }
      } else {
        Covered(pages[1..], p, end, x);
        if i :| 0 <= i < |pages[1..]| && pages[1..][i] <= x < pages[1..][i] + p { assert pages[i + 1] == pages[1..][i]; }
        if i :| 0 <= i < |pages| && pages[i] <= x < pages[i] + p {
          assert pages[1..][i - 1] == pages[i];
        }
      }
    }
  }

  lemma {:induction false} StartsBelow(pages: seq<nat>, p: nat, end: nat, i: nat)
    requires Consecutive(pages, p, end) && i < |pages|
    ensures pages[0] <= pages[i]
  {
    if i > 0 { StartsBelow(pages, p, end, i - 1); }
  }

  lemma StoreAppends(w: WriteState, src: seq<Byte>, p: nat)
    requires w.Linear(p) && w.WithRoom(p).pos + |src| <= p
    ensures var u := w.WithRoom(p).Store(src, p);
            u.Linear(p) && w.End() <= |w.bytes| && u.End() == w.End() + |src| <= |u.bytes| && u.Written() == w.Written() + src
  {
    var v := w.WithRoom(p);
    assert v.bytes[..w.End()] == w.bytes[..w.End()];
  }

  lemma ClaimAppends(w: WriteState, p: nat)
    requires w.Linear(p)
    ensures var u := w.WithRoom(p).(pos := p);
            u.Linear(p) && w.End() <= |w.bytes| && u.End() == w.End() + (p - w.WithRoom(p).pos) <= |u.bytes|
            && u.Written()[..w.End()] == w.Written()
  {
    var v := w.WithRoom(p);
    assert v.bytes[..w.End()] == w.bytes[..w.End()];
  }

  /** The last of `size` bytes from `e` on. */
  function LastByte(e: nat, size: nat): nat { if size == 0 then e else e + size - 1 }

  /** What the page at `pageStart` adds to a copy of `size` bytes from `start` that has `got` so far. */
  function PageCopy(bytes: seq<Byte>, pageStart: nat, p: nat, start: nat, size: nat, got: seq<Byte>): (dest: seq<Byte>)
    requires |got| <= size && start <= pageStart + p
  {
    var startPos := Max(start, pageStart);
    got + View(bytes, startPos, Min(size - |got|, pageStart + p - startPos))
  }

  /** A copy: what it has so far, and where it stands. */
  ghost predicate CopyState(bytes: seq<Byte>, ok: bool, fault: bool, pageStart: nat, p: nat, start: nat, size: nat, dest: seq<Byte>, e: nat, f: nat, r: nat)
  {
    true == (
      && dest == View(bytes, e, |dest|) && (|dest| > 0 ==> e + |dest| <= |bytes|)
      && (if fault then !ok && PastEnd(e, size, |bytes|, r)
          else if ok then |dest| == size && e < r && e + size <= r
          else Scan(pageStart, p, start, size, |dest|, e, f, r)))
  }

  lemma CopyTurn(bytes: seq<Byte>, pageStart: nat, p: nat, start: nat, size: nat, got: seq<Byte>, e: nat, f: nat, r: nat)
    requires CopyState(bytes, false, false, pageStart, p, start, size, got, e, f, r)
    ensures |got| <= size && start <= pageStart + p
    ensures f <= pageStart < r ==>
              if Missing(|bytes|, pageStart, p, start, size - |got|) then CopyState(bytes, false, true, pageStart + p, p, start, size, got, e, f, r)
              else var dest := PageCopy(bytes, pageStart, p, start, size, got);
                   && CopyState(bytes, |dest| == size, false, pageStart + p, p, start, size, dest, e, f, r)
                   && (|dest| == size ==> pageStart <= LastByte(e, size))
  {
    ScanTurn(pageStart, p, start, size, |got|, e, f, r);
    if f <= pageStart < r {
      MissingIsPastEnd(|bytes|, pageStart, p, start, size, |got|, e, f, r);
      if !Missing(|bytes|, pageStart, p, start, size - |got|) { CopyTurnOn(bytes, pageStart, p, start, size, got, e); }
    }
  }

  /** A page that the cache does not have is passed over. */
  lemma CopySkip(bytes: seq<Byte>, pageStart: nat, p: nat, start: nat, size: nat, got: seq<Byte>, e: nat, f: nat, r: nat)
    requires CopyState(bytes, false, false, pageStart, p, start, size, got, e, f, r)
    ensures p > 0 && pageStart % p == 0
    ensures !(f <= pageStart < r) ==> CopyState(bytes, false, false, pageStart + p, p, start, size, got, e, f, r)
  {
    ScanTurn(pageStart, p, start, size, |got|, e, f, r);
  }

  lemma FloorStays(floor: nat, pageStart: nat, p: nat, done: bool, f: nat, r: nat, last: nat)
    requires floor <= Max(f, Min(pageStart, r)) && (done ==> pageStart <= last)
    ensures floor <= Max(f, if done then last else Min(pageStart + p, r))
  {
  }

  lemma CopyTurnOn(bytes: seq<Byte>, pageStart: nat, p: nat, start: nat, size: nat, got: seq<Byte>, e: nat)
    requires |got| <= size && start <= pageStart + p && got == View(bytes, e, |got|) && Max(start, pageStart) == e + |got| <= pageStart + p
    requires !Missing(|bytes|, pageStart, p, start, size - |got|) && (|got| > 0 ==> e + |got| <= |bytes|)
    ensures var dest := PageCopy(bytes, pageStart, p, start, size, got);
            && |dest| == |got| + Min(size - |got|, pageStart + p - (e + |got|))
            && dest == View(bytes, e, |dest|) && (|dest| > 0 ==> e + |dest| <= |bytes|)
  {
    var m := Min(size - |got|, pageStart + p - (e + |got|));
    ViewSplit(bytes, e, |got|, m);
    if m > 0 { assert |View(bytes, e + |got|, m)| == m; }
  }

  /** The part of the page at `pageStart` that is touched for `left` more bytes is not all in a file of `n` bytes. */
  predicate Missing(n: nat, pageStart: nat, p: nat, start: nat, left: nat)
    requires start <= pageStart + p
  {
    var startPos := Max(start, pageStart);
    var m := Min(left, pageStart + p - startPos);
    m > 0 && startPos + m > n
  }

  lemma MissingIsPastEnd(b: nat, pageStart: nat, p: nat, start: nat, size: nat, n: nat, e: nat, f: nat, r: nat)
    requires Scan(pageStart, p, start, size, n, e, f, r) && f <= pageStart < r && n <= size && start <= pageStart + p
    ensures Missing(b, pageStart, p, start, size - n) ==> PastEnd(e, size, b, r)
  {
    ScanTurn(pageStart, p, start, size, n, e, f, r);
    Below(pageStart, r, p);
  }

  lemma RoomLeft(w: WriteState, p: nat)
    requires w.Linear(p) && w.offset % p == 0
    ensures p - w.WithRoom(p).pos == p - w.End() % p > 0
  {
    LastPage(w, p);
    if w.page.Some? && w.pos < p {
      PreviousPage(w.offset, p);
      InPage(w.End(), w.page.value, p);
    } else if w.page.Some? {
      assert w.End() == w.offset;
    }
  }

  /** A scan of `size` bytes from `e`, in pages that end at `r`, runs past a file of `n` bytes. */
  ghost predicate PastEnd(e: nat, size: nat, n: nat, r: nat) { size > 0 && e < r && n < Min(e + size, r) }

  lemma Aligned(a: nat, b: nat, p: nat)
    requires p > 0 && a % p == 0 && b % p == 0
    ensures a < b ==> a + p <= b
  {
    if a < b { Below(a, b, p); }
  }

  /** In an append-only log the page with the write position is the last one of the file, or the next one when that is full. */
  lemma LastPage(w: WriteState, p: nat)
    requires w.Linear(p) && w.offset % p == 0
    ensures |w.bytes| % p == 0 && w.End() <= |w.bytes|
    ensures PageStart(w.End(), p) == if w.page.Some? && w.pos < p then w.page.value else |w.bytes|
    ensures w.page.Some? && w.pos < p ==> w.page.value + p == |w.bytes|
  {
    if w.page.Some? {
      PreviousPage(w.offset, p);
      if w.pos < p { InPage(w.End(), w.page.value, p); }
    }
    Quotient(w.End(), p);
  }

  /**
    How far a page-by-page scan for `size` bytes from `start` has come before the page at
    `pageStart`: `n` bytes from `e` on, where `f` is the floor and `r` the end of what is readable.
   */
  ghost predicate Scan(pageStart: nat, p: nat, start: nat, size: nat, n: nat, e: nat, f: nat, r: nat)
  {
    true == (
      && p > 0 && pageStart % p == 0 && f % p == 0 && r % p == 0
      && start < pageStart + p && e == Max(start, f) && f <= r
      && e + n == Max(e, Min(pageStart, r))
      && (n == 0 || n < size) && (size == 0 && e < r ==> pageStart <= e))
  }

  /** A scan that ran past the last page did not find `size` bytes. */
  lemma ScanEnds(pageStart: nat, lastPage: nat, p: nat, start: nat, size: nat, n: nat, e: nat, f: nat, r: nat)
    requires Scan(pageStart, p, start, size, n, e, f, r)
    requires lastPage % p == 0 && lastPage < pageStart && r <= lastPage + p
    ensures !(e < r && e + size <= r) && e + n == Max(e, r)
  {
    Below(lastPage, pageStart, p);
  }

  /** What the outcome of a copy or an unmasking says about the `b` bytes of the file. */
  lemma TransferEnds(ok: bool, fault: bool, b: nat, pageStart: nat, lastPage: nat, p: nat, start: nat, size: nat, n: nat, e: nat, f: nat, r: nat)
    requires p > 0 && b <= r && (n > 0 ==> e + n <= b) && lastPage % p == 0 && r <= lastPage + p
    requires if fault then !ok && PastEnd(e, size, b, r)
             else if ok then n == size && e < r && e + size <= r
             else lastPage < pageStart && Scan(pageStart, p, start, size, n, e, f, r)
    ensures ok <==> if size > 0 then e + size <= b else e < r
    ensures fault <==> PastEnd(e, size, b, r)
    ensures !ok && !fault ==> e + n == Max(e, r)
  {
    if !ok && !fault { ScanEnds(pageStart, lastPage, p, start, size, n, e, f, r); }
  }

  /** The page at `pageStart` either completed the scan or left it ready for the next page. */
  ghost predicate Scanned(pageStart: nat, p: nat, start: nat, size: nat, n: nat, e: nat, f: nat, r: nat)
  {
    if Complete(pageStart, size, n, e, f, r) then e < r && e + size <= r && pageStart <= LastByte(e, size)
    else Scan(pageStart + p, p, start, size, n, e, f, r)
  }

  /** Enough bytes were found, the last of them on a page that is there. */
  predicate Complete(pageStart: nat, size: nat, n: nat, e: nat, f: nat, r: nat)
  {
    n == size && (size > 0 || f <= pageStart < r)
  }

  lemma ScanTurn(pageStart: nat, p: nat, start: nat, size: nat, n: nat, e: nat, f: nat, r: nat)
    requires Scan(pageStart, p, start, size, n, e, f, r)
    ensures n <= size && start <= pageStart + p
    ensures f <= pageStart < r ==>
              var s := Max(start, pageStart);
              s == e + n && s <= pageStart + p
              && Scanned(pageStart, p, start, size, n + Min(size - n, pageStart + p - s), e, f, r)
    ensures !(f <= pageStart < r) ==> Scanned(pageStart, p, start, size, n, e, f, r)
  {
    NextPage(pageStart, p);
    if pageStart < r { Below(pageStart, r, p); }
    if pageStart < f { Below(pageStart, f, p); }
  }

  /** A page that the cache does not have is passed over. */
  lemma ScanSkip(pageStart: nat, p: nat, start: nat, size: nat, n: nat, e: nat, f: nat, r: nat)
    requires Scan(pageStart, p, start, size, n, e, f, r)
    ensures p > 0 && pageStart % p == 0
    ensures !(f <= pageStart < r) ==> Scan(pageStart + p, p, start, size, n, e, f, r)
  {
    ScanTurn(pageStart, p, start, size, n, e, f, r);
  }

  /** Dropping the pages behind `start` from consecutive ones leaves `start`'s page in front, if it was there. */
  lemma LookupConsecutive(pages: seq<nat>, p: nat, end: nat, k: nat, start: nat)
    requires p > 0 && Consecutive(pages, p, end) && end % p == 0 && start % p == 0 && k <= |pages|
    requires forall i :: 0 <= i < |pages| ==> pages[i] % p == 0
    requires forall i :: 0 <= i < k ==> pages[i] + p <= start
    requires k < |pages| ==> start < pages[k] + p
    ensures Consecutive(pages[k..], p, end)
    ensures FloorOf(pages[k..], end) == Max(FloorOf(pages, end), Min(start, end))
    ensures (pages[k..] != [] && pages[k..][0] <= start) <==> FloorOf(pages, end) <= start < end
    ensures FloorOf(pages, end) <= start < end ==> FloorOf(pages[k..], end) == start
  {
    if k < |pages| {
      if k > 0 { assert pages[k] == pages[k - 1] + p; }
      if pages[k] <= start { SameBoundary(pages[k], start, p); }
    }
    ConsecutiveEnds(pages, p, end, k);
    ConsecutiveEnds(pages, p, end, 0);
  }

  lemma {:induction false} ConsecutiveEnds(pages: seq<nat>, p: nat, end: nat, k: nat)
    requires Consecutive(pages, p, end) && k <= |pages|
    ensures k < |pages| ==> pages[k] + p <= end
    decreases |pages| - k
  {
    if k + 1 < |pages| { ConsecutiveEnds(pages, p, end, k + 1); }
  }
}
