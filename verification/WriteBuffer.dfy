/**
  The write side of the paged log, `LogWriteBuf` of src/main/store/store.h:19-184.  The
  file is one byte sequence and a mapped page is a view of it (MAP_SHARED), so a store
  through the page is a store into the file.
 */
module WriteBuffer {
  import opened Sequences
  import opened OneShot
  import opened Pages

  function Zeros(n: nat): (s: seq<Byte>)
    ensures |s| == n
  {
    seq(n, _ => 0)
  }

  /** `ftruncate`: cuts the file or extends it with zeros. */
  function Resize(bytes: seq<Byte>, n: nat): (s: seq<Byte>)
    ensures |s| == n
  {
    if n <= |bytes| then bytes[..n] else bytes + Zeros(n - |bytes|)
  }

  class MappedFile {
    var bytes: seq<Byte>

    constructor (bytes: seq<Byte>)
      ensures this.bytes == bytes
    {
      this.bytes := bytes;
    }

    method Truncate(n: nat)
      modifies this
      ensures bytes == Resize(old(bytes), n)
    {
      bytes := Resize(bytes, n);
    }

    /** A `memcpy` into a mapped page. */
    method Store(at: nat, src: seq<Byte>)
      requires at + |src| <= |bytes|
      modifies this
      ensures bytes == Splice(old(bytes), at, src)
    {
      bytes := Splice(bytes, at, src);
    }
  }

  /** The file, the offset of the next page, the mapped page and how much of it is used. */
  datatype WriteState = WriteState(bytes: seq<Byte>, offset: nat, page: Option<nat>, pos: nat)
  {
    /** The mapped page lies in the file. */
    ghost predicate Mapped(p: nat) {
      p > 0 && (page.None? ==> pos == 0) && (page.Some? ==> pos <= p && page.value + p <= |bytes|)
    }

    /** The next page follows the mapped one at the end of the file: an append-only log. */
    ghost predicate Linear(p: nat) {
      Mapped(p) && offset == |bytes| && (page.Some? ==> page.value + p == offset)
    }

    /** The state `SetPosition` leaves: the "next" page is the mapped page itself. */
    ghost predicate Repositioned(p: nat) {
      Mapped(p) && page == Some(offset)
    }

    /** The physical write position. */
    function End(): (e: nat) {
      if page.Some? then page.value + pos else offset
    }

    function NewPage(p: nat): (w: WriteState) {
      WriteState(Resize(bytes, offset + p), offset + p, Some(offset), 0)
    }

    /** A page with room: the mapped one, or a new one when there is none or it is full. */
    function WithRoom(p: nat): (w: WriteState) {
      if page.None? || pos == p then NewPage(p) else this
    }

    function Store(src: seq<Byte>, p: nat): (w: WriteState)
      requires Mapped(p) && page.Some? && pos + |src| <= p
    {
      this.(bytes := Splice(bytes, page.value + pos, src), pos := pos + |src|)
    }

    /** One turn of the loop of `Push`. */
    function Turn(data: seq<Byte>, p: nat): (w: WriteState)
      requires Mapped(p) && (Linear(p) || Repositioned(p)) && data != []
    {
      WithRoom(p).Store(data[..Step(data, p)], p)
    }

    function Step(data: seq<Byte>, p: nat): (x: nat)
      requires Mapped(p) && data != []
      ensures 0 < x <= |data| && WithRoom(p).pos + x <= p
    {
      if |data| < p - WithRoom(p).pos then |data| else p - WithRoom(p).pos
    }

    /** What is in the file up to the write position. */
    ghost function Written(): (s: seq<Byte>)
      requires End() <= |bytes|
    {
      bytes[..End()]
    }

    /** Storing `data` page by page. */
    ghost function Pushed(data: seq<Byte>, p: nat): (w: WriteState)
      requires Mapped(p) && (Linear(p) || Repositioned(p))
      decreases |data|
    {
      if data == [] then this else Turn(data, p).Pushed(data[Step(data, p)..], p)
    }
  }

  lemma TurnAppends(w: WriteState, data: seq<Byte>, p: nat)
    requires w.Linear(p) && data != []
    ensures var u, x := w.Turn(data, p), w.Step(data, p);
            u.Linear(p) && w.End() <= |w.bytes| && u.End() == w.End() + x <= |u.bytes| && u.Written() == w.Written() + data[..x]
  {
    var v := w.WithRoom(p);
    assert v.bytes[..w.End()] == w.bytes[..w.End()];
  }

  /** From the linear state a push appends. */
  lemma {:induction false} PushAppends(w: WriteState, data: seq<Byte>, p: nat)
    requires w.Linear(p)
    ensures var r := w.Pushed(data, p);
            r.Linear(p) && w.End() <= |w.bytes| && r.End() == w.End() + |data| <= |r.bytes| && r.Written() == w.Written() + data
    ensures data != [] || (w.page.Some? && w.pos > 0) ==> w.Pushed(data, p).page.Some? && w.Pushed(data, p).pos > 0
    decreases |data|
  {
    if data == [] {
      assert w.Written() + data == w.Written();
    } else {
      var x := w.Step(data, p);
      TurnAppends(w, data, p);
      PushAppends(w.Turn(data, p), data[x..], p);
      Chain(w.Written(), w.Turn(data, p).Written(), w.Pushed(data, p).Written(), data, x);
    }
  }

  lemma Chain(a: seq<Byte>, b: seq<Byte>, c: seq<Byte>, data: seq<Byte>, x: nat)
    requires x <= |data| && b == a + data[..x] && c == b + data[x..]
    ensures c == a + data
  {
    assert data == data[..x] + data[x..];
  }

  /** After `SetPosition`, data that fits in the rest of the page goes where the position is. */
  lemma {:induction false} PushFits(w: WriteState, data: seq<Byte>, p: nat)
    requires w.Repositioned(p) && w.pos + |data| <= p
    ensures w.Pushed(data, p) == if data == [] then w else w.Store(data, p)
  {
    if data != [] {
      var x := w.Step(data, p);
      assert x == |data| && data[..x] == data;
    }
  }

  /** After `SetPosition`, data that does not fit starts over at the beginning of the same page. */
  lemma {:induction false} PushOverflows(w: WriteState, data: seq<Byte>, p: nat)
    requires w.Repositioned(p) && w.pos + |data| > p
    ensures var r, kept := w.Pushed(data, p), p - w.pos;
            r.Linear(p) && r.End() == w.offset + (|data| - kept) <= |r.bytes|
            && r.Written() == w.bytes[..w.offset] + data[kept..] && |r.bytes| < r.End() + p
  {
    var kept := p - w.pos;
    if kept > 0 {
      var u := w.Turn(data, p);
      assert w.Step(data, p) == kept;
      assert u.Repositioned(p) && u.pos == p && u.offset == w.offset;
      assert u.bytes[..w.offset] == w.bytes[..w.offset];
      OverflowRest(u, data[kept..], p);
    } else {
      OverflowRest(w, data, p);
    }
  }

  lemma OverflowRest(w: WriteState, data: seq<Byte>, p: nat)
    requires w.Repositioned(p) && w.pos == p && data != []
    ensures var r := w.Pushed(data, p);
            r.Linear(p) && r.End() == w.offset + |data| <= |r.bytes| && r.Written() == w.bytes[..w.offset] + data
            && |r.bytes| < r.End() + p
  {
    var n := w.NewPage(p);
    assert n.Linear(p) && n.Written() == w.bytes[..w.offset];
    SameTurn(w, n, data, p);
    PushAppends(n, data, p);
  }

  /** A full page and a fresh one behave alike. */
  lemma SameTurn(w: WriteState, n: WriteState, data: seq<Byte>, p: nat)
    requires w.Repositioned(p) && w.pos == p && data != [] && n == w.NewPage(p) && n.Linear(p)
    ensures w.Pushed(data, p) == n.Pushed(data, p)
  {
    assert w.WithRoom(p) == n == n.WithRoom(p);
  }

  /**
    After `SetPosition`, a push leaves the file holding the old bytes followed by the data
    exactly when the data fits in the rest of the page, whatever the file and the data.
   */
  lemma AppendAfterSetPositionExactlyWhen(w: WriteState, data: seq<Byte>, p: nat)
    requires w.Repositioned(p)
    ensures var r, e := w.Pushed(data, p), w.End();
            (e + |data| <= |r.bytes| && r.bytes[..e + |data|] == w.Written() + data) <==> w.pos + |data| <= p
  {
    if w.pos + |data| <= p {
      PushFits(w, data, p);
    } else {
      PushOverflows(w, data, p);
    }
  }

  /** Pages one behind the other, the last one ending at `end`. */
  ghost predicate Consecutive(pages: seq<nat>, p: nat, end: nat)
  {
    && (forall i, j :: 0 <= i && j == i + 1 && j < |pages| ==> pages[j] == pages[i] + p)
    && (pages != [] ==> pages[|pages| - 1] + p == end)
  }

  /** Where such pages begin. */
  function FloorOf(pages: seq<nat>, end: nat): nat { if pages == [] then end else pages[0] }

  lemma AddConsecutive(pages: seq<nat>, p: nat, end: nat)
    requires p > 0 && Consecutive(pages, p, end)
    ensures Consecutive(pages + [end], p, end + p) && FloorOf(pages + [end], end + p) == FloorOf(pages, end)
    ensures pages != [] ==> pages[|pages| - 1] < end
  {
  }

  class LogWriteBuf {
    const pageSize: nat
    const readOnly: bool
    const file: MappedFile
    const cache: OneShotCache?  // where the allocation callback adds pages; null when the cache ignores them
    var offset: nat             // where the next page goes
    var page: Option<nat>       // the file offset of the mapped page
    var pos: nat                // how much of the mapped page is used

    constructor (pageSize: nat, offset: nat, readOnly: bool, file: MappedFile, cache: OneShotCache?)
      requires pageSize > 0 && offset % pageSize == 0 && |file.bytes| == offset
      requires cache != null ==> cache.Valid() && cache.pageSize == pageSize && cache.pages == []
      ensures this.pageSize == pageSize && this.readOnly == readOnly && this.file == file && this.cache == cache
      ensures Valid() && State() == WriteState(file.bytes, offset, None, 0) && Floor() == (if cache == null then 0 else offset)
    {
      this.pageSize, this.offset, this.readOnly, this.file, this.cache := pageSize, offset, readOnly, file, cache;
      page, pos := None, 0;
    }

    function State(): (w: WriteState)
      reads this, file
    {
      WriteState(file.bytes, offset, page, pos)
    }

    ghost predicate Valid()
      reads this, file, cache
    {
      true == (
        && State().Mapped(pageSize) && (State().Linear(pageSize) || State().Repositioned(pageSize))
        && Linked())
    }

    /** The pages of a drop-behind cache are the newest pages of the log, the one being written among them. */
    ghost predicate Linked()
      reads this, cache
    {
      && pageSize > 0 && offset % pageSize == 0
      && (cache != null ==> cache.Valid() && cache.pageSize == pageSize && Consecutive(cache.pages, pageSize, offset))
      && (cache != null && page.Some? && pos < pageSize ==> cache.pages != [])
    }

    /** The oldest offset a drop-behind cache still holds; a cache that maps on demand holds everything. */
    ghost function Floor(): (f: nat)
      reads this, cache
    {
      if cache == null then 0 else FloorOf(cache.pages, offset)
    }

    method AllocatePage()
      requires Valid()
      modifies this, file, cache
      ensures Linked() && Floor() == old(Floor())
      ensures State() == old(State()).NewPage(pageSize)
    {
      NextPage(offset, pageSize);
      file.Truncate(offset + pageSize);
      if cache != null {
        AddConsecutive(cache.pages, pageSize, offset);
        cache.AddPage(offset);
      }
      page, pos := Some(offset), 0;
      offset := offset + pageSize;
    }

    /** A page with room to write to. */
    method EnsureRoom()
      requires Valid()
      modifies this, file, cache
      ensures Valid() && Floor() == old(Floor()) && page.Some? && pos < pageSize
      ensures State() == old(State()).WithRoom(pageSize)
    {
      if page.None? || pos == pageSize {
        AllocatePage();
      }
    }

    /** A `memcpy` to the write position. */
    method Append(src: seq<Byte>)
      requires Valid() && page.Some? && pos + |src| <= pageSize
      modifies this`pos, file
      ensures Valid() && State() == old(State()).Store(src, pageSize)
    {
      file.Store(page.value + pos, src);
      pos := pos + |src|;
    }

    /** One turn of the loop of `Push`. */
    method PushSome(data: seq<Byte>) returns (x: nat)
      requires Valid() && data != []
      modifies this, file, cache
      ensures Valid() && Floor() == old(Floor())
      ensures x == old(State()).Step(data, pageSize) && State() == old(State()).Turn(data, pageSize)
    {
      EnsureRoom();
      x := if |data| < pageSize - pos then |data| else pageSize - pos;
      Append(data[..x]);
    }

    method Push(data: seq<Byte>) returns (r: int)
      requires Valid()
      modifies this, file, cache
      ensures Valid() && Floor() == old(Floor())
      ensures r == if readOnly then -1 else 0
      ensures State() == if readOnly then old(State()) else old(State()).Pushed(data, pageSize)
    {
      if readOnly { return -1; }
      var off := 0;
      while off < |data|
        invariant off <= |data| && Valid() && Floor() == old(Floor())
        invariant State().Pushed(data[off..], pageSize) == old(State()).Pushed(data, pageSize)
      {
        var x := PushSome(data[off..]);
        assert data[off..][x..] == data[off + x..];
        off := off + x;
      }
      r := 0;
    }

    /** A read straight into the rest of the page. */
    method Readv(reply: ReadReply<Byte>) returns (r: int)
      requires Valid() && (reply.Failed? ==> reply.code < 0)
      requires reply.Got? ==> |reply.bytes| <= pageSize - State().WithRoom(pageSize).pos
      modifies this, file, cache
      ensures Valid() && Floor() == old(Floor())
      ensures r == if readOnly then -1 else if reply.Failed? then reply.code else |reply.bytes|
      ensures State() == if readOnly then old(State())
                         else old(State()).WithRoom(pageSize).Store(if reply.Got? then reply.bytes else [], pageSize)
    {
      if readOnly { return -1; }
      EnsureRoom();
      if reply.Failed? { 
        assert State() == State().Store([], pageSize);
        return reply.code;
      }
      Append(reply.bytes);
      r := |reply.bytes|;
    }

    /** Hands out the rest of the page, all of which counts as written. */
    method ZeroCopyNext() returns (r: int, at: nat, len: nat)
      requires Valid()
      modifies this, file, cache
      ensures Valid() && Floor() == old(Floor())
      ensures readOnly ==> r == -1 && State() == old(State()) && len == 0
      ensures !readOnly && cache != null ==> cache.pages != []
      ensures !readOnly ==> r == 0 && 0 < len
                            && var w := old(State()).WithRoom(pageSize);
                               at == w.End() && len == pageSize - w.pos && State() == w.(pos := pageSize)
    {
      if readOnly { return -1, 0, 0; }
      EnsureRoom();
      r, at, len := 0, page.value + pos, pageSize - pos;
      pos := pageSize;
    }

    method Backup(len: nat) returns (ok: bool)
      requires Valid()
      modifies this`pos
      ensures ok == (len <= old(pos))
      ensures Valid() <==> !ok || len == 0 || cache == null || cache.pages != []
      ensures State() == if ok then old(State()).(pos := old(pos) - len) else old(State())
    {
      if len > pos { return false; }
      pos := pos - len;
      ok := true;
    }

    /** Maps the page holding `target` and continues inside it; a file that ends there gets the page. */
    method SetPosition(target: nat)
      requires Valid() && cache == null && target <= |file.bytes| && |file.bytes| % pageSize == 0
      modifies this, file
      ensures Valid()
      ensures offset == PageStart(target, pageSize) && page == Some(offset) && pos == target % pageSize
      ensures file.bytes == if target == |old(file.bytes)| then Resize(old(file.bytes), target + pageSize) else old(file.bytes)
    {
      offset := PageStart(target, pageSize);
      Quotient(target, pageSize);
      if |file.bytes| == offset {
        file.Truncate(offset + pageSize);
      } else {
        Below(offset, |file.bytes|, pageSize);
      }
      page, pos := Some(offset), target % pageSize;
    }
  }
}
