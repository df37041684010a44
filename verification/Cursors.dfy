/**
  Read cursors over the paged log: `PositionedStream` and `MultiPositionedStreamLog` of
  src/main/store/store.h:783-1007.
 */
module Cursors {
  import opened Sequences
  import opened RWStream

  class PositionedStream {
    const stream: LogRWStream
    var curOffset: nat

    constructor (stream: LogRWStream)
      requires stream.Valid()
      ensures Valid() && this.stream == stream && Unread() == [] && curOffset == stream.available
    {
      this.stream, curOffset := stream, stream.available;
      stream.Bounds();
    }

    ghost function Parts(): (s: set<object>) { {this} + stream.Parts() }

    /** The cursor is among what was written and can still be read. */
    ghost predicate Valid()
      reads Parts()
    {
      true == (stream.Valid() && stream.Floor() <= curOffset <= stream.available)
    }

    /** What lies between the cursor and the end of the log. */
    ghost function Unread(): (s: seq<Byte>)
      requires Valid()
      reads Parts()
    {
      stream.Log()[curOffset..]
    }

    function Available(): (n: nat)
      requires Valid()
      reads Parts()
      ensures n == |Unread()|
    {
      stream.available - curOffset
    }

    method Peak(offset: nat) returns (ok: bool, d: Byte)
      requires Valid()
      modifies stream.CacheParts()
      ensures Valid() && Unread() == old(Unread())
      ensures ok <==> offset < |Unread()|
      ensures ok ==> d == Unread()[offset]
    {
      ok, d := stream.Peak(curOffset + offset);
    }

    /**
      Copies and consumes.  The cursor may go past what is available when the bytes are in the
      file, and the copy faults when it runs into a page past the end of the file.
     */
    method Pop(size: nat) returns (ok: bool, dest: seq<Byte>, fault: bool)
      requires Valid()
      modifies this, stream.CacheParts()
      ensures stream.Valid() && stream.Log() == old(stream.Log()) && curOffset == old(curOffset) + if ok then size else 0
      ensures fault <==> old(stream.Faults(curOffset, size))
      ensures size > 0 ==> (ok <==> old(curOffset) + size <= |stream.writeBuf.file.bytes|)
      ensures size <= |old(Unread())| ==> Valid() && Unread() == old(Unread())[size..] && !fault
      ensures 0 < size <= |old(Unread())| ==> ok && dest == old(Unread())[..size]
    {
      UnreadTaken(stream.Log(), curOffset, size);
      ok, dest, fault := Fetch(size);
      curOffset := if ok then curOffset + size else curOffset;
    }

    /** The copy at the cursor. */
    method Fetch(size: nat) returns (ok: bool, dest: seq<Byte>, fault: bool)
      requires Valid()
      modifies stream.CacheParts()
      ensures stream.Valid() && stream.Log() == old(stream.Log())
      ensures fault <==> old(stream.Faults(curOffset, size))
      ensures size > 0 ==> (ok <==> curOffset + size <= |stream.writeBuf.file.bytes|)
      ensures curOffset + size <= stream.available ==> stream.Floor() <= curOffset + size && !fault
      ensures 0 < size && curOffset + size <= stream.available ==> ok && dest == stream.Log()[curOffset..curOffset + size]
    {
      stream.Bounds();
      ok, dest, fault := stream.Pop(curOffset, size);
      stream.Bounds();
    }

    /** Copies from an absolute offset without consuming; what was consumed can be copied again while it is cached. */
    method PopAt(offset: nat, size: nat) returns (ok: bool, dest: seq<Byte>, fault: bool)
      requires Valid()
      modifies stream.CacheParts()
      ensures stream.Valid() && stream.Log() == old(stream.Log())
      ensures fault <==> old(stream.Faults(offset, size))
      ensures old(stream.Floor()) <= offset && size > 0 ==> (ok <==> offset + size <= |stream.writeBuf.file.bytes|)
      ensures old(stream.Floor()) <= offset && ok ==> dest == View(stream.writeBuf.file.bytes, offset, size)
      ensures old(stream.Floor()) <= offset && 0 < size && offset + size <= curOffset ==>
                Valid() && ok && !fault && dest == stream.Log()[offset..offset + size]
    {
      stream.Bounds();
      ok, dest, fault := stream.Pop(offset, size);
      stream.Bounds();
    }

    method Skip(size: nat) returns (ok: bool)
      requires Valid()
      modifies this
      ensures Valid() && ok == (size <= |old(Unread())|)
      ensures curOffset == old(curOffset) + if ok then size else 0
      ensures Unread() == if ok then old(Unread())[size..] else old(Unread())
    {
      ok := size <= Available();
      if ok { curOffset := curOffset + size; }
    }

    /** Steps back over bytes that can still be read. */
    method Backup(size: nat) returns (ok: bool)
      requires Valid()
      modifies this
      ensures stream.Valid() && ok == (size <= old(curOffset))
      ensures curOffset == old(curOffset) - if ok then size else 0
      ensures Valid() <==> !ok || stream.Floor() <= old(curOffset) - size
      ensures Valid() && ok ==> Unread() == stream.Log()[curOffset..old(curOffset)] + old(Unread())
    {
      ok := size <= curOffset;
      if ok { curOffset := curOffset - size; }
    }

    method Push(data: seq<Byte>) returns (r: int)
      requires Valid()
      modifies stream.Parts()
      ensures Valid() && r == 0
      ensures stream.Log() == old(stream.Log()) + data && Unread() == old(Unread()) + data
    {
      r := stream.Push(data);
    }

    method Readv(reply: ReadReply<Byte>) returns (r: int)
      requires Valid() && (reply.Failed? ==> reply.code < 0) && (reply.Got? ==> |reply.bytes| <= stream.Room())
      modifies stream.Parts()
      ensures Valid()
      ensures r == if reply.Failed? then reply.code else |reply.bytes|
      ensures stream.Log() == old(stream.Log()) + (if reply.Got? then reply.bytes else [])
      ensures Unread() == old(Unread()) + (if reply.Got? then reply.bytes else [])
    {
      r := stream.Readv(reply);
    }

    /**
      Unmasks bytes of the file at an absolute offset, or faults at the first of them when pages are
      read-only; what is unread stays as it is when they were consumed before.
     */
    method Unmask(offset: nat, len: nat, mask: seq<Byte>) returns (ok: bool, fault: bool)
      requires Valid() && mask != [] && stream.Floor() <= offset
      modifies stream.CacheParts(), stream.writeBuf.file
      ensures Valid() && (fault <==> stream.ReadOnly() && len > 0 && offset < stream.Reach())
      ensures len > 0 ==> (ok <==> !fault && offset + len <= stream.Reach())
      ensures ok || len == 0 ==> stream.Log() == Masked(old(stream.Log()), offset, len, mask, 0)
      ensures fault ==> stream.Log() == old(stream.Log())
      ensures |stream.Log()| == |old(stream.Log())|
      ensures forall i :: 0 <= i < |stream.Log()| ==>
                stream.Log()[i] == if !stream.ReadOnly() && offset <= i < offset + len then old(stream.Log())[i] ^ mask[(i - offset) % |mask|] else old(stream.Log())[i]
      ensures offset + len <= curOffset ==> (fault <==> stream.ReadOnly() && len > 0) && (ok || len == 0 || fault) && Unread() == old(Unread())
    {
      stream.Bounds();
      ghost var bytes, a := stream.writeBuf.file.bytes, stream.available;
      ok, fault := stream.Unmask(offset, len, mask);
      MaskedNothing(bytes, offset, mask);
      MaskedPrefix(bytes, a, offset, len, mask, curOffset);
    }

    /** Sends unread bytes; `accepted` is what the descriptor took. */
    method Writev(size: nat, accepted: int) returns (r: int, sent: seq<Byte>)
      requires Valid() && stream.cache.Lru? && size <= Available() && accepted <= stream.Offered(curOffset, size)
      modifies this, stream.CacheParts()
      ensures Valid() && r == accepted && |sent| == if r > 0 then r else 0
      ensures old(Unread()) == sent + Unread() && stream.Log() == old(stream.Log())
    {
      ghost var log := stream.Log();
      r, sent := stream.WritevWritten(curOffset, size, accepted);
      if r > 0 { curOffset := curOffset + r; }
      stream.Bounds();
      assert sent == log[curOffset - |sent|..curOffset];
    }

    /** Forgets what is unread. */
    method ResetPosition()
      requires Valid()
      modifies this
      ensures Valid() && Unread() == []
    {
      stream.Bounds();
      curOffset := stream.available;
    }
  }

  /** The cursors of a fan-out log: `None` is the source's UINT64_MAX, a descriptor not registered. */
  class MultiPositionedStreamLog {
    const stream: LogRWStream
    var curOffsets: seq<Option<nat>>
    ghost var origin: seq<nat>         // where each descriptor's cursor was last put
    ghost var handed: seq<seq<Byte>>   // what each descriptor has been sent since then

    constructor (stream: LogRWStream)
      requires stream.Valid() && stream.cache.Lru?
      ensures Valid() && this.stream == stream && curOffsets == []
    {
      this.stream := stream;
      curOffsets, origin, handed := [], [], [];
    }

    ghost function Parts(): (s: set<object>) { {this} + stream.Parts() }

    /** Each descriptor has been sent exactly the bytes between where it started and where it is. */
    ghost predicate Valid()
      reads Parts()
    {
      true == (
        && stream.Valid() && stream.cache.Lru?
        && |origin| == |handed| == |curOffsets|
        && forall fd :: 0 <= fd < |curOffsets| ==> UpToDate(stream.Log(), curOffsets[fd], origin[fd], handed[fd]))
    }

    function Available(fd: nat): (n: nat)
      requires Valid()
      reads Parts()
    {
      if fd >= |curOffsets| then 0
      else if curOffsets[fd].None? then 0
      else assert UpToDate(stream.Log(), curOffsets[fd], origin[fd], handed[fd]); stream.available - curOffsets[fd].value
    }

    method Register(fd: nat, offset: nat)
      requires Valid() && offset <= stream.available
      requires fd < |curOffsets| ==> curOffsets[fd] == None
      modifies this
      ensures Valid() && |curOffsets| == if fd < |old(curOffsets)| then |old(curOffsets)| else fd + 1
      ensures curOffsets[fd] == Some(offset) && origin[fd] == offset && handed[fd] == []
      ensures OthersKept(old(curOffsets), old(handed), fd)
    {
      if fd + 1 > |curOffsets| {
        ghost var n := fd + 1 - |curOffsets|;
        curOffsets := curOffsets + seq(fd + 1 - |curOffsets|, _ => None);
        origin, handed := origin + seq(n, _ => 0), handed + seq(n, _ => []);
      }
      curOffsets, origin, handed := curOffsets[fd := Some(offset)], origin[fd := offset], handed[fd := []];
    }

    method Mark(fd: nat, offset: nat) returns (ok: bool)
      requires Valid() && offset <= stream.available
      modifies this
      ensures Valid() && ok == (fd < |old(curOffsets)|) && |curOffsets| == |old(curOffsets)|
      ensures ok ==> curOffsets[fd] == Some(offset) && origin[fd] == offset && handed[fd] == []
      ensures OthersKept(old(curOffsets), old(handed), fd)
    {
      if fd < |curOffsets| {
        curOffsets, origin, handed := curOffsets[fd := Some(offset)], origin[fd := offset], handed[fd := []];
        return true;
      }
      ok := false;
    }

    method MarkEnd(fd: nat) returns (ok: bool)
      requires Valid()
      modifies this
      ensures Valid() && ok == (fd < |old(curOffsets)|) && |curOffsets| == |old(curOffsets)|
      ensures ok ==> curOffsets[fd] == Some(stream.available) && handed[fd] == []
      ensures OthersKept(old(curOffsets), old(handed), fd)
    {
      ok := Mark(fd, stream.available);
    }

    method Unregister(fd: nat) returns (r: int)
      requires Valid()
      modifies this
      ensures Valid() && |curOffsets| == |old(curOffsets)|
      ensures r == if fd < |curOffsets| then 0 else -3
      ensures r == 0 ==> curOffsets[fd] == None
      ensures OthersKept(old(curOffsets), old(handed), fd)
    {
      if fd >= |curOffsets| { return -3; }
      curOffsets := curOffsets[fd := None];
      r := 0;
    }

    /** Every cursor but the one of `fd`, and what was sent to it, is as before. */
    ghost predicate OthersKept(offsets: seq<Option<nat>>, sent: seq<seq<Byte>>, fd: nat)
      reads this
    {
      forall g :: 0 <= g < |offsets| && g != fd ==>
        g < |curOffsets| && g < |handed| && g < |sent| && curOffsets[g] == offsets[g] && handed[g] == sent[g]
    }

    method Push(data: seq<Byte>) returns (r: int)
      requires Valid()
      modifies stream.Parts()
      ensures Valid() && r == 0 && stream.Log() == old(stream.Log()) + data
    {
      ghost var log := stream.Log();
      r := stream.Push(data);
      forall fd | 0 <= fd < |curOffsets|
        ensures UpToDate(stream.Log(), curOffsets[fd], origin[fd], handed[fd])
      {
        StillUpToDate(log, data, curOffsets[fd], origin[fd], handed[fd]);
      }
    }

    /** Sends up to `size` bytes at the cursor of `fd`; `accepted` is what the descriptor took. */
    method Writev(size: nat, fd: nat, accepted: int) returns (r: int, sent: seq<Byte>)
      requires Valid() && size <= Available(fd)
      requires accepted <= if fd < |curOffsets| && curOffsets[fd].Some? then stream.Offered(curOffsets[fd].value, size) else 0
      modifies this, stream.CacheParts()
      ensures Valid() && stream.Log() == old(stream.Log()) && |curOffsets| == |old(curOffsets)|
      ensures r == if fd >= |curOffsets| then -3 else if old(curOffsets)[fd].None? then 0 else accepted
      ensures |sent| == if r > 0 then r else 0
      ensures fd < |curOffsets| ==> origin[fd] == old(origin)[fd] && handed[fd] == old(handed)[fd] + sent
      ensures fd < |curOffsets| && curOffsets[fd].Some? ==> old(curOffsets)[fd].Some? && curOffsets[fd].value == old(curOffsets)[fd].value + |sent|
      ensures OthersKept(old(curOffsets), old(handed), fd)
    {
      sent := [];
      if fd >= |curOffsets| { return -3, sent; }
      if curOffsets[fd].None? { return 0, sent; }
      r, sent := Send(size, fd, accepted);
    }

    method Send(size: nat, fd: nat, accepted: int) returns (r: int, sent: seq<Byte>)
      requires Valid() && fd < |curOffsets| && curOffsets[fd].Some? && size <= Available(fd)
      requires accepted <= stream.Offered(curOffsets[fd].value, size)
      modifies this, stream.CacheParts()
      ensures Valid() && stream.Log() == old(stream.Log())
      ensures r == accepted && |sent| == if r > 0 then r else 0
      ensures curOffsets == old(curOffsets)[fd := Some(old(curOffsets)[fd].value + |sent|)]
      ensures origin == old(origin) && handed == old(handed)[fd := old(handed)[fd] + sent]
    {
      ghost var log := stream.Log();
      var cur := curOffsets[fd].value;
      assert UpToDate(log, curOffsets[fd], origin[fd], handed[fd]);
      r, sent := stream.WritevWritten(cur, size, accepted);
      OneSent(log, curOffsets, origin, handed, fd, sent);
      curOffsets := curOffsets[fd := Some(if r > 0 then cur + r else cur)];
      handed := handed[fd := handed[fd] + sent];
    }
  }

  /** A registered descriptor has been sent the log from its origin to its cursor. */
  ghost predicate UpToDate(log: seq<Byte>, cur: Option<nat>, origin: nat, handed: seq<Byte>)
  {
    cur.Some? ==> origin <= cur.value <= |log| && handed == log[origin..cur.value]
  }

  lemma StillUpToDate(log: seq<Byte>, more: seq<Byte>, cur: Option<nat>, origin: nat, handed: seq<Byte>)
    requires UpToDate(log, cur, origin, handed)
    ensures UpToDate(log + more, cur, origin, handed)
  {
    if cur.Some? { assert (log + more)[origin..cur.value] == log[origin..cur.value]; }
  }

  lemma SentOn(log: seq<Byte>, cur: nat, origin: nat, handed: seq<Byte>, sent: seq<Byte>)
    requires UpToDate(log, Some(cur), origin, handed) && cur + |sent| <= |log| && sent == log[cur..cur + |sent|]
    ensures UpToDate(log, Some(cur + |sent|), origin, handed + sent)
  {
  }

  /** One descriptor is sent bytes and its cursor goes on; the others stay as they are. */
  lemma OneSent(log: seq<Byte>, cs: seq<Option<nat>>, os: seq<nat>, hs: seq<seq<Byte>>, fd: nat, sent: seq<Byte>)
    requires |os| == |hs| == |cs| && fd < |cs| && cs[fd].Some?
    requires forall g :: 0 <= g < |cs| ==> UpToDate(log, cs[g], os[g], hs[g])
    requires var cur := cs[fd].value; cur + |sent| <= |log| && sent == log[cur..cur + |sent|]
    ensures var cs', hs' := cs[fd := Some(cs[fd].value + |sent|)], hs[fd := hs[fd] + sent];
            forall g :: 0 <= g < |cs'| ==> UpToDate(log, cs'[g], os[g], hs'[g])
  {
    SentOn(log, cs[fd].value, os[fd], hs[fd], sent);
  }

  /** The first bytes behind a cursor, and what is left behind them. */
  lemma UnreadTaken(log: seq<Byte>, cur: nat, size: nat)
    ensures cur + size <= |log| ==> log[cur..][size..] == log[cur + size..] && log[cur..][..size] == log[cur..cur + size]
  {
  }

  /** Masking in the file masks its written prefix, and leaves what lies behind `end` alone when it ends there. */
  lemma MaskedPrefix(bytes: seq<Byte>, a: nat, from: nat, n: nat, mask: seq<Byte>, end: nat)
    requires mask != [] && end <= a <= |bytes|
    ensures Masked(bytes, from, n, mask, 0)[..a] == Masked(bytes[..a], from, n, mask, 0)
    ensures from + n <= end ==> Masked(bytes, from, n, mask, 0)[..a][end..] == bytes[..a][end..]
  {
  }
}
