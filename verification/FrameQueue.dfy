/**
  Frames as they are queued (src/main/http/websocket.h:286-341, 434-438) and read back.
 */
module FrameQueue {
  import opened Sequences
  import opened Words
  import opened BipBuffer
  import opened Framing

  datatype Frame = Frame(code: Byte, masked: bool, mask: seq<Byte>, payload: seq<Byte>)

  /** A whole frame: header, mask, masked payload. */
  function FrameBytes(f: Frame): (s: seq<Byte>)
    requires f.masked ==> f.mask != []
  {
    HeadBytes(f.code, f.masked, |f.payload|) + if f.masked then f.mask + Xor(f.payload, f.mask) else f.payload
  }

  /** The free cells that `WriteFrame` asks for: four more than the frame when there is no mask, none for the mask when there is one. */
  function Asked(f: Frame): nat { |HeadBytes(f.code, f.masked, |f.payload|)| + |f.payload| + if f.masked then 0 else 4 }

  /** What is pushed behind the header when `free` cells are left: the mask if it fits, and the payload as far as it does. */
  function Behind(f: Frame, free: nat): (s: seq<Byte>)
    requires f.masked ==> |f.mask| == WS_MASK_LEN
  {
    if !f.masked then f.payload
    else
      var mask := if WS_MASK_LEN <= free then f.mask else [];
      mask + Prefix(Xor(f.payload, f.mask), free - |mask|)
  }

  /** What `Queue` adds to a buffer with `free` cells; None when it refuses. */
  function Queued(f: Frame, free: nat): (s: Option<seq<Byte>>)
    requires f.masked ==> |f.mask| == WS_MASK_LEN
  {
    var head := HeadBytes(f.code, f.masked, |f.payload|);
    if free < Asked(f) then None else Some(head + Behind(f, free - |head|))
  }

  /** A frame is queued whole exactly when it fits, with four cells to spare if it has no mask. */
  lemma QueuedWholeExactlyWhen(f: Frame, free: nat)
    requires f.masked ==> |f.mask| == WS_MASK_LEN
    ensures Queued(f, free) == Some(FrameBytes(f)) <==> |FrameBytes(f)| + (if f.masked then 0 else 4) <= free
  {
    if f.masked && Queued(f, free).Some? {
      var head, x := HeadBytes(f.code, true, |f.payload|), Xor(f.payload, f.mask);
      if |FrameBytes(f)| <= free {
        assert head + f.mask + x == head + (f.mask + x);
      } else {
        assert |Queued(f, free).value| <= free;
      }
    }
  }

  /** A masked frame that is up to four cells too long is cut instead of refused. */
  lemma CutExactlyWhen(f: Frame, free: nat)
    requires f.masked ==> |f.mask| == WS_MASK_LEN
    ensures Queued(f, free).Some? && Queued(f, free).value != FrameBytes(f) <==>
            f.masked && |FrameBytes(f)| - WS_MASK_LEN <= free < |FrameBytes(f)|
  {
    QueuedWholeExactlyWhen(f, free);
  }

  /**
    What is queued of a frame that is cut: its first bytes when the mask fits behind the header, and
    otherwise the header and the masked payload without the mask.
   */
  lemma {:induction false} CutLeaves(f: Frame, free: nat)
    requires f.masked && |f.mask| == WS_MASK_LEN && |FrameBytes(f)| - WS_MASK_LEN <= free < |FrameBytes(f)|
    ensures var head := HeadBytes(f.code, true, |f.payload|);
            && |head| <= free && Queued(f, free).Some?
            && (|head| + WS_MASK_LEN <= free ==> Queued(f, free).value == FrameBytes(f)[..free])
            && (free < |head| + WS_MASK_LEN ==>
                  && |f.payload| < 4 && Queued(f, free).value[..|head|] == head
                  && |Queued(f, free).value| == |head| + |f.payload|
                  && forall k :: 0 <= k < |f.payload| ==> Queued(f, free).value[|head| + k] == f.payload[k] ^ f.mask[k % 4])
  {
    var head, x := HeadBytes(f.code, true, |f.payload|), Xor(f.payload, f.mask);
    if |head| + WS_MASK_LEN <= free {
      assert head + (f.mask + x[..free - |head| - WS_MASK_LEN]) == (head + (f.mask + x))[..free];
    } else {
      assert [] + Prefix(x, free - |head|) == x;
    }
  }

  /** The write side of a connection; the free cells are counted in 32 bits. */
  class Outbox {
    const writeBuf: BipBuf<Byte>
    const masked: bool
    const mask: seq<Byte>

    constructor (writeBuf: BipBuf<Byte>, masked: bool, mask: seq<Byte>)
      requires |mask| == WS_MASK_LEN && writeBuf.Valid() && writeBuf.Tight() && writeBuf.data.Length < UINT32_RANGE
      ensures Valid() && this.writeBuf == writeBuf && this.masked == masked && this.mask == mask
    {
      this.writeBuf, this.masked, this.mask := writeBuf, masked, mask;
    }

    ghost predicate Valid()
      reads this, writeBuf
    {
      true == (|mask| == WS_MASK_LEN && writeBuf.Valid() && writeBuf.Tight() && writeBuf.data.Length < UINT32_RANGE)
    }

    /** A header, if its frame passes the test for free cells, whose sum fits in 64 bits. */
    method WriteFrame(code: Byte, len: nat) returns (ok: bool, ghost h: seq<Byte>)
      requires Valid() && len + 14 < Pow256(8)
      modifies writeBuf, writeBuf.data
      ensures Valid()
      ensures ok <==> old(writeBuf.Free()) >= |HeadBytes(code, masked, len)| + len + if masked then 0 else 4
      ensures writeBuf.Contents() == old(writeBuf.Contents()) + if ok then h else []
      ensures h == HeadBytes(code, masked, len) && WrittenAs(h, code, masked, len)
    {
      var hdr, ext;
      ok, hdr, ext := MakeHeader(writeBuf.Free(), code, len);
      if ok { PushHeader(hdr, ext); }
      h := HeadBytes(code, masked, len);
      HeadSpelled(code, masked, len);
    }

    /** A header, and whether its frame passes the test for free cells. */
    method MakeHeader(freeSpace: nat, code: Byte, len: nat) returns (ok: bool, hdr: seq<Byte>, ext: seq<Byte>)
      requires len + 14 < Pow256(8)
      ensures hdr != [] && hdr + ext == HeadBytes(code, masked, len)
      ensures ok <==> freeSpace >= |hdr + ext| + len + if masked then 0 else 4
    {
      var spare := if masked then 0 else 4;
      var first, bit: Byte := 0x80 | (0x0F & code), if masked then 0x80 else 0;
      if len <= 125 {
        ok := freeSpace >= 2 + len + spare;
        hdr, ext := [first, (0x7F & ToByte(len)) | bit], [];
      } else if len < UINT16_MAX {
        ok := freeSpace >= 4 + len + spare;
        hdr, ext := [first, (0x7F & WS_PAYLOAD_16) | bit], BigEndian(len, 2);
      } else {
        ok := freeSpace >= 10 + len + spare;
        hdr, ext := [first, (0x7F & WS_PAYLOAD_64) | bit], BigEndian(len, 8);
      }
    }

    method PushHeader(hdr: seq<Byte>, ext: seq<Byte>)
      requires Valid() && hdr != [] && |hdr| + |ext| <= writeBuf.Free()
      modifies writeBuf, writeBuf.data
      ensures Valid() && writeBuf.Contents() == old(writeBuf.Contents()) + (hdr + ext)
    {
      ghost var q := writeBuf.Contents();
      var _ := writeBuf.PushAll(hdr);
      if ext != [] { var _ := writeBuf.PushAll(ext); }
      Regroup(q, hdr, ext);
    }

    /** Pushes the masked payload byte by byte, as far as there is room. */
    method PushMask(data: seq<Byte>)
      requires Valid()
      modifies writeBuf, writeBuf.data
      ensures Valid()
      ensures writeBuf.Contents() == old(writeBuf.Contents()) + Prefix(Xor(data, mask), old(writeBuf.Free()))
      ensures var q, n := old(writeBuf.Contents()), Min(|data|, old(writeBuf.Free()));
              && |writeBuf.Contents()| == |q| + n && writeBuf.Contents()[..|q|] == q
              && forall k :: 0 <= k < n ==> writeBuf.Contents()[|q| + k] == data[k] ^ mask[k % 4]
    {
      ghost var q, free := writeBuf.Contents(), writeBuf.Free();
      PushXor(data);
      MaskPushed(q, writeBuf.Contents(), data, mask, free);
    }

    /** The loop of `PushMask`. */
    method PushXor(data: seq<Byte>)
      requires Valid()
      modifies writeBuf, writeBuf.data
      ensures Valid()
      ensures writeBuf.Contents() == old(writeBuf.Contents()) + Prefix(Xor(data, mask), old(writeBuf.Free()))
    {
      var i := 0;
      ghost var q, x, free := writeBuf.Contents(), Xor(data, mask), writeBuf.Free();
      while i < |data|
        invariant i <= |data| && Valid()
        invariant writeBuf.Contents() == q + Prefix(x[..i], free)
      {
        var _ := writeBuf.Push(data[i] ^ mask[i % WS_MASK_LEN]);
        FitsMore(q, x, i, free);
        i := i + 1;
      }
      assert x[..i] == x;
    }

    /**
      Queues a frame; false, with nothing queued, when the connection is not open or the test for
      free cells fails.  True is also the request for EPOLLOUT.
     */
    method Queue(state: State, code: Byte, data: seq<Byte>) returns (ok: bool)
      requires Valid() && |data| + 14 < Pow256(8)
      modifies writeBuf, writeBuf.data
      ensures Valid()
      ensures var s := if state.Open? || state.OpenData? then Queued(Frame(code, masked, mask, data), old(writeBuf.Free())) else None;
              ok == s.Some? && writeBuf.Contents() == old(writeBuf.Contents()) + if ok then s.value else []
    {
      ok := false;
      if state.Open? || state.OpenData? { ok := QueueOpen(code, data); }
    }

    method QueueOpen(code: Byte, data: seq<Byte>) returns (ok: bool)
      requires Valid() && |data| + 14 < Pow256(8)
      modifies writeBuf, writeBuf.data
      ensures Valid()
      ensures var s := Queued(Frame(code, masked, mask, data), old(writeBuf.Free()));
              ok == s.Some? && writeBuf.Contents() == old(writeBuf.Contents()) + if ok then s.value else []
    {
      ghost var q := writeBuf.Contents();
      ghost var head;
      ok, head := WriteFrame(code, |data|);
      if ok {
        ghost var free := writeBuf.Free();
        QueuePayload(data, code);
        Regroup(q, head, Behind(Frame(code, masked, mask, data), free));
      }
    }

    /** The payload behind a header, or the mask and the masked payload. */
    method QueuePayload(data: seq<Byte>, ghost code: Byte)
      requires Valid() && (masked || |data| <= writeBuf.Free())
      modifies writeBuf, writeBuf.data
      ensures Valid() && writeBuf.Contents() == old(writeBuf.Contents()) + Behind(Frame(code, masked, mask, data), old(writeBuf.Free()))
    {
      if masked { QueueMasked(data); } else { var _ := writeBuf.PushAll(data); }
    }

    method QueueMasked(data: seq<Byte>)
      requires Valid()
      modifies writeBuf, writeBuf.data
      ensures Valid()
      ensures var m := if WS_MASK_LEN <= old(writeBuf.Free()) then mask else [];
              writeBuf.Contents() == old(writeBuf.Contents()) + (m + Prefix(Xor(data, mask), old(writeBuf.Free()) - |m|))
    {
      ghost var q := writeBuf.Contents();
      var ok := writeBuf.PushAll(mask);
      ghost var m := if ok then mask else [];
      ghost var free := writeBuf.Free();
      assert writeBuf.Contents() == q + m;
      PushMask(data);
      Regroup(q, m, Prefix(Xor(data, mask), free));
    }
  }

  /** Which byte of the mask meets which byte of the payload. */
  lemma MaskPushed(q: seq<Byte>, c: seq<Byte>, data: seq<Byte>, mask: seq<Byte>, free: nat)
    requires |mask| == WS_MASK_LEN && c == q + Prefix(Xor(data, mask), free)
    ensures var n := Min(|data|, free);
            |c| == |q| + n && c[..|q|] == q && forall k :: 0 <= k < n ==> c[|q| + k] == data[k] ^ mask[k % 4]
  {
  }

  lemma FitsMore(q: seq<Byte>, x: seq<Byte>, i: nat, free: nat)
    requires i < |x|
    ensures q + Prefix(x[..i + 1], free) == if i < free then q + Prefix(x[..i], free) + [x[i]] else q + Prefix(x[..i], free)
  {
  }

  // ----- reading back -----

  /** What the reader gets right: masks only on texts and pings of at most 125 bytes. */
  predicate Readable(f: Frame)
  {
    true == (
      && 0x0F & f.code == f.code && |f.payload| < Pow256(8)
      && (f.masked ==> |f.mask| == WS_MASK_LEN && |f.payload| <= 125 && (f.code == WS_OP_TEXT_FRAME || f.code == WS_OP_PING)))
  }

  ghost predicate AllReadable(fs: seq<Frame>) { true == (forall i :: 0 <= i < |fs| ==> Readable(fs[i])) }

  function Wire(fs: seq<Frame>): (s: seq<Byte>)
    requires AllReadable(fs)
  {
    if fs == [] then [] else FrameBytes(fs[0]) + Wire(fs[1..])
  }

  /** An opcode, a payload, and whether it came with a mask. */
  type Content = (Byte, seq<Byte>, bool)

  /** What is sent, up to and including the first close. */
  function Sent(fs: seq<Frame>): seq<Content>
  {
    if fs == [] then []
    else [(fs[0].code, fs[0].payload, fs[0].masked)] + if fs[0].code == WS_OP_CLOSE then [] else Sent(fs[1..])
  }

  function Got(ms: seq<Message>): seq<Content>
  {
    if ms == [] then [] else [(ms[0].opcode, ms[0].payload, ms[0].unmasked)] + Got(ms[1..])
  }

  /** The frames that a reader gets to: with read-only pages those before the first masked one with a payload. */
  function Reached(fs: seq<Frame>, readOnly: bool): (s: seq<Frame>)
    ensures s <= fs
  {
    if fs == [] || (readOnly && fs[0].masked && fs[0].payload != []) then [] else [fs[0]] + Reached(fs[1..], readOnly)
  }

  /** The messages that can be handled are those of the frames that a reader gets to. */
  lemma {:induction false} SparedAreReached(ms: seq<Message>, fs: seq<Frame>, readOnly: bool)
    requires Got(ms) == Sent(fs)
    ensures Got(Spared(ms, readOnly)) == Sent(Reached(fs, readOnly))
  {
    if ms != [] && fs != [] {
      var later := if fs[0].code == WS_OP_CLOSE then [] else fs[1..];
      assert Got(ms)[1..] == Got(ms[1..]) && Sent(fs)[1..] == Sent(later);
      SparedAreReached(ms[1..], later, readOnly);
    }
  }

  lemma {:induction false} GotAll(ms: seq<Message>)
    ensures |Got(ms)| == |ms|
    ensures forall i :: 0 <= i < |ms| ==> Got(ms)[i] == (ms[i].opcode, ms[i].payload, ms[i].unmasked)
  {
    if ms != [] {
      GotAll(ms[1..]);
      assert forall i :: 0 < i < |ms| ==> ms[i] == ms[1..][i - 1];
    }
  }

  /** What is sent are the frames themselves, up to and including the first close. */
  lemma {:induction false} SentAre(fs: seq<Frame>)
    ensures |Sent(fs)| <= |fs| && forall i :: 0 <= i < |Sent(fs)| ==> Sent(fs)[i] == (fs[i].code, fs[i].payload, fs[i].masked)
    ensures forall i :: 0 <= i < |Sent(fs)| - 1 ==> fs[i].code != 0x8
    ensures |Sent(fs)| < |fs| ==> |Sent(fs)| > 0 && fs[|Sent(fs)| - 1].code == 0x8
  {
    if fs != [] && fs[0].code != WS_OP_CLOSE {
      SentAre(fs[1..]);
      assert forall i :: 0 < i < |fs| ==> fs[i] == fs[1..][i - 1];
      assert forall i :: 0 < i < |Sent(fs)| ==> Sent(fs)[i] == Sent(fs[1..])[i - 1];
    }
  }

  /** The frames that are reached are the first ones; the next one, if any, is masked and has a payload. */
  lemma {:induction false} ReachedAre(fs: seq<Frame>, readOnly: bool)
    ensures var n := |Reached(fs, readOnly)|;
            && n <= |fs| && Reached(fs, readOnly) == fs[..n]
            && (readOnly ==> forall i :: 0 <= i < n ==> !fs[i].masked || fs[i].payload == [])
            && (n < |fs| ==> readOnly && fs[n].masked && fs[n].payload != [])
  {
    if fs != [] && !(readOnly && fs[0].masked && fs[0].payload != []) {
      ReachedAre(fs[1..], readOnly);
      assert forall i :: 0 < i < |fs| ==> fs[i] == fs[1..][i - 1];
      var n := |Reached(fs[1..], readOnly)|;
      assert fs[..n + 1] == [fs[0]] + fs[1..][..n];
    }
  }

  /** Messages that are the frames: those before the first that cannot be handled, up to and including the first close. */
  ghost predicate AreTheFrames(ms: seq<Message>, fs: seq<Frame>, readOnly: bool, fault: bool)
  {
    var n := |ms|;
    && n <= |fs|
    && (forall i :: 0 <= i < n ==> ms[i].opcode == fs[i].code && ms[i].payload == fs[i].payload && ms[i].unmasked == fs[i].masked)
    && (forall i :: 0 <= i < n - 1 ==> fs[i].code != 0x8)
    && (readOnly ==> forall i :: 0 <= i < n ==> !fs[i].masked || fs[i].payload == [])
    && (fault ==> readOnly && n < |fs| && fs[n].masked && fs[n].payload != [] && (n > 0 ==> fs[n - 1].code != 0x8))
    && (!fault && n < |fs| ==> n > 0 && fs[n - 1].code == 0x8)
  }

  lemma {:induction false} AllAreTheFrames(ms: seq<Message>, fs: seq<Frame>, readOnly: bool, fault: bool)
    requires Got(ms) == Sent(Reached(fs, readOnly)) && (fault <==> Got(ms) != Sent(fs))
    ensures AreTheFrames(ms, fs, readOnly, fault)
  {
    var r := Reached(fs, readOnly);
    GotAll(ms);
    SentAre(r);
    ReachedAre(fs, readOnly);
    if HasClose(r) { SameSent(fs, r); } else { MoreSent(fs, r); }
  }

  ghost predicate HasClose(fs: seq<Frame>) { exists i :: 0 <= i < |fs| && fs[i].code == 0x8 }

  /** With a close among the first frames nothing after them is sent, and the last frame sent is a close. */
  lemma {:induction false} SameSent(fs: seq<Frame>, r: seq<Frame>)
    requires r <= fs && HasClose(r)
    ensures Sent(fs) == Sent(r) && 0 < |Sent(r)| <= |r| && r[|Sent(r)| - 1].code == 0x8
  {
    var i :| 0 <= i < |r| && r[i].code == 0x8;
    if r[0].code != 0x8 {
      assert r[1..][i - 1].code == 0x8;
      SameSent(fs[1..], r[1..]);
    }
  }

  /** Without one all of them are sent, and the same as of the whole only if they are all. */
  lemma {:induction false} MoreSent(fs: seq<Frame>, r: seq<Frame>)
    requires r <= fs && !HasClose(r)
    ensures |Sent(r)| == |r| && (Sent(fs) == Sent(r) <==> |r| == |fs|)
  {
    SentAre(r);
    SentAre(fs);
    if |r| == |fs| { assert r == fs; }
  }

  lemma HeadBack(f: Frame, rest: seq<Byte>)
    requires Readable(f)
    ensures var h := HeadBytes(f.code, f.masked, |f.payload|);
            ReadHead(FrameBytes(f) + rest, 0)
            == Some(Head(f.code, f.masked, if f.masked then f.mask else [], |h| + if f.masked then WS_MASK_LEN else 0, |f.payload|))
  {
    var h := HeadBytes(f.code, f.masked, |f.payload|);
    if f.masked {
      var x := Xor(f.payload, f.mask);
      assert FrameBytes(f) + rest == h + f.mask + (x + rest);
      ShortMasked(f.code, |f.payload|, f.mask, x + rest);
    } else {
      assert FrameBytes(f) + rest == h + (f.payload + rest);
      UnmaskedRoundTrip(f.code, |f.payload|, f.payload + rest);
    }
  }

  /** The same behind other bytes. */
  lemma HeadBehind(pre: seq<Byte>, f: Frame, rest: seq<Byte>)
    requires Readable(f)
    ensures var h := HeadBytes(f.code, f.masked, |f.payload|);
            ReadHead(pre + FrameBytes(f) + rest, |pre|)
            == Some(Head(f.code, f.masked, if f.masked then f.mask else [], |pre| + |h| + (if f.masked then WS_MASK_LEN else 0), |f.payload|))
  {
    var u, raw := FrameBytes(f) + rest, pre + FrameBytes(f) + rest;
    assert raw[|pre|..] == u && u[0..] == u;
    HeadBack(f, rest);
    HeadFields(u, 0, u);
    HeadFields(raw, |pre|, u);
  }

  lemma PayloadBack(pre: seq<Byte>, f: Frame, rest: seq<Byte>) returns (h: Head)
    requires Readable(f)
    ensures var raw := pre + FrameBytes(f) + rest;
            && ReadHead(raw, |pre|) == Some(h) && h.at + h.len == |pre| + |FrameBytes(f)| && (h.masked ==> h.mask != [])
            && MessageOf(raw, h) == Message(f.code, h.at, f.payload, f.masked)
  {
    HeadBehind(pre, f, rest);
    var raw, n := pre + FrameBytes(f) + rest, |f.payload|;
    h := ReadHead(raw, |pre|).value;
    if f.masked {
      XorTwice(f.payload, f.mask);
      assert raw[h.at..h.at + n] == Xor(f.payload, f.mask);
    } else {
      assert raw[h.at..h.at + n] == f.payload;
    }
  }

  /** One frame is read back as its message, and reading goes on behind it unless it is a close. */
  lemma OneFrame(pre: seq<Byte>, f: Frame, rest: seq<Byte>, fs: seq<Frame>)
    requires Readable(f) && fs != [] && fs[0] == f && ReadBack(pre + FrameBytes(f) + rest, |pre + FrameBytes(f)|, fs[1..])
    ensures ReadBack(pre + FrameBytes(f) + rest, |pre|, fs)
  {
    var h := PayloadBack(pre, f, rest);
    GotFirst(pre + FrameBytes(f) + rest, |pre|, h, f, |pre + FrameBytes(f)|);
  }

  /** Frames written one after the other are read back as the same messages, up to the first close. */
  lemma {:induction false} WireRoundTrip(pre: seq<Byte>, fs: seq<Frame>)
    requires AllReadable(fs)
    ensures ReadBack(pre + Wire(fs), |pre|, fs)
    decreases |fs|
  {
    WireOf(pre, fs);
    if fs != [] {
      WireRoundTrip(pre + FrameBytes(fs[0]), fs[1..]);
      OneFrame(pre, fs[0], Wire(fs[1..]), fs);
    }
  }

  lemma WireOf(pre: seq<Byte>, fs: seq<Frame>)
    requires AllReadable(fs)
    ensures fs == [] ==> ReadBack(pre + Wire(fs), |pre|, fs)
    ensures fs != [] ==> AllReadable(fs[1..]) && pre + Wire(fs) == pre + FrameBytes(fs[0]) + Wire(fs[1..])
  {
  }

  /** The frames come back, from `at` on. */
  ghost predicate ReadBack(raw: seq<Byte>, at: nat, fs: seq<Frame>)
  {
    true == (Got(Messages(raw, at)) == Sent(fs))
  }

  lemma GotFirst(raw: seq<Byte>, at: nat, h: Head, f: Frame, end: nat)
    requires ReadHead(raw, at) == Some(h) && h.at + h.len == end <= |raw|
    requires MessageOf(raw, h) == Message(f.code, h.at, f.payload, f.masked)
    ensures Got(Messages(raw, at)) == [(f.code, f.payload, f.masked)] + if f.code == WS_OP_CLOSE then [] else Got(Messages(raw, end))
  {
    var ms, m := Messages(raw, at), MessageOf(raw, h);
    var later := if f.code == WS_OP_CLOSE then [] else Messages(raw, end);
    assert ms == AtPayload(raw, h);
    assert AtPayload(raw, h) == [m] + later;
    assert ms[0] == m && ms[1..] == later;
  }
}
