/**
  An open WebSocket connection (src/main/http/websocket.h:207-237, 318-341, 469-572,
  691-737): the incremental parser over the connection's stream, and the frames it queues.
 */
module WebSocket {
  import opened Sequences
  import opened Words
  import RWStream
  import opened Cursors
  import opened Framing

  /** The read side of a connection that was upgraded. */
  class Connection {
    const stream: PositionedStream
    var state: State
    var opcode: Byte
    var masked: bool
    var mask: seq<Byte>
    var len: nat
    ghost const base: nat                // where the connection's bytes begin in the log
    ghost var raw: seq<Byte>             // the log as it arrived, before any unmasking
    ghost var dispatched: seq<Message>   // what was handled so far

    constructor (stream: PositionedStream)
      requires stream.Valid()
      ensures Valid() && this.stream == stream && state.Open? && dispatched == []
      ensures base == stream.curOffset && raw == stream.stream.Log()
    {
      this.stream, state := stream, Open;
      opcode, masked, mask, len := 0, false, [], 0;
      base, raw, dispatched := stream.curOffset, stream.stream.Log(), [];
      Begins(stream.stream.Log(), Head(0, false, [], stream.curOffset, 0));
    }

    ghost function Parts(): (s: set<object>) { {this} + stream.Parts() }

    /** The header last read, or where the next one begins. */
    ghost function Current(): (h: Head)
      reads this, stream
    {
      Head(opcode, masked, if masked then mask else [], stream.curOffset, len)
    }

    /** What is unread is as it arrived. */
    ghost predicate InStep()
      reads Parts()
    {
      true == (
        && this !in stream.Parts() && stream.Valid() && (masked ==> mask != [])
        && |raw| == stream.stream.available && stream.Unread() == raw[stream.curOffset..])
    }

    /** The messages dispatched are those before what is unread, and their payloads lie in the log. */
    ghost predicate Valid()
      reads Parts()
    {
      true == (
        && InStep()
        && (ReadOnly() ==> NoneStores(dispatched)) && InLog(dispatched, stream.stream.Log(), stream.curOffset)
        && OnTrack(raw, base, dispatched, state, Current()))
    }

    /** The pages that the stream reads cannot be stored into. */
    predicate ReadOnly() { stream.stream.ReadOnly() }

    /**
      Where a fault left the connection: the next message must be unmasked in a read-only
      page, whatever arrives behind it.
     */
    ghost predicate Lost()
      reads this, stream.Parts()
    {
      true == (
        && stream.Valid() && ReadOnly() && InLog(dispatched, stream.stream.Log(), stream.curOffset)
        && StoreNext(raw, base, dispatched))
    }

    /** Nothing more can be dispatched for now. */
    ghost predicate Idle()
      reads Parts()
      requires Valid()
    {
      Coming(raw, state, Current()) == []
    }

    /** With `n` more bytes the next header can be found in a 32-bit count, once the payload waited for is taken. */
    ghost predicate Countable(n: nat)
      requires stream.Valid()
      reads this, stream.Parts()
    {
      && (state.Open? ==> stream.Available() + n < UINT32_RANGE)
      && (state.OpenData? ==> stream.Available() + n < len + UINT32_RANGE)
    }

    /** What waits is less than a header, or than the payload that is due. */
    ghost predicate Resting()
      requires stream.Valid()
      reads this, stream.Parts()
    {
      (state.Open? ==> stream.Available() < MAX_HEAD) && (state.OpenData? ==> stream.Available() < len)
    }

    /** A page more can be counted in 32 bits, now and whenever less than a header waits. */
    ghost predicate PageCounts()
      requires stream.Valid()
      reads this, stream.Parts()
    {
      Countable(stream.stream.pageSize) && stream.stream.pageSize + MAX_HEAD <= UINT32_RANGE
    }

    /** Takes bytes that are there. */
    method Take(n: nat) returns (bytes: seq<Byte>)
      requires stream.Valid() && 0 < n <= |stream.Unread()| && this !in stream.Parts()
      modifies stream, stream.stream.CacheParts()
      ensures stream.Valid() && stream.Unread() == old(stream.Unread())[n..] && bytes == old(stream.Unread())[..n]
      ensures stream.stream.Log() == old(stream.stream.Log()) && stream.curOffset == old(stream.curOffset) + n
    {
      var ok, fault;
      ok, bytes, fault := stream.Pop(n);
    }

    /** The first two bytes and, when there is one, the mask. */
    method ReadMask() returns (len7: Byte)
      requires stream.Valid() && this !in stream.Parts() && 2 <= |stream.Unread()| && Needed(stream.Unread()[1]) <= |stream.Unread()|
      modifies this`opcode, this`masked, this`mask, stream, stream.stream.CacheParts()
      ensures stream.Valid() && stream.stream.Log() == old(stream.stream.Log())
      ensures var u := old(stream.Unread());
              && opcode == u[0] & 0x0F && (masked <==> u[1] & 0x80 != 0) && (masked ==> mask == u[2..6])
              && var x := if masked then 6 else 2;
                 stream.curOffset == old(stream.curOffset) + x && stream.Unread() == u[x..] && len7 == 0x7F & u[1]
    {
      ghost var u := stream.Unread();
      var hdr := Take(2);
      opcode, masked, len7 := hdr[0] & 0x0F, hdr[1] & 0x80 != 0, 0x7F & hdr[1];
      if masked {
        mask := Take(WS_MASK_LEN);
        assert u[2..][..4] == u[2..6] && u[2..][4..] == u[6..];
      }
    }

    /** The length: in the header, or in the bytes that follow. */
    method ReadLength(len7: Byte)
      requires stream.Valid() && this !in stream.Parts() && ExtraLength(len7) <= |stream.Unread()|
      modifies this`len, stream, stream.stream.CacheParts()
      ensures stream.Valid() && stream.stream.Log() == old(stream.stream.Log())
      ensures var u, n := old(stream.Unread()), ExtraLength(len7);
              && stream.curOffset == old(stream.curOffset) + n && stream.Unread() == u[n..]
              && len == if n == 0 then FromByte(len7) else FromBigEndian(u[..n])
    {
      if len7 == WS_PAYLOAD_16 {
        var ext := Take(2);
        len := FromBigEndian(ext);
      } else if len7 == WS_PAYLOAD_64 {
        var ext := Take(8);
        len := FromBigEndian(ext);
      } else {
        len := FromByte(len7);
      }
    }

    /** Takes the fields of a header that is there, in the source's order: the mask before the extended length. */
    method ReadHeader()
      requires InStep() && Complete(stream.Unread())
      modifies this`state, this`opcode, this`masked, this`mask, this`len, stream, stream.stream.CacheParts()
      ensures InStep() && state.OpenData? && stream.stream.Log() == old(stream.stream.Log())
      ensures Current() == HeadIn(old(stream.Unread()), old(stream.curOffset))
      ensures ReadsAs(old(stream.Unread()), opcode, masked, if masked then mask else [], len, stream.curOffset - old(stream.curOffset))
      ensures stream.curOffset >= old(stream.curOffset) + 2
    {
      ghost var at := stream.curOffset;
      ReadFields();
      state := OpenData;
      assert raw[at..][stream.curOffset - at..] == raw[stream.curOffset..];
    }

    method ReadFields()
      requires stream.Valid() && this !in stream.Parts() && Complete(stream.Unread())
      modifies this`opcode, this`masked, this`mask, this`len, stream, stream.stream.CacheParts()
      ensures stream.Valid() && stream.stream.Log() == old(stream.stream.Log()) && stream.curOffset >= old(stream.curOffset) + 2
      ensures Current() == HeadIn(old(stream.Unread()), old(stream.curOffset)) && (masked ==> mask != [])
      ensures stream.Unread() == old(stream.Unread())[stream.curOffset - old(stream.curOffset)..]
      ensures ReadsAs(old(stream.Unread()), opcode, masked, if masked then mask else [], len, stream.curOffset - old(stream.curOffset))
    {
      ghost var u, at := stream.Unread(), stream.curOffset;
      var len7 := ReadMask();
      ghost var v := stream.Unread();
      ReadLength(len7);
      HeadOfParts(u, v, at, masked, mask, len);
    }

    /** A complete header is taken. */
    method OpenHeader()
      requires Valid() && state.Open? && Complete(stream.Unread())
      modifies this`state, this`opcode, this`masked, this`mask, this`len, stream, stream.stream.CacheParts()
      ensures Valid() && state.OpenData? && stream.curOffset >= old(stream.curOffset) + 2
      ensures ReadsAs(old(stream.Unread()), opcode, masked, if masked then mask else [], len, stream.curOffset - old(stream.curOffset))
      ensures stream.Available() <= old(stream.Available())
    {
      ghost var u, at, h := stream.Unread(), stream.curOffset, Current();
      HeadFields(raw, at, u);
      ReadHeader();
      HeadTaken(raw, base, dispatched, h, Current());
      InLogStays(dispatched, stream.stream.Log(), stream.stream.Log(), at, stream.curOffset);
    }

    /** The available bytes as a 32-bit count. */
    function Available32(): (avail: nat)
      requires stream.Valid()
      reads this, stream.Parts()
      ensures avail <= stream.Available() && (stream.Available() < UINT32_RANGE ==> avail == stream.Available())
    {
      stream.Available() % UINT32_RANGE
    }

    /** Reads a header when all of it is there: 1 when it is not, 2 when it is. */
    method DoOpen() returns (r: int)
      requires Valid() && state.Open?
      modifies this`state, this`opcode, this`masked, this`mask, this`len, stream, stream.stream.CacheParts()
      ensures Valid() && (r == 1 || r == 2)
      ensures r == 1 ==> state.Open? && stream.curOffset == old(stream.curOffset)
      ensures r == 1 && stream.Available() < UINT32_RANGE ==> Idle() && stream.Available() < MAX_HEAD
      ensures r == 2 <==> 2 <= old(Available32()) && Needed(old(stream.Unread())[1]) <= old(Available32())
      ensures r == 2 ==> state.OpenData? && stream.curOffset >= old(stream.curOffset) + 2 && stream.Available() <= old(stream.Available())
      ensures r == 2 ==> ReadsAs(old(stream.Unread()), opcode, masked, if masked then mask else [], len, stream.curOffset - old(stream.curOffset))
    {
      HeadFields(raw, stream.curOffset, stream.Unread());
      var avail := Available32();
      r := 1;
      if avail >= 2 {
        var ok, b := stream.Peak(1);
        if Needed(b) <= avail {
          OpenHeader();
          r := 2;
        }
      }
    }

    /** The cursor was moved past a payload that begins at `offset`. */
    ghost predicate Behind(offset: nat)
      reads Parts()
    {
      InStep() && offset + len == stream.curOffset
    }

    /** What the log has where the payload is. */
    ghost function PayloadAt(offset: nat): (s: seq<Byte>)
      requires Behind(offset)
      reads Parts()
    {
      stream.stream.Log()[offset..offset + len]
    }

    /** Moves the cursor past the payload; the payload is as it arrived. */
    method SkipPayload() returns (offset: nat)
      requires InStep() && len <= stream.Available()
      modifies stream
      ensures offset == old(stream.curOffset) && Behind(offset) && stream.stream.Floor() <= offset
      ensures stream.stream.Log() == old(stream.stream.Log()) && PayloadAt(offset) == raw[offset..offset + len]
    {
      offset := stream.curOffset;
      SliceOfRest(raw, offset, len);
      SliceOfRest(stream.stream.Log(), offset, len);
      var ok := stream.Skip(len);
    }

    /** Unmasks the payload where it lies. */
    method Unmask(offset: nat) returns (fault: bool)
      requires Behind(offset) && stream.stream.Floor() <= offset && mask != []
      modifies stream.stream.CacheParts(), stream.stream.writeBuf.file
      ensures Behind(offset) && (fault <==> ReadOnly() && len > 0)
      ensures |stream.stream.Log()| == |old(stream.stream.Log())|
      ensures forall i :: 0 <= i < |stream.stream.Log()| ==>
                stream.stream.Log()[i] == if !fault && offset <= i < offset + len then old(stream.stream.Log())[i] ^ mask[(i - offset) % |mask|]
                                          else old(stream.stream.Log())[i]
    {
      var ok;
      ok, fault := stream.Unmask(offset, len, mask);
    }

    /**
      Skips the payload and unmasks it when its opcode asks for that; or the fault of storing into
      a read-only page.
     */
    method TakePayload() returns (fault: bool)
      requires InStep() && len <= stream.Available()
      modifies stream, stream.stream.CacheParts(), stream.stream.writeBuf.file
      ensures InStep() && stream.curOffset == old(stream.curOffset) + len
      ensures fault <==> ReadOnly() && Unmasks(old(Current())) && len > 0
      ensures XoredAt(old(stream.stream.Log()), stream.stream.Log(), old(stream.curOffset), len, mask, Unmasks(old(Current())) && !fault)
    {
      var offset := SkipPayload();
      fault := UnmaskText(offset);
    }

    /** Unmasks the payload when its opcode asks for that. */
    method UnmaskText(offset: nat) returns (fault: bool)
      requires Behind(offset) && stream.stream.Floor() <= offset
      modifies stream.stream.CacheParts(), stream.stream.writeBuf.file
      ensures Behind(offset) && (fault <==> ReadOnly() && Unmasks(old(Current())) && len > 0)
      ensures XoredAt(old(stream.stream.Log()), stream.stream.Log(), offset, len, mask, Unmasks(old(Current())) && !fault)
    {
      fault := false;
      if masked && (opcode == WS_OP_TEXT_FRAME || opcode == WS_OP_PING) { fault := Unmask(offset); }
    }

    /** Handles a message. */
    method HandlePayload() returns (fault: bool)
      requires Valid() && state.OpenData? && len <= stream.Available()
      modifies this`state, this`dispatched, stream, stream.stream.CacheParts(), stream.stream.writeBuf.file
      ensures stream.curOffset == old(stream.curOffset) + len && if fault then Lost() else Valid()
      ensures fault <==> ReadOnly() && masked && (opcode == 0x1 || opcode == 0x9) && len > 0
      ensures XoredAt(old(stream.stream.Log()), stream.stream.Log(), old(stream.curOffset), len, mask, masked && (opcode == 0x1 || opcode == 0x9) && !fault)
      ensures state == if opcode == 0x8 then Closing else Open
    {
      ghost var h, done := Current(), dispatched;
      fault := TakeMessage();
      TakenOrAhead(raw, base, done, h, Current(), ReadOnly(), fault);
    }

    /** Takes the payload; those handled before still lie where they were taken. */
    method TakeMessage() returns (fault: bool)
      requires InStep() && InLog(dispatched, stream.stream.Log(), stream.curOffset) && len <= stream.Available()
      modifies this`state, this`dispatched, stream, stream.stream.CacheParts(), stream.stream.writeBuf.file
      ensures InStep() && stream.curOffset == old(stream.curOffset) + len && InLog(dispatched, stream.stream.Log(), stream.curOffset)
      ensures var m := MessageOf(raw, old(Current()));
              (fault <==> ReadOnly() && Stores(m)) && dispatched == if fault then old(dispatched) else old(dispatched) + [m]
      ensures XoredAt(old(stream.stream.Log()), stream.stream.Log(), old(stream.curOffset), len, mask, masked && (opcode == 0x1 || opcode == 0x9) && !fault)
      ensures state == if opcode == WS_OP_CLOSE then Closing else Open
    {
      ghost var log, h := stream.stream.Log(), Current();
      SliceOfRest(raw, h.at, len);
      SliceOfRest(log, h.at, len);
      fault := TakePayload();
      MessageTaken(raw, log, stream.stream.Log(), h, dispatched, ReadOnly(), fault);
      dispatched := if fault then dispatched else dispatched + [MessageOf(raw, h)];
      state := if opcode == WS_OP_CLOSE then Closing else Open;
    }

    /** Handles a message when all of its payload is there: 0 when it is not. */
    method DoOpenData() returns (r: int, fault: bool)
      requires Valid() && state.OpenData?
      modifies this`state, this`dispatched, stream, stream.stream.CacheParts(), stream.stream.writeBuf.file
      ensures if fault then Lost() && r != 0 else Valid()
      ensures r == 0 <==> old(stream.Available()) < len
      ensures r == 0 ==> state.OpenData? && Idle() && stream.curOffset == old(stream.curOffset)
      ensures r != 0 ==> r == 1 && stream.curOffset == old(stream.curOffset) + len && state == if opcode == 0x8 then Closing else Open
      ensures fault <==> r != 0 && ReadOnly() && masked && (opcode == 0x1 || opcode == 0x9) && len > 0
      ensures r != 0 ==>
                XoredAt(old(stream.stream.Log()), stream.stream.Log(), old(stream.curOffset), len, mask, masked && (opcode == 0x1 || opcode == 0x9) && !fault)
    {
      r, fault := 0, false;
      if len <= stream.Available() {
        fault := HandlePayload();
        r := 1;
      }
    }

    /** A payload that was waited for is not empty. */
    ghost predicate Settled()
      reads this
    {
      state.OpenData? ==> len > 0
    }

    /** One step. True, to be called again, only after it took a message with bytes left behind it. */
    method ProcessState() returns (again: bool, fault: bool)
      requires Valid() && Settled()
      modifies this`state, this`opcode, this`masked, this`mask, this`len, this`dispatched
      modifies stream, stream.stream.CacheParts(), stream.stream.writeBuf.file
      ensures if fault then Lost() && !again else Valid() && Settled()
      ensures stream.curOffset >= old(stream.curOffset)
      ensures again ==> state.Open? && 0 < stream.Available() < old(stream.Available())
      ensures !again && !fault && Countable(0) ==> Idle() && Resting()
      ensures old(Countable(0)) && !fault ==> Countable(0)
      ensures old(Ended()) ==> !again && !fault && state.Closed?
    {
      again, fault := false, false;
      if state.Open? {
        var _ := DoOpen();
        if state.OpenData? { again, fault := ProcessData(); }
      } else if state.OpenData? {
        again, fault := ProcessData();
      } else {
        state := Closed;
      }
    }

    /** The case of a connection that knows the header of its next message. */
    method ProcessData() returns (again: bool, fault: bool)
      requires Valid() && state.OpenData?
      modifies this`state, this`dispatched, stream, stream.stream.CacheParts(), stream.stream.writeBuf.file
      ensures if fault then Lost() && !again else Valid() && Settled()
      ensures stream.curOffset >= old(stream.curOffset)
      ensures again ==> state.Open? && stream.curOffset == old(stream.curOffset) + len && stream.Available() > 0
      ensures !again && !fault ==> Idle() && Resting()
      ensures state.Open? ==> stream.curOffset == old(stream.curOffset) + len
    {
      var r;
      r, fault := DoOpenData();
      again := r != 0 && !fault && state.Open? && stream.Available() > 0;
      if r != 0 && !fault && !again { NothingComing(raw, state, Current()); }
    }

    /** The loop of `Read`. */
    method Parse() returns (fault: bool)
      requires Valid() && Settled()
      modifies this`state, this`opcode, this`masked, this`mask, this`len, this`dispatched
      modifies stream, stream.stream.CacheParts(), stream.stream.writeBuf.file
      ensures if fault then Lost() else Valid() && Settled()
      ensures stream.curOffset >= old(stream.curOffset)
      ensures old(Ended()) ==> !fault && state.Closed?
      ensures !fault && Countable(0) ==> dispatched == Messages(raw, base) && Resting()
      ensures old(Countable(0)) && !fault ==> Countable(0)
    {
      var again;
      again, fault := ProcessState();
      while again
        invariant if fault then Lost() && !again else Valid() && Settled()
        invariant stream.curOffset >= old(stream.curOffset)
        invariant old(Ended()) ==> !again && !fault && state.Closed?
        invariant !again && !fault && Countable(0) ==> Idle() && Resting()
        invariant old(Countable(0)) && !fault ==> Countable(0)
        decreases again, stream.Available()
      {
        again, fault := ProcessState();
      }
      if !fault && Countable(0) { AllTaken(raw, base, dispatched, state, Current()); }
    }

    /** The bytes that a reply brings to the stream. */
    ghost function Brought(reply: ReadReply<Byte>): (s: seq<Byte>)
      reads this
    {
      if !Ended() then BytesOf(reply) else []
    }

    /** A close was taken: the stream gets nothing more. */
    predicate Ended()
      reads this
    {
      state.Closing? || state.Closed?
    }

    /** A read into the stream. */
    method Receive(reply: ReadReply<Byte>)
      requires Valid()
      requires (reply.Failed? ==> reply.code < 0) && (reply.Got? ==> |reply.bytes| <= stream.stream.Room())
      modifies this`raw, stream.stream.Parts()
      ensures Valid() && raw == old(raw) + BytesOf(reply) && state == old(state) && Current() == old(Current())
    {
      Arriving(BytesOf(reply));
      var _ := stream.Readv(reply);
      raw := raw + BytesOf(reply);
    }

    /** What bytes that arrive leave as it was. */
    lemma Arriving(bytes: seq<Byte>)
      requires Valid()
      ensures OnTrack(raw + bytes, base, dispatched, state, Current())
      ensures InLog(dispatched, stream.stream.Log() + bytes, stream.curOffset)
      ensures this !in stream.Parts() && stream.curOffset <= |raw| == |stream.stream.Log()| && (raw + bytes)[stream.curOffset..] == stream.Unread() + bytes
      ensures ReadOnly() ==> NoneStores(dispatched)
    {
      InLogStays(dispatched, stream.stream.Log(), stream.stream.Log() + bytes, stream.curOffset, stream.curOffset);
      Arrives(raw, base, dispatched, state, Current(), bytes);
      RestGrows(raw, stream.curOffset, bytes);
    }

    /** A read into the stream, or past it when the connection was closed. */
    method Accept(reply: ReadReply<Byte>)
      requires Valid()
      requires (reply.Failed? ==> reply.code < 0) && (reply.Got? ==> |reply.bytes| <= stream.stream.Room())
      modifies this`raw, stream.stream.Parts()
      ensures Valid() && raw == old(raw) + old(Brought(reply)) && state == old(state) && Current() == old(Current())
    {
      if state.Open? || state.OpenData? {
        Receive(reply);
      } else {
        assert raw == raw + [];
      }
    }

    /**
      Takes what the socket delivered and parses as far as it can.  A connection that was closed
      takes nothing more: its bytes go to the buffer of the handshake, or nowhere when that is `full`.
     */
    method Read(reply: ReadReply<Byte>, full: bool) returns (r: int, fault: bool)
      requires Valid() && Settled()
      requires (reply.Failed? ==> reply.code < 0) && (reply.Got? ==> |reply.bytes| <= stream.stream.Room())
      modifies Parts()
      ensures if fault then Lost() else Valid() && Settled()
      ensures stream.curOffset >= old(stream.curOffset)
      ensures r == if reply.Failed? || (full && old(Ended())) then -3 else 0
      ensures raw == old(raw) + old(Brought(reply)) && (old(Ended()) ==> Ended() && !fault)
      ensures !fault && (r == 0 || Ended()) && Countable(0) ==> dispatched == Messages(raw, base) && Resting()
      ensures old(Countable(|BytesOf(reply)|)) && !fault ==> Countable(0)
    {
      r, fault := if reply.Failed? || (full && Ended()) then -3 else 0, false;
      Accept(reply);
      assert Settled();
      if r == 0 {
        fault := Parse();
      } else if Ended() {
        AllTaken(raw, base, dispatched, state, Current());
      }
    }
  }

  /**
    However the bytes are cut into reads (`cut` says how many each read takes at most, `full`
    whether the buffer of the handshake can take what comes after a close), the messages
    dispatched are those of the whole, up to and including the first close.  What waits is
    counted in 32 bits: it is enough that a page more can be counted before the feed, and then
    it can be after it.  The messages are always the first of the whole, and their payloads
    lie in the log as they were handled.  When pages are read-only the feed faults exactly at
    the first message that is unmasked in its page.
   */
  method Feed(con: Connection, data: seq<Byte>, cut: nat -> nat, full: nat -> bool) returns (fault: bool)
    requires con.Valid() && con.Settled() && data != []
    modifies con.Parts()
    ensures if fault then con.Lost() else con.Valid() && con.Settled()
    ensures con.dispatched <= Messages(old(con.raw) + data, con.base)
    ensures InLog(con.dispatched, con.stream.stream.Log(), con.stream.curOffset)
    ensures fault || old(con.PageCounts()) || con.Countable(0) ==>
              var ms := Messages(old(con.raw) + data, con.base);
              con.dispatched == Spared(ms, con.ReadOnly()) && (fault <==> con.dispatched != ms)
    ensures old(con.PageCounts()) && !fault ==> con.PageCounts() && con.Resting()
    ensures !fault ==> con.stream.Available() <= old(con.stream.Available()) + |data|
    ensures !fault && !con.Ended() ==> con.raw == old(con.raw) + data
  {
    var i: nat := 0;
    ghost var all, j: nat := con.raw, 0;
    fault := false;
    while i < |data| && !fault
      invariant i <= |data| && FedUpTo(con, fault, all, data, i, j) && con.stream.curOffset >= old(con.stream.curOffset)
      invariant i > 0 && !fault && con.Countable(0) ==> con.dispatched == Messages(con.raw, con.base) && con.Resting()
      invariant old(con.PageCounts()) && !fault ==> con.PageCounts()
      decreases |data| - i
    {
      i, fault, j := FeedSome(con, data, cut(i), full(i), i, all, j);
    }
    if fault { LostAt(con, all, data, i, j); } else { WholeFed(con, all, data, j); }
  }

  /** One read of the data. */
  method FeedSome(con: Connection, data: seq<Byte>, most: nat, full: bool, i: nat, ghost all: seq<Byte>, ghost j: nat)
    returns (i': nat, fault: bool, ghost j': nat)
    requires FedUpTo(con, false, all, data, i, j) && i < |data|
    modifies con.Parts()
    ensures i < i' <= |data| && FedUpTo(con, fault, all, data, i', j') && con.stream.curOffset >= old(con.stream.curOffset)
    ensures !fault && con.Countable(0) ==> con.dispatched == Messages(con.raw, con.base) && con.Resting()
    ensures old(con.PageCounts()) && !fault ==> con.PageCounts()
  {
    var n := AtLeastOne(most, con.stream.stream.Room(), |data| - i);
    j' := if con.Ended() then j else i + n;
    Fed(all, data, i, j, n);
    var r;
    r, fault := con.Read(Got(data[i..i + n]), full);
    i' := i + n;
  }

  /** The log has the first `j` bytes; if more were fed, a close came before them. */
  ghost predicate FedUpTo(con: Connection, fault: bool, all: seq<Byte>, data: seq<Byte>, i: nat, j: nat)
    reads con.Parts()
  {
    true == (
      && j <= i && j <= |data| && con.raw == all + data[..j] && (j < i ==> con.Ended())
      && if fault then con.Lost() && j == i else con.Valid() && con.Settled())
  }

  lemma LostAt(con: Connection, all: seq<Byte>, data: seq<Byte>, i: nat, j: nat)
    requires FedUpTo(con, true, all, data, i, j)
    ensures var ms := Messages(all + data, con.base); con.dispatched < ms && con.dispatched == Spared(ms, con.ReadOnly())
  {
    Rejoin(all, data, j);
    assert CutAt(Messages(con.raw + data[j..], con.base), con.dispatched);
    SparedUpTo(Messages(all + data, con.base), con.dispatched);
  }

  lemma WholeFed(con: Connection, all: seq<Byte>, data: seq<Byte>, j: nat)
    requires FedUpTo(con, false, all, data, |data|, j)
    ensures con.dispatched <= Messages(all + data, con.base)
    ensures j < |data| || con.dispatched == Messages(con.raw, con.base) ==>
              con.dispatched == Messages(all + data, con.base) == Spared(con.dispatched, con.ReadOnly())
  {
    AllSparedExactlyWhen(con.dispatched, con.ReadOnly());
    Rejoin(all, data, j);
    FirstTaken(con.raw, con.base, con.dispatched, con.state, con.Current(), data[j..]);
    if j < |data| {
      AllTakenForGood(con.raw, con.base, con.dispatched, con.state, con.Current(), data[j..]);
    }
  }

  lemma Rejoin(all: seq<Byte>, data: seq<Byte>, j: nat)
    requires j <= |data|
    ensures all + data[..j] + data[j..] == all + data
    ensures j == |data| ==> data[..j] == data
  {
  }

  /** A number of bytes between 1 and what there is and fits. */
  function AtLeastOne(n: nat, room: nat, left: nat): (m: nat)
    requires room > 0 && left > 0
    ensures 0 < m <= room && m <= left
  {
    var most := if room < left then room else left;
    if n == 0 then 1 else if n < most then n else most
  }

  lemma Fed(all: seq<Byte>, data: seq<Byte>, i: nat, j: nat, n: nat)
    requires j <= i && i + n <= |data|
    ensures j == i ==> all + data[..i] + data[i..i + n] == all + data[..i + n]
    ensures all + data[..j] + [] == all + data[..j]
  {
  }

  ghost function BytesOf(reply: ReadReply<Byte>): (s: seq<Byte>) { if reply.Got? then reply.bytes else [] }

  lemma RestGrows(s: seq<Byte>, from: nat, bytes: seq<Byte>)
    requires from <= |s|
    ensures (s + bytes)[from..] == s[from..] + bytes
  {
  }

  /** After a message no header can follow when no byte does, or when it was a close. */
  lemma NothingComing(raw: seq<Byte>, state: State, h: Head)
    requires (h.masked ==> h.mask != []) && (state.Open? ==> h.at >= |raw|) && !state.OpenData?
    ensures Coming(raw, state, h) == []
  {
  }

  lemma SliceOfRest(s: seq<Byte>, from: nat, n: nat)
    requires from + n <= |s|
    ensures s[from..][..n] == s[from..from + n] && s[from..][n..] == s[from + n..]
  {
  }
}
