/**
  WebSocket framing: the header that `WriteFrame` writes, the header that `DoOpen` reads
  (src/main/http/websocket.h:286-316, 517-571), and the messages in a stream of bytes.
  Section 5.2 of RFC 6455 has the layout, section 5.3 the masking.
 */
module Framing {
  import opened Sequences
  import opened Words

  const WS_PAYLOAD_16: Byte := 126
  const WS_PAYLOAD_64: Byte := 127
  const WS_MASK_LEN: nat := 4
  const MAX_HEAD: nat := 14
  const UINT16_MAX: nat := 0xFFFF
  const UINT32_RANGE: nat := 0x1_0000_0000

  const WS_OP_TEXT_FRAME: Byte := 0x1
  const WS_OP_CLOSE: Byte := 0x8
  const WS_OP_PING: Byte := 0x9

  /** A header as read: the payload is `len` bytes from `at` on. */
  datatype Head = Head(opcode: Byte, masked: bool, mask: seq<Byte>, at: nat, len: nat)

  // ----- reading -----

  function ExtraLength(len7: Byte): nat { if len7 == WS_PAYLOAD_16 then 2 else if len7 == WS_PAYLOAD_64 then 8 else 0 }

  /** What the second byte of a header says: whether there is a mask, how long the extended length is, and the length when there is none. */
  datatype Second = Second(masked: bool, extra: nat, short: nat)
  {
    /** The bytes that follow it. */
    function Size(): nat { (if masked then WS_MASK_LEN else 0) + extra }
  }

  function SecondOf(b: Byte): Second { Second(b & 0x80 != 0, ExtraLength(0x7F & b), FromByte(0x7F & b)) }

  /** The number of bytes of the header with second byte `b`. */
  function Needed(b: Byte): (n: nat)
    ensures 2 <= n <= MAX_HEAD
  {
    2 + SecondOf(b).Size()
  }

  /** What follows the first two bytes when it begins at `x`, in the order of `DoOpen`: the mask, then the extended length. */
  function FieldsAt(raw: seq<Byte>, x: nat, opcode: Byte, s: Second): (h: Head)
    requires x + s.Size() <= |raw|
    ensures h.at == x + s.Size() && (s.masked ==> |h.mask| == WS_MASK_LEN)
  {
    var y := if s.masked then x + WS_MASK_LEN else x;
    Head(opcode, s.masked, if s.masked then raw[x..y] else [], y + s.extra, if s.extra == 0 then s.short else FromBigEndian(raw[y..y + s.extra]))
  }

  /** The same in the order of section 5.2: the extended length, then the mask. */
  function LayoutAt(raw: seq<Byte>, x: nat, opcode: Byte, s: Second): (h: Head)
    requires x + s.Size() <= |raw|
  {
    var y := x + s.extra;
    var end := if s.masked then y + WS_MASK_LEN else y;
    Head(opcode, s.masked, if s.masked then raw[y..end] else [], end, if s.extra == 0 then s.short else FromBigEndian(raw[x..y]))
  }

  /** The header at `at` the way `DoOpen` reads it: the mask before the extended length. None while bytes are missing. */
  function ReadHead(raw: seq<Byte>, at: nat): (h: Option<Head>)
    ensures h.Some? ==> at + 2 <= h.value.at <= |raw|
    ensures h.Some? && h.value.masked ==> |h.value.mask| == WS_MASK_LEN
  {
    if at + 2 > |raw| || at + Needed(raw[at + 1]) > |raw| then None
    else Some(FieldsAt(raw, at + 2, raw[at] & 0x0F, SecondOf(raw[at + 1])))
  }

  /** The header at `at` as section 5.2 lays it out: the extended length before the mask. */
  function LayoutHead(raw: seq<Byte>, at: nat): (h: Option<Head>)
  {
    if at + 2 > |raw| || at + Needed(raw[at + 1]) > |raw| then None
    else Some(LayoutAt(raw, at + 2, raw[at] & 0x0F, SecondOf(raw[at + 1])))
  }

  /** All of a header is there. */
  predicate Complete(u: seq<Byte>) { |u| >= 2 && |u| >= Needed(u[1]) }

  /** The header that `u` begins with, where `u` begins at `at`. */
  function HeadIn(u: seq<Byte>, at: nat): (h: Head)
    requires Complete(u)
  {
    Shifted(FieldsAt(u, 2, u[0] & 0x0F, SecondOf(u[1])), at)
  }

  function Shifted(h: Head, at: nat): Head { h.(at := at + h.at) }

  /** A header taken in two parts, the second being what is left after the mask. */
  lemma HeadOfParts(u: seq<Byte>, v: seq<Byte>, at: nat, masked: bool, mask: seq<Byte>, len: nat)
    requires Complete(u) && (masked <==> SecondOf(u[1]).masked) && (masked ==> mask == u[2..6]) && v == u[if masked then 6 else 2..]
    requires var s := SecondOf(u[1]); len == if s.extra == 0 then s.short else FromBigEndian(v[..s.extra])
    ensures var n, x := SecondOf(u[1]).extra, if masked then 6 else 2;
            && HeadIn(u, at) == Head(u[0] & 0x0F, masked, if masked then mask else [], at + x + n, len)
            && v[n..] == u[x + n..]
            && ReadsAs(u, u[0] & 0x0F, masked, if masked then mask else [], len, x + n)
  {
    HeadInReads(u, at);
    PartsOf(u, v, u[0] & 0x0F, SecondOf(u[1]));
  }

  lemma PartsOf(u: seq<Byte>, v: seq<Byte>, opcode: Byte, s: Second)
    requires 2 + s.Size() <= |u| && v == u[if s.masked then 6 else 2..]
    ensures var n, x := s.extra, if s.masked then 6 else 2;
            && FieldsAt(u, 2, opcode, s) == Head(opcode, s.masked, if s.masked then u[2..6] else [], x + n, if n == 0 then s.short else FromBigEndian(v[..n]))
            && v[n..] == u[x + n..]
  {
    var n, x := s.extra, if s.masked then 6 else 2;
    assert v[..n] == u[x..x + n];
  }

  /** The fields do not depend on what lies before them. */
  lemma FieldsBehind(raw: seq<Byte>, at: nat, x: nat, opcode: Byte, s: Second)
    requires at + x + s.Size() <= |raw|
    ensures FieldsAt(raw, at + x, opcode, s) == Shifted(FieldsAt(raw[at..], x, opcode, s), at)
  {
    var y := if s.masked then x + WS_MASK_LEN else x;
    assert raw[at..][x..y] == raw[at + x..at + y] && raw[at..][y..y + s.extra] == raw[at + y..at + y + s.extra];
  }

  /** Nor on what lies behind them. */
  lemma FieldsBefore(raw: seq<Byte>, more: seq<Byte>, x: nat, opcode: Byte, s: Second)
    requires x + s.Size() <= |raw|
    ensures FieldsAt(raw + more, x, opcode, s) == FieldsAt(raw, x, opcode, s)
  {
    var y := if s.masked then x + WS_MASK_LEN else x;
    assert (raw + more)[x..y] == raw[x..y] && (raw + more)[y..y + s.extra] == raw[y..y + s.extra];
  }

  /** The header in terms of the bytes from `at` on. */
  lemma HeadFields(raw: seq<Byte>, at: nat, u: seq<Byte>)
    requires at <= |raw| && u == raw[at..]
    ensures ReadHead(raw, at) == if Complete(u) then Some(HeadIn(u, at)) else None
  {
    if |u| >= 2 {
      assert raw[at] == u[0] && raw[at + 1] == u[1];
      if Complete(u) { FieldsBehind(raw, at, 2, u[0] & 0x0F, SecondOf(u[1])); }
    }
  }

  /**
    Byte by byte: what is read from a header `u` and how long it is.  The mask comes before the
    extended length, which is in network byte order.
   */
  ghost predicate ReadsAs(u: seq<Byte>, opcode: Byte, masked: bool, mask: seq<Byte>, len: nat, size: nat)
  {
    true == (
      |u| >= 2 &&
      var y := if u[1] & 0x80 != 0 then 6 else 2;
      && opcode == u[0] & 0x0F && (masked <==> u[1] & 0x80 != 0) && |u| >= size >= y && (masked ==> mask == u[2..6])
      && (0x7F & u[1] == 126 ==> size == y + 2 && len == 256 * FromByte(u[y]) + FromByte(u[y + 1]))
      && (0x7F & u[1] == 127 ==>
            && size == y + 8
            && len == 0x100_0000_0000_0000 * FromByte(u[y]) + 0x1_0000_0000_0000 * FromByte(u[y + 1]) + 0x100_0000_0000 * FromByte(u[y + 2]) + 0x1_0000_0000 * FromByte(u[y + 3])
                      + 0x100_0000 * FromByte(u[y + 4]) + 0x1_0000 * FromByte(u[y + 5]) + 0x100 * FromByte(u[y + 6]) + FromByte(u[y + 7]))
      && (0x7F & u[1] < 126 ==> size == y && len == FromByte(0x7F & u[1])))
  }

  lemma {:induction false} HeadInReads(u: seq<Byte>, at: nat)
    requires Complete(u)
    ensures var h := HeadIn(u, at); h.at >= at && ReadsAs(u, h.opcode, h.masked, h.mask, h.len, h.at - at)
  {
    var y := if u[1] & 0x80 != 0 then 6 else 2;
    if 0x7F & u[1] == 126 { TwoFrom(u, y); }
    if 0x7F & u[1] == 127 { EightFrom(u, y); }
  }

  lemma {:induction false} TwoFrom(u: seq<Byte>, y: nat)
    requires y + 2 <= |u|
    ensures FromBigEndian(u[y..y + 2]) == 256 * FromByte(u[y]) + FromByte(u[y + 1])
  {
    TwoBytes(u[y..y + 2]);
  }

  lemma {:induction false} EightFrom(u: seq<Byte>, y: nat)
    requires y + 8 <= |u|
    ensures FromBigEndian(u[y..y + 8])
            == 0x100_0000_0000_0000 * FromByte(u[y]) + 0x1_0000_0000_0000 * FromByte(u[y + 1]) + 0x100_0000_0000 * FromByte(u[y + 2]) + 0x1_0000_0000 * FromByte(u[y + 3])
               + 0x100_0000 * FromByte(u[y + 4]) + 0x1_0000 * FromByte(u[y + 5]) + 0x100 * FromByte(u[y + 6]) + FromByte(u[y + 7])
  {
    EightBytes(u[y..y + 8]);
  }

  // ----- writing -----

  /** What `WriteFrame` pushes. */
  function HeadBytes(code: Byte, masked: bool, len: nat): (s: seq<Byte>)
    ensures |s| == if len <= 125 then 2 else if len < UINT16_MAX then 4 else 10
  {
    var first := 0x80 | (0x0F & code);
    var bit: Byte := if masked then 0x80 else 0;
    if len <= 125 then [first, (0x7F & ToByte(len)) | bit]
    else if len < UINT16_MAX then [first, (0x7F & WS_PAYLOAD_16) | bit] + BigEndian(len, 2)
    else [first, (0x7F & WS_PAYLOAD_64) | bit] + BigEndian(len, 8)
  }

  lemma FirstByte(code: Byte)
    ensures (0x80 | (0x0F & code)) & 0x0F == 0x0F & code
  {
  }

  lemma SecondByte(n: nat, masked: bool)
    requires n < 128
    ensures var b := (0x7F & ToByte(n)) | (if masked then 0x80 else 0);
            SecondOf(b) == Second(masked, if n == 126 then 2 else if n == 127 then 8 else 0, n)
  {
    var t := ToByte(n);
    assert FromByte(t) == n;
    assert t < 128;
    assert 0x7F & ((0x7F & t) | (if masked then 0x80 else 0)) == t;
  }

  /** The bytes `h` are a header that says this, without the mask, before any reader is chosen. */
  ghost predicate Says(h: seq<Byte>, opcode: Byte, masked: bool, len: nat)
  {
    true == (
      && |h| >= 2 && h[0] & 0x0F == opcode && SecondOf(h[1]).masked == masked && SecondOf(h[1]).extra == |h| - 2
      && (if |h| == 2 then SecondOf(h[1]).short == len else FromBigEndian(h[2..]) == len))
  }

  lemma Written(code: Byte, masked: bool, len: nat)
    requires len < Pow256(8)
    ensures Says(HeadBytes(code, masked, len), 0x0F & code, masked, len)
  {
    FirstByte(code);
    SecondByte(if len <= 125 then len else if len < UINT16_MAX then 126 else 127, masked);
    if len > 125 { LengthBack(code, masked, len); }
  }

  lemma LengthBack(code: Byte, masked: bool, len: nat)
    requires 125 < len < Pow256(8)
    ensures FromBigEndian(HeadBytes(code, masked, len)[2..]) == len
  {
    WordSizes();
    var n := if len < UINT16_MAX then 2 else 8;
    assert HeadBytes(code, masked, len)[2..] == BigEndian(len, n);
    BigEndianRoundTrip(len, n);
  }

  /** The fields of a header `h` with what follows it. */
  lemma FieldsOf(h: seq<Byte>, rest: seq<Byte>, opcode: Byte, s: Second, len: nat)
    requires |h| >= 2 && s.extra == |h| - 2 && (s.masked ==> |rest| >= WS_MASK_LEN)
    requires if |h| == 2 then s.short == len else FromBigEndian(h[2..]) == len
    ensures LayoutAt(h + rest, 2, opcode, s)
            == Head(opcode, s.masked, if s.masked then rest[..WS_MASK_LEN] else [], |h| + (if s.masked then WS_MASK_LEN else 0), len)
    ensures !s.masked || |h| == 2 ==> FieldsAt(h + rest, 2, opcode, s) == LayoutAt(h + rest, 2, opcode, s)
  {
    var raw := h + rest;
    assert raw[2..|h|] == h[2..];
    if s.masked { assert raw[|h|..|h| + WS_MASK_LEN] == rest[..WS_MASK_LEN]; }
  }

  /**
    Byte by byte: a header that was written.  The final-fragment bit and the opcode, the mask bit
    and the length, and the extended length in network byte order.
   */
  ghost predicate WrittenAs(h: seq<Byte>, code: Byte, masked: bool, len: nat)
  {
    true == (
      && |h| == (if len <= 125 then 2 else if len < 65535 then 4 else 10)
      && h[0] == 0x80 | (0x0F & code) && (h[1] & 0x80 != 0 <==> masked)
      && FromByte(0x7F & h[1]) == (if len <= 125 then len else if len < 65535 then 126 else 127)
      && (125 < len < 65535 ==> FromByte(h[2]) == len / 256 && FromByte(h[3]) == len % 256)
      && (len >= 65535 ==>
            && FromByte(h[2]) == len / 0x100_0000_0000_0000 % 256 && FromByte(h[3]) == len / 0x1_0000_0000_0000 % 256
            && FromByte(h[4]) == len / 0x100_0000_0000 % 256 && FromByte(h[5]) == len / 0x1_0000_0000 % 256
            && FromByte(h[6]) == len / 0x100_0000 % 256 && FromByte(h[7]) == len / 0x1_0000 % 256
            && FromByte(h[8]) == len / 0x100 % 256 && FromByte(h[9]) == len % 256))
  }

  lemma {:induction false} HeadSpelled(code: Byte, masked: bool, len: nat)
    requires len < Pow256(8)
    ensures WrittenAs(HeadBytes(code, masked, len), code, masked, len)
  {
    FirstTwo(code, masked, len);
    if len < UINT16_MAX { WordOfTwo(len, 2); } else { HighBytes(len, 8); LowBytes(len, 8); }
  }

  lemma {:induction false} FirstTwo(code: Byte, masked: bool, len: nat)
    requires len < Pow256(8)
    ensures var h := HeadBytes(code, masked, len);
            && h[0] == 0x80 | (0x0F & code) && (h[1] & 0x80 != 0 <==> masked)
            && FromByte(0x7F & h[1]) == if len <= 125 then len else if len < 65535 then 126 else 127
  {
    SecondByte(if len <= 125 then len else if len < UINT16_MAX then 126 else 127, masked);
  }

  /** One byte of a word whose weight is `p`. */
  lemma {:induction false} ByteOf(n: nat, k: nat, i: nat, p: nat)
    requires i < k && p == Pow256(k - 1 - i)
    ensures FromByte(BigEndian(n, k)[i]) == n / p % 256
  {
    BigEndianAt(n, k, i);
  }

  lemma {:induction false} WordOfTwo(n: nat, k: nat)
    requires n < 0x1_0000 && k == 2
    ensures var s := BigEndian(n, k); FromByte(s[0]) == n / 256 && FromByte(s[1]) == n % 256
  {
    WordSizes();
    ByteOf(n, k, 0, 0x100);
    ByteOf(n, k, 1, 1);
  }

  lemma {:induction false} HighBytes(n: nat, k: nat)
    requires k == 8
    ensures var s := BigEndian(n, k);
            && FromByte(s[0]) == n / 0x100_0000_0000_0000 % 256 && FromByte(s[1]) == n / 0x1_0000_0000_0000 % 256
            && FromByte(s[2]) == n / 0x100_0000_0000 % 256 && FromByte(s[3]) == n / 0x1_0000_0000 % 256
  {
    WordSizes();
    ByteOf(n, k, 0, 0x100_0000_0000_0000);
    ByteOf(n, k, 1, 0x1_0000_0000_0000);
    ByteOf(n, k, 2, 0x100_0000_0000);
    ByteOf(n, k, 3, 0x1_0000_0000);
  }

  lemma {:induction false} LowBytes(n: nat, k: nat)
    requires k == 8
    ensures var s := BigEndian(n, k);
            && FromByte(s[4]) == n / 0x100_0000 % 256 && FromByte(s[5]) == n / 0x1_0000 % 256
            && FromByte(s[6]) == n / 0x100 % 256 && FromByte(s[7]) == n % 256
  {
    WordSizes();
    ByteOf(n, k, 4, 0x100_0000);
    ByteOf(n, k, 5, 0x1_0000);
    ByteOf(n, k, 6, 0x100);
    ByteOf(n, k, 7, 1);
  }

  /** What the readers make of a header with what follows it. */
  lemma HeadOf(h: seq<Byte>, rest: seq<Byte>, opcode: Byte, masked: bool, len: nat)
    requires Says(h, opcode, masked, len) && (masked ==> |rest| >= WS_MASK_LEN)
    ensures LayoutHead(h + rest, 0)
            == Some(Head(opcode, masked, if masked then rest[..WS_MASK_LEN] else [], |h| + (if masked then WS_MASK_LEN else 0), len))
    ensures !masked || |h| == 2 ==> ReadHead(h + rest, 0) == LayoutHead(h + rest, 0)
  {
    assert (h + rest)[0] == h[0] && (h + rest)[1] == h[1];
    FieldsOf(h, rest, opcode, SecondOf(h[1]), len);
  }

  /** Unmasked headers of every length come back. */
  lemma UnmaskedRoundTrip(code: Byte, len: nat, rest: seq<Byte>)
    requires len < Pow256(8)
    ensures var h := HeadBytes(code, false, len);
            ReadHead(h + rest, 0) == LayoutHead(h + rest, 0) == Some(Head(0x0F & code, false, [], |h|, len))
  {
    Written(code, false, len);
    HeadOf(HeadBytes(code, false, len), rest, 0x0F & code, false, len);
  }

  /** By the layout of section 5.2 masked headers come back as well. */
  lemma MaskedLayout(code: Byte, len: nat, mask: seq<Byte>, rest: seq<Byte>)
    requires len < Pow256(8) && |mask| == WS_MASK_LEN
    ensures var h := HeadBytes(code, true, len);
            LayoutHead(h + mask + rest, 0) == Some(Head(0x0F & code, true, mask, |h| + WS_MASK_LEN, len))
  {
    var h := HeadBytes(code, true, len);
    assert h + mask + rest == h + (mask + rest) && (mask + rest)[..WS_MASK_LEN] == mask;
    Written(code, true, len);
    HeadOf(h, mask + rest, 0x0F & code, true, len);
  }

  ghost predicate Recovers(code: Byte, len: nat, mask: seq<Byte>, rest: seq<Byte>)
  {
    var h := HeadBytes(code, true, len);
    ReadHead(h + mask + rest, 0) == Some(Head(0x0F & code, true, mask, |h| + WS_MASK_LEN, len))
  }

  /** `DoOpen` recovers the masked headers of `WriteFrame` for every mask exactly when the length is at most 125. */
  lemma MaskedRoundTripExactlyWhen(code: Byte, len: nat, rest: seq<Byte>)
    requires len < Pow256(8)
    ensures (forall mask: seq<Byte> | |mask| == WS_MASK_LEN :: Recovers(code, len, mask, rest)) <==> len <= 125
  {
    if len <= 125 {
      forall mask: seq<Byte> | |mask| == WS_MASK_LEN ensures Recovers(code, len, mask, rest) {
        ShortMasked(code, len, mask, rest);
      }
    } else {
      var first := HeadBytes(code, true, len)[2];
      LongMasked(code, len, [first ^ 1, 0, 0, 0], rest);
    }
  }

  /** On headers without a mask or without an extended length `DoOpen` follows the layout of section 5.2. */
  lemma ReadsLayout(raw: seq<Byte>, at: nat)
    requires at + 2 <= |raw| ==> raw[at + 1] & 0x80 == 0 || ExtraLength(0x7F & raw[at + 1]) == 0
    ensures ReadHead(raw, at) == LayoutHead(raw, at)
  {
  }

  lemma ShortMasked(code: Byte, len: nat, mask: seq<Byte>, rest: seq<Byte>)
    requires len <= 125 && |mask| == WS_MASK_LEN
    ensures Recovers(code, len, mask, rest)
  {
    WordSizes();
    var h := HeadBytes(code, true, len);
    assert h + mask + rest == h + (mask + rest);
    Written(code, true, len);
    HeadOf(h, mask + rest, 0x0F & code, true, len);
    MaskedLayout(code, len, mask, rest);
  }

  /** Reading the mask first takes it from the length. */
  lemma LongMasked(code: Byte, len: nat, mask: seq<Byte>, rest: seq<Byte>)
    requires 125 < len < Pow256(8) && |mask| == WS_MASK_LEN && mask[0] != HeadBytes(code, true, len)[2]
    ensures !Recovers(code, len, mask, rest)
  {
    var h := HeadBytes(code, true, len);
    var raw := h + mask + rest;
    Written(code, true, len);
    assert raw[1] == h[1] && raw[2..6][0] == h[2];
  }

  /** The shortest length form that holds `len`, as section 5.2 demands. */
  function ShortestForm(len: nat): nat { if len <= 125 then 0 else if len <= UINT16_MAX then 2 else 8 }

  /** `WriteFrame` uses the shortest form for every length but 65535. */
  lemma ShortestExactlyWhen(code: Byte, masked: bool, len: nat)
    requires len < Pow256(8)
    ensures |HeadBytes(code, masked, len)| == 2 + ShortestForm(len) <==> len != UINT16_MAX
  {
  }

  // ----- messages -----

  /** Bytes XORed with a mask, as in section 5.3. */
  function Xor(s: seq<Byte>, mask: seq<Byte>): (r: seq<Byte>)
    requires mask != []
    ensures |r| == |s|
  {
    seq(|s|, i requires 0 <= i < |s| => s[i] ^ mask[i % |mask|])
  }

  lemma XorTwice(s: seq<Byte>, mask: seq<Byte>)
    requires mask != []
    ensures Xor(Xor(s, mask), mask) == s
  {
    forall i | 0 <= i < |s| ensures Xor(Xor(s, mask), mask)[i] == s[i] { XorCancels(s[i], mask[i % |mask|]); }
  }

  /**
    A message as the connection has it after handling: texts and pings with a mask are
    unmasked in the log, other payloads stay as they came.
   */
  datatype Message = Message(opcode: Byte, at: nat, payload: seq<Byte>, unmasked: bool)

  predicate Unmasks(h: Head) { h.masked && (h.opcode == WS_OP_TEXT_FRAME || h.opcode == WS_OP_PING) }

  function MessageOf(raw: seq<Byte>, h: Head): (m: Message)
    requires h.at + h.len <= |raw| && (h.masked ==> h.mask != [])
  {
    var s := raw[h.at..h.at + h.len];
    Message(h.opcode, h.at, if Unmasks(h) then Xor(s, h.mask) else s, Unmasks(h))
  }

  /** The complete messages from `at` on, up to and including the first close. */
  function Messages(raw: seq<Byte>, at: nat): (ms: seq<Message>)
    decreases |raw| - at, 0
  {
    var h := ReadHead(raw, at);
    if h.None? then [] else AtPayload(raw, h.value)
  }

  /** The same, once the header of the next message is known. */
  function AtPayload(raw: seq<Byte>, h: Head): (ms: seq<Message>)
    requires h.masked ==> h.mask != []
    decreases |raw| - h.at, 1
  {
    if h.at + h.len > |raw| then []
    else [MessageOf(raw, h)] + if h.opcode == WS_OP_CLOSE then [] else Messages(raw, h.at + h.len)
  }

  /** More bytes do not change a header that is complete. */
  lemma HeadStays(raw: seq<Byte>, more: seq<Byte>, at: nat)
    requires ReadHead(raw, at).Some?
    ensures ReadHead(raw + more, at) == ReadHead(raw, at)
  {
    var all := raw + more;
    assert all[at] == raw[at] && all[at + 1] == raw[at + 1];
    FieldsBefore(raw, more, at + 2, raw[at] & 0x0F, SecondOf(raw[at + 1]));
  }

  /** Nor a message that is complete. */
  lemma MessageStays(raw: seq<Byte>, more: seq<Byte>, h: Head)
    requires h.at + h.len <= |raw| && (h.masked ==> h.mask != [])
    ensures MessageOf(raw + more, h) == MessageOf(raw, h)
  {
    assert (raw + more)[h.at..h.at + h.len] == raw[h.at..h.at + h.len];
  }

  // ----- parsing while bytes still arrive -----

  datatype State = Open | OpenData | Closing | Closed

  /**
    Where a parser stands: whatever arrives after `raw`, the messages of the whole are those
    dispatched and those still to come from here.
   */
  ghost predicate OnTrack(raw: seq<Byte>, base: nat, done: seq<Message>, state: State, h: Head)
  {
    true == ((h.masked ==> h.mask != []) && forall more: seq<Byte> :: Track(raw + more, base, done, state, h))
  }

  ghost predicate Track(all: seq<Byte>, base: nat, done: seq<Message>, state: State, h: Head)
    requires h.masked ==> h.mask != []
  {
    Messages(all, base) == done + Coming(all, state, h)
  }

  /** What is to come; when no header was read yet, `h.at` is where it will begin. */
  function Coming(raw: seq<Byte>, state: State, h: Head): (ms: seq<Message>)
    requires h.masked ==> h.mask != []
  {
    match state
    case Open => Messages(raw, h.at)
    case OpenData => AtPayload(raw, h)
    case _ => []
  }

  lemma Begins(raw: seq<Byte>, h: Head)
    requires h.masked ==> h.mask != []
    ensures OnTrack(raw, h.at, [], Open, h)
  {
  }

  lemma Arrives(raw: seq<Byte>, base: nat, done: seq<Message>, state: State, h: Head, bytes: seq<Byte>)
    requires OnTrack(raw, base, done, state, h)
    ensures OnTrack(raw + bytes, base, done, state, h)
  {
    forall more: seq<Byte> ensures Track(raw + bytes + more, base, done, state, h) {
      Regroup(raw, bytes, more);
      assert Track(raw + (bytes + more), base, done, state, h);
    }
  }

  lemma HeadTaken(raw: seq<Byte>, base: nat, done: seq<Message>, h: Head, n: Head)
    requires OnTrack(raw, base, done, Open, h) && ReadHead(raw, h.at) == Some(n)
    ensures OnTrack(raw, base, done, OpenData, n)
  {
    forall more: seq<Byte> ensures Track(raw + more, base, done, OpenData, n) {
      assert Track(raw + more, base, done, Open, h);
      HeadStays(raw, more, h.at);
    }
  }

  lemma AfterPayload(all: seq<Byte>, base: nat, done: seq<Message>, h: Head, n: Head)
    requires (h.masked ==> h.mask != []) && (n.masked ==> n.mask != [])
    requires Track(all, base, done, OpenData, h) && h.at + h.len <= |all| && n.at == h.at + h.len
    ensures Track(all, base, done + [MessageOf(all, h)], if h.opcode == WS_OP_CLOSE then Closing else Open, n)
  {
    var rest := if h.opcode == WS_OP_CLOSE then [] else Messages(all, n.at);
    assert AtPayload(all, h) == [MessageOf(all, h)] + rest;
    Regroup(done, [MessageOf(all, h)], rest);
  }

  lemma PayloadTaken(raw: seq<Byte>, base: nat, done: seq<Message>, h: Head, n: Head)
    requires OnTrack(raw, base, done, OpenData, h) && h.at + h.len <= |raw| && n.at == h.at + h.len && (n.masked ==> n.mask != [])
    ensures OnTrack(raw, base, done + [MessageOf(raw, h)], if h.opcode == WS_OP_CLOSE then Closing else Open, n)
  {
    var state := if h.opcode == WS_OP_CLOSE then Closing else Open;
    forall more: seq<Byte> ensures Track(raw + more, base, done + [MessageOf(raw, h)], state, n) {
      assert Track(raw + more, base, done, OpenData, h);
      MessageStays(raw, more, h);
      AfterPayload(raw + more, base, done, h, n);
    }
  }

  /** A parser that can go no further has dispatched everything there is. */
  lemma AllTaken(raw: seq<Byte>, base: nat, done: seq<Message>, state: State, h: Head)
    requires OnTrack(raw, base, done, state, h) && Coming(raw, state, h) == []
    ensures Messages(raw, base) == done
  {
    assert raw + [] == raw;
    assert Track(raw + [], base, done, state, h);
  }

  /** Whatever arrives, the messages dispatched are the first ones of the whole. */
  lemma FirstTaken(raw: seq<Byte>, base: nat, done: seq<Message>, state: State, h: Head, more: seq<Byte>)
    requires OnTrack(raw, base, done, state, h)
    ensures done <= Messages(raw + more, base)
  {
    assert Track(raw + more, base, done, state, h);
  }

  // ----- where the payloads are -----

  /** The payload of a message is what a log has at its offset, before `end`. */
  predicate Lies(m: Message, log: seq<Byte>, end: nat)
  {
    m.at + |m.payload| <= end <= |log| && log[m.at..m.at + |m.payload|] == m.payload
  }

  ghost predicate InLog(ms: seq<Message>, log: seq<Byte>, end: nat)
  {
    true == (end <= |log| && forall i :: 0 <= i < |ms| ==> Lies(ms[i], log, end))
  }

  lemma InLogStays(ms: seq<Message>, log: seq<Byte>, log': seq<Byte>, end: nat, end': nat)
    requires InLog(ms, log, end) && end <= end' <= |log'| && log'[..end] == log[..end]
    ensures InLog(ms, log', end')
  {
    forall i | 0 <= i < |ms| ensures Lies(ms[i], log', end') {
      var m := ms[i];
      assert Lies(m, log, end);
      assert log'[..end][m.at..m.at + |m.payload|] == log'[m.at..m.at + |m.payload|];
      assert log[..end][m.at..m.at + |m.payload|] == log[m.at..m.at + |m.payload|];
    }
  }

  lemma InLogWith(ms: seq<Message>, m: Message, log: seq<Byte>, end: nat, end': nat)
    requires InLog(ms, log, end) && end <= end' && Lies(m, log, end')
    ensures InLog(ms + [m], log, end')
  {
    InLogStays(ms, log, log, end, end');
  }

  // ----- unmasking in read-only pages -----

  /** Handling the message stores into the log. */
  predicate Stores(m: Message) { m.unmasked && m.payload != [] }

  /** One log is the other with `n` bytes from `at` on XORed with the repeated mask, from its first byte on, if `xored`. */
  ghost predicate XoredAt(log: seq<Byte>, log': seq<Byte>, at: nat, n: nat, mask: seq<Byte>, xored: bool)
  {
    true == (
      && |log'| == |log| && (xored ==> mask != [])
      && forall i :: 0 <= i < |log| ==> log'[i] == if xored && at <= i < at + n then log[i] ^ mask[(i - at) % |mask|] else log[i])
  }

  /** Taking a payload leaves those taken before where they were, and its own where it is, unmasked if that was asked for. */
  lemma MessageTaken(raw: seq<Byte>, log: seq<Byte>, log': seq<Byte>, h: Head, done: seq<Message>, readOnly: bool, fault: bool)
    requires (h.masked ==> h.mask != []) && h.at + h.len <= |raw| && h.at + h.len <= |log|
    requires log[h.at..h.at + h.len] == raw[h.at..h.at + h.len] && InLog(done, log, h.at)
    requires XoredAt(log, log', h.at, h.len, h.mask, Unmasks(h) && !fault) && (fault <==> readOnly && Unmasks(h) && h.len > 0)
    ensures var m := MessageOf(raw, h);
            (fault <==> readOnly && Stores(m)) && InLog(if fault then done else done + [m], log', h.at + h.len)
  {
    var m, end := MessageOf(raw, h), h.at + h.len;
    assert log'[..h.at] == log[..h.at] && |m.payload| == h.len;
    InLogStays(done, log, log', h.at, end);
    if !fault {
      PayloadLies(log, log', h, m.payload);
      InLogWith(done, m, log', end, end);
    }
  }

  lemma PayloadLies(log: seq<Byte>, log': seq<Byte>, h: Head, payload: seq<Byte>)
    requires (h.masked ==> h.mask != []) && h.at + h.len <= |log| && XoredAt(log, log', h.at, h.len, h.mask, Unmasks(h))
    requires var s := log[h.at..h.at + h.len]; payload == if Unmasks(h) then Xor(s, h.mask) else s
    ensures log'[h.at..h.at + h.len] == payload
  {
    var s := log'[h.at..h.at + h.len];
    forall k | 0 <= k < h.len ensures s[k] == payload[k] { assert (h.at + k) - h.at == k; }
  }

  ghost predicate NoneStores(ms: seq<Message>) { forall i :: 0 <= i < |ms| ==> !Stores(ms[i]) }

  /** The messages that can be handled: with read-only pages those before the first that stores. */
  function Spared(ms: seq<Message>, readOnly: bool): (s: seq<Message>)
    ensures s <= ms
  {
    if ms == [] || (readOnly && Stores(ms[0])) then [] else [ms[0]] + Spared(ms[1..], readOnly)
  }

  /** All of them can exactly when pages can be stored into or no message stores. */
  lemma {:induction false} AllSparedExactlyWhen(ms: seq<Message>, readOnly: bool)
    ensures Spared(ms, readOnly) == ms <==> !readOnly || NoneStores(ms)
  {
    if ms != [] {
      AllSparedExactlyWhen(ms[1..], readOnly);
      if NoneStores(ms) { assert forall i :: 0 <= i < |ms[1..]| ==> ms[1..][i] == ms[i + 1]; }
      if readOnly && NoneStores(ms[1..]) && !Stores(ms[0]) { assert forall i :: 0 < i < |ms| ==> ms[i] == ms[1..][i - 1]; }
    }
  }

  /** `done` is what comes before the first message that stores. */
  ghost predicate CutAt(ms: seq<Message>, done: seq<Message>)
  {
    |done| < |ms| && done == ms[..|done|] && NoneStores(done) && Stores(ms[|done|])
  }

  lemma {:induction false} SparedUpTo(ms: seq<Message>, done: seq<Message>)
    requires CutAt(ms, done)
    ensures Spared(ms, true) == done
  {
    if done != [] {
      assert ms[1..][|done| - 1] == ms[|done|] && ms[0] == done[0];
      assert forall i :: 0 <= i < |done[1..]| ==> done[1..][i] == done[i + 1];
      SparedUpTo(ms[1..], done[1..]);
    }
  }

  /** Whatever arrives, the next message of the whole is one that stores. */
  ghost predicate StoreNext(raw: seq<Byte>, base: nat, done: seq<Message>)
  {
    true == (forall more: seq<Byte> :: CutAt(Messages(raw + more, base), done))
  }

  lemma StoreAhead(raw: seq<Byte>, base: nat, done: seq<Message>, h: Head)
    requires OnTrack(raw, base, done, OpenData, h) && h.at + h.len <= |raw| && NoneStores(done)
    requires Unmasks(h) && h.len > 0
    ensures StoreNext(raw, base, done)
  {
    forall more: seq<Byte> ensures CutAt(Messages(raw + more, base), done) {
      assert Track(raw + more, base, done, OpenData, h);
      assert |MessageOf(raw + more, h).payload| == h.len;
    }
  }

  /** A payload that is complete is taken, or is the one to fault at. */
  lemma TakenOrAhead(raw: seq<Byte>, base: nat, done: seq<Message>, h: Head, n: Head, readOnly: bool, fault: bool)
    requires OnTrack(raw, base, done, OpenData, h) && h.at + h.len <= |raw| && n.at == h.at + h.len && (n.masked ==> n.mask != [])
    requires (readOnly ==> NoneStores(done)) && (fault <==> readOnly && Stores(MessageOf(raw, h)))
    ensures var done' := done + [MessageOf(raw, h)];
            if fault then StoreNext(raw, base, done)
            else (readOnly ==> NoneStores(done')) && OnTrack(raw, base, done', if h.opcode == WS_OP_CLOSE then Closing else Open, n)
  {
    if fault { StoreAhead(raw, base, done, h); } else { PayloadTaken(raw, base, done, h, n); }
  }

  lemma AllTakenForGood(raw: seq<Byte>, base: nat, done: seq<Message>, state: State, h: Head, more: seq<Byte>)
    requires OnTrack(raw, base, done, state, h) && (state.Closing? || state.Closed?)
    ensures Messages(raw + more, base) == done
  {
    assert Track(raw + more, base, done, state, h);
  }
}
