/** Integers as bytes, in both byte orders. */
module Words {
  import opened Sequences
  import opened Pages

  function ToByte(n: nat): (b: Byte)
    requires n < 256
    ensures FromByte(b) == n
  {
    assert n == n % 256 && FromByte((n % 256) as bv8) == n;
    n as bv8
  }

  function FromByte(b: Byte): (n: nat)
    ensures n < 256
  {
    b as int
  }

  function Pow256(k: nat): (n: nat)
    ensures n > 0
  {
    if k == 0 then 1 else 256 * Pow256(k - 1)
  }

  /** The `k` low bytes of `n`, the most significant first (network byte order). */
  function BigEndian(n: nat, k: nat): (s: seq<Byte>)
    ensures |s| == k
  {
    if k == 0 then [] else BigEndian(n / 256, k - 1) + [ToByte(n % 256)]
  }

  function FromBigEndian(s: seq<Byte>): (n: nat)
  {
    if s == [] then 0 else FromBigEndian(s[..|s| - 1]) * 256 + FromByte(s[|s| - 1])
  }

  /** The byte at `i` of a word in network byte order, by its weight. */
  lemma {:induction false} BigEndianAt(n: nat, k: nat, i: nat)
    requires i < k
    ensures FromByte(BigEndian(n, k)[i]) == n / Pow256(k - 1 - i) % 256
  {
    if i < k - 1 {
      BigEndianAt(n / 256, k - 1, i);
      DivideTwice(n, Pow256(k - 2 - i));
    }
  }

  lemma DivideTwice(n: nat, p: nat)
    requires p > 0
    ensures n / 256 / p == n / (256 * p)
  {
    var q := n / 256;
    Quotient(q, p);
    assert n == q / p * (256 * p) + (256 * (q % p) + n % 256);
    UniqueQuotient(n, 256 * p, q / p, 256 * (q % p) + n % 256);
  }

  /** The last byte counts once, those before it 256 times as much. */
  lemma {:induction false} OneByteMore(s: seq<Byte>, k: nat)
    requires k < |s|
    ensures FromBigEndian(s[..k + 1]) == 256 * FromBigEndian(s[..k]) + FromByte(s[k])
  {
    assert s[..k + 1][..k] == s[..k];
  }

  /** What two bytes in network byte order say. */
  lemma {:induction false} TwoBytes(s: seq<Byte>)
    requires |s| == 2
    ensures FromBigEndian(s) == 256 * FromByte(s[0]) + FromByte(s[1])
  {
    assert s[..2] == s;
    OneByteMore(s, 0);
    OneByteMore(s, 1);
  }

  /** What eight bytes in network byte order say. */
  lemma {:induction false} EightBytes(s: seq<Byte>)
    requires |s| == 8
    ensures FromBigEndian(s)
            == 0x100_0000_0000_0000 * FromByte(s[0]) + 0x1_0000_0000_0000 * FromByte(s[1]) + 0x100_0000_0000 * FromByte(s[2]) + 0x1_0000_0000 * FromByte(s[3])
               + 0x100_0000 * FromByte(s[4]) + 0x1_0000 * FromByte(s[5]) + 0x100 * FromByte(s[6]) + FromByte(s[7])
  {
    FirstBytes(s);
    LastBytes(s);
  }

  lemma {:induction false} LastBytes(s: seq<Byte>)
    requires |s| == 8
    ensures FromBigEndian(s)
            == 0x1_0000_0000 * FromBigEndian(s[..4]) + 0x100_0000 * FromByte(s[4]) + 0x1_0000 * FromByte(s[5]) + 0x100 * FromByte(s[6]) + FromByte(s[7])
  {
    assert s[..8] == s;
    OneByteMore(s, 4);
    OneByteMore(s, 5);
    OneByteMore(s, 6);
    OneByteMore(s, 7);
  }

  lemma {:induction false} FirstBytes(s: seq<Byte>)
    requires |s| == 8
    ensures FromBigEndian(s[..4]) == 0x100_0000 * FromByte(s[0]) + 0x1_0000 * FromByte(s[1]) + 0x100 * FromByte(s[2]) + FromByte(s[3])
  {
    OneByteMore(s, 0);
    OneByteMore(s, 1);
    OneByteMore(s, 2);
    OneByteMore(s, 3);
  }

  /** The `k` low bytes of `n`, the least significant first. */
  function LittleEndian(n: nat, k: nat): (s: seq<Byte>)
    ensures |s| == k
  {
    if k == 0 then [] else [ToByte(n % 256)] + LittleEndian(n / 256, k - 1)
  }

  function FromLittleEndian(s: seq<Byte>): (n: nat)
  {
    if s == [] then 0 else FromByte(s[0]) + 256 * FromLittleEndian(s[1..])
  }

  lemma {:induction false} BigEndianRoundTrip(n: nat, k: nat)
    requires n < Pow256(k)
    ensures FromBigEndian(BigEndian(n, k)) == n
  {
    if k > 0 {
      BigEndianRoundTrip(n / 256, k - 1);
      assert BigEndian(n, k)[..k - 1] == BigEndian(n / 256, k - 1);
    }
  }

  lemma {:induction false} LittleEndianRoundTrip(n: nat, k: nat)
    requires n < Pow256(k)
    ensures FromLittleEndian(LittleEndian(n, k)) == n
  {
    if k > 0 {
      LittleEndianRoundTrip(n / 256, k - 1);
      assert LittleEndian(n, k)[1..] == LittleEndian(n / 256, k - 1);
    }
  }

  /** The byte at `i` of a word with the least significant byte first, by its weight. */
  lemma {:induction false} LittleEndianAt(n: nat, k: nat, i: nat)
    requires i < k
    ensures FromByte(LittleEndian(n, k)[i]) == n / Pow256(i) % 256
  {
    if i > 0 {
      LittleEndianAt(n / 256, k - 1, i - 1);
      DivideTwice(n, Pow256(i - 1));
    }
  }

  lemma NoHighByte(n: nat, p: nat, q: nat)
    requires n < 256 && p == 256 * q && q > 0
    ensures n / p == 0
  {
    assert p >= 256;
    UniqueQuotient(n, p, 0, n);
  }

  lemma {:induction false} OneByteOn(s: seq<Byte>, k: nat)
    requires k < |s|
    ensures FromLittleEndian(s[k..]) == FromByte(s[k]) + 256 * FromLittleEndian(s[k + 1..])
  {
    assert s[k..][1..] == s[k + 1..];
  }

  /** What eight bytes say when the least significant is the first. */
  lemma {:induction false} EightLittleBytes(s: seq<Byte>)
    requires |s| == 8
    ensures FromLittleEndian(s)
            == FromByte(s[0]) + 0x100 * FromByte(s[1]) + 0x1_0000 * FromByte(s[2]) + 0x100_0000 * FromByte(s[3])
               + 0x1_0000_0000 * FromByte(s[4]) + 0x100_0000_0000 * FromByte(s[5]) + 0x1_0000_0000_0000 * FromByte(s[6]) + 0x100_0000_0000_0000 * FromByte(s[7])
  {
    assert s[0..] == s;
    OneByteOn(s, 0);
    OneByteOn(s, 1);
    OneByteOn(s, 2);
    OneByteOn(s, 3);
    LastLittleBytes(s);
  }

  lemma {:induction false} LastLittleBytes(s: seq<Byte>)
    requires |s| == 8
    ensures FromLittleEndian(s[4..]) == FromByte(s[4]) + 0x100 * FromByte(s[5]) + 0x1_0000 * FromByte(s[6]) + 0x100_0000 * FromByte(s[7])
  {
    OneByteOn(s, 4);
    OneByteOn(s, 5);
    OneByteOn(s, 6);
    OneByteOn(s, 7);
  }

  lemma {:induction false} ZerosAreZero(k: nat)
    ensures FromLittleEndian(seq(k, _ => 0)) == 0
  {
    if k > 0 {
      ZerosAreZero(k - 1);
      assert seq<Byte>(k, _ => 0)[1..] == seq(k - 1, _ => 0);
    }
  }

  lemma WordSizes()
    ensures Pow256(0) == 1 && Pow256(1) == 0x100 && Pow256(2) == 0x1_0000 && Pow256(3) == 0x100_0000 && Pow256(4) == 0x1_0000_0000
    ensures Pow256(5) == 0x100_0000_0000 && Pow256(6) == 0x1_0000_0000_0000 && Pow256(7) == 0x100_0000_0000_0000
    ensures Pow256(8) == 0x1_0000_0000_0000_0000
  {
    assert Pow256(4) == 0x1_0000_0000;
  }
}
