/** Sequence vocabulary shared by the buffer and the paged log. */
module Sequences {

  /** A byte of a buffer, a page or a frame. */
  type Byte = bv8

  datatype Option<T> = None | Some(value: T)

  /** What the kernel answers to a read: a negative code, or the elements it delivered. */
  datatype ReadReply<T> = Failed(code: int) | Got(bytes: seq<T>)

  function Max(a: nat, b: nat): nat { if a < b then b else a }

  function Min(a: nat, b: nat): nat { if a < b then a else b }

  ghost predicate Distinct<T>(s: seq<T>) { forall i, j :: 0 <= i < j < |s| ==> s[i] != s[j] }

  /** The first `n` elements, as far as there are any. */
  function Prefix<T>(s: seq<T>, n: nat): (r: seq<T>) { if |s| <= n then s else s[..n] }

  /** Overwriting the elements of `data` from `at` on with `src`: what a `memcpy` leaves. */
  function Splice<T>(data: seq<T>, at: nat, src: seq<T>): (s: seq<T>)
    requires at + |src| <= |data|
    ensures |s| == |data|
  {
    data[..at] + src + data[at + |src|..]
  }

  lemma SpliceSame<T>(data: seq<T>, at: nat, n: nat)
    requires at + n <= |data|
    ensures Splice(data, at, data[at..at + n]) == data
  {
  }

  lemma TakeSplit<T>(q: seq<T>, i: nat, n: nat)
    requires i <= n <= |q|
    ensures q[..n] == q[..i] + q[i..n]
  {
  }

  /** The sequence without its element at `i`. */
  function RemoveAt<T>(s: seq<T>, i: nat): (r: seq<T>)
    requires i < |s|
    ensures |r| == |s| - 1
  {
    s[..i] + s[i + 1..]
  }

  lemma Regroup<T>(a: seq<T>, b: seq<T>, c: seq<T>)
    ensures a + (b + c) == (a + b) + c
  {
  }

  lemma XorCancels(a: Byte, b: Byte)
    ensures (a ^ b) ^ b == a
  {
  }
}
