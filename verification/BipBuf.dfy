/**
  The circular byte buffer of src/main/buf/buf.h.

  `BipBuf` keeps the source's four pieces of state: the storage, the write index
  `head`, the read index `tail` and the `full` flag that tells "full" from "empty"
  when the two indices meet.  `Contents()` is the queue the buffer stands for, and
  every operation is specified by what it does to that queue.

  Two invariants are used.  `Valid()` is what every operation keeps; it allows an
  index to sit at the end of the storage, the state `Readv` and `Read` leave behind.
  `Tight()` adds that both indices are below the capacity, which is what the
  operations that store through `head` need.
 */
module BipBuffer {
  import opened Sequences

  /** A run of cells of the storage, given by its first index and its length. */
  datatype Run = Run(base: nat, len: nat)

  /** How many cells are queued on a ring of `cap` cells. */
  function Count(cap: nat, head: nat, tail: nat, full: bool): nat
    requires head <= cap && tail <= cap
  {
    if head > tail then head - tail
    else if head == tail && !full then 0
    else cap - (tail - head)
  }

  /** The queue that storage, indices and flag stand for: cells from `tail` on, round the ring. */
  function Window<T>(data: seq<T>, head: nat, tail: nat, full: bool): (q: seq<T>)
    requires head <= |data| && tail <= |data|
  {
    seq(Count(|data|, head, tail, full), i requires 0 <= i < Count(|data|, head, tail, full) =>
      if tail + i < |data| then data[tail + i] else data[tail + i - |data|])
  }

  /** `n` cells read cyclically, ending just before `end`. */
  function CyclicBefore<T>(data: seq<T>, end: nat, n: nat): (s: seq<T>)
    requires end <= |data| && n <= |data|
    ensures |s| == n
  {
    if n <= end then data[end - n..end] else data[|data| - (n - end)..] + data[..end]
  }

  /** All the cells of the storage in ring order, the oldest first: the last one is just before `head`. */
  function Rotation<T>(data: seq<T>, head: nat): (s: seq<T>)
    requires head <= |data|
    ensures |s| == |data|
  {
    data[head..] + data[..head]
  }

  /** Two copies, one behind the other, from the start of a destination. */
  lemma SpliceTwice<T>(dest: seq<T>, a: seq<T>, b: seq<T>)
    requires |a| + |b| <= |dest|
    ensures Splice(Splice(dest, 0, a), |a|, b) == a + b + dest[|a| + |b|..]
  {
    var s := Splice(dest, 0, a);
    assert s[..|a|] == a;
    assert s[|a| + |b|..] == dest[|a| + |b|..];
  }

  /** The index that follows `i` on a ring of `cap` cells. */
  function Wrap(i: nat, cap: nat): nat { if i == cap then 0 else i }

  /** `head` after `n` cells were stored, past the end of the storage if need be. */
  function HeadAfter(cap: nat, head: nat, n: nat): int { if head + n < cap then head + n else head + n - cap }

  /** Moving `tail` over the first `x` queued cells, all of them in one run, dequeues them. */
  lemma DropRun<T>(data: seq<T>, head: nat, tail: nat, full: bool, x: nat)
    requires 0 < |data| && head <= |data| && tail <= |data| && (full ==> head == tail)
    requires x <= if tail > head || full then |data| - tail else head - tail
    requires x > 0 || tail == |data|
    ensures tail + x <= |data| && x <= |Window(data, head, tail, full)|
    ensures Window(data, head, tail, full)[..x] == data[tail..tail + x]
    ensures var t := if tail > head || full then Wrap(tail + x, |data|) else tail + x;
            t <= |data| && Window(data, head, t, false) == Window(data, head, tail, full)[x..]
  {
  }

  /** The queue is its first `x` cells, when they lie in the run to the end of the storage, and what is then left. */
  lemma FirstLeaves<T>(data: seq<T>, head: nat, tail: nat, full: bool, x: nat)
    requires 0 < |data| && head <= |data| && tail <= |data| && (full ==> head == tail) && (tail > head || full)
    requires x <= |data| - tail && (x > 0 || tail == |data|)
    ensures Window(data, head, tail, full) == data[tail..tail + x] + Window(data, head, Wrap(tail + x, |data|), false)
    ensures x == |data| - tail ==> Wrap(tail + x, |data|) == 0
  {
    DropRun(data, head, tail, full, x);
    var q := Window(data, head, tail, full);
    TakeSplit(q, x, |q|);
  }

  /** How many of the first `size` queued cells lie in the run that ends at the end of the storage. */
  function FirstRun(cap: nat, head: nat, tail: nat, full: bool, size: nat): nat
    requires tail <= cap
  {
    if !(tail > head || full) then 0 else if size < cap - tail then size else cap - tail
  }

  /** Where `tail` is after the first of the two steps of dequeuing `size` cells. */
  function TailAfterFirst(cap: nat, head: nat, tail: nat, full: bool, size: nat): nat
    requires tail <= cap
  {
    if tail > head || full then Wrap(tail + FirstRun(cap, head, tail, full, size), cap) else tail
  }

  /**
    Dequeuing `size` cells in the source's two steps: the run up to the end of the storage,
    after which `tail` wraps, and then the run that starts at the new `tail`.
   */
  lemma TwoRuns<T>(data: seq<T>, head: nat, tail: nat, full: bool, size: nat)
    requires 0 < |data| && head <= |data| && tail <= |data| && (full ==> head == tail)
    requires 0 < size <= |Window(data, head, tail, full)|
    ensures var x := FirstRun(|data|, head, tail, full, size);
            var t := TailAfterFirst(|data|, head, tail, full, size);
            && x <= size && tail + x <= |data| && t + (size - x) <= |data|
            && Window(data, head, tail, full)[..x] == data[tail..tail + x]
            && Window(data, head, tail, full)[x..size] == data[t..t + (size - x)]
            && Window(data, head, t, false) == Window(data, head, tail, full)[x..]
            && Window(data, head, t + (size - x), false) == Window(data, head, tail, full)[size..]
  {
    var x := FirstRun(|data|, head, tail, full, size);
    var t := TailAfterFirst(|data|, head, tail, full, size);
    if x > 0 || tail == |data| { DropRun(data, head, tail, full, x); }
    if x < size { DropTwice(data, head, t, Window(data, head, tail, full), x, size); } else { assert x == size; }
  }

  /** The second step: `q` is the queue before the first one took `x` cells. */
  lemma DropTwice<T>(data: seq<T>, head: nat, t: nat, q: seq<T>, x: nat, size: nat)
    requires head <= |data| && t <= head && x < size <= |q| && Window(data, head, t, false) == q[x..]
    ensures t + (size - x) <= head && q[x..size] == data[t..t + (size - x)]
    ensures Window(data, head, t + (size - x), false) == q[size..]
  {
    DropRun(data, head, t, false, size - x);
    assert q[x..][..size - x] == q[x..size];
    assert q[x..][size - x..] == q[size..];
  }

  /** The first `size` queued cells are the two runs, one behind the other. */
  lemma PrefixIsTwoRuns<T>(data: seq<T>, head: nat, tail: nat, full: bool, size: nat)
    requires 0 < |data| && head <= |data| && tail <= |data| && (full ==> head == tail)
    requires 0 < size <= |Window(data, head, tail, full)|
    ensures var x := FirstRun(|data|, head, tail, full, size);
            var t := TailAfterFirst(|data|, head, tail, full, size);
            && x <= size && tail + x <= |data| && t + (size - x) <= |data|
            && Window(data, head, tail, full)[..size] == data[tail..tail + x] + data[t..t + (size - x)]
  {
    TwoRuns(data, head, tail, full, size);
    TakeSplit(Window(data, head, tail, full), FirstRun(|data|, head, tail, full, size), size);
  }

  /** The copies of a peeking `Pop`. */
  lemma PeekIsTwoRuns<T>(data: seq<T>, head: nat, tail: nat, full: bool, size: nat)
    requires 0 < |data| && head <= |data| && tail <= |data| && (full ==> head == tail)
    requires 0 < size <= |Window(data, head, tail, full)|
    ensures var x := FirstRun(|data|, head, tail, full, size);
            && x <= size && tail + x <= |data| && size - x <= |data|
            && PeekCopy(data, head, tail, full, size) == data[tail..tail + x] + data[..size - x]
  {
    PrefixIsTwoRuns(data, head, tail, full, size);
  }

  /** Moving `tail` back over `n` free cells puts those cells in front of the queue. */
  lemma UnreadRun<T>(data: seq<T>, head: nat, tail: nat, n: nat)
    requires 0 < |data| && head <= |data| && tail <= |data|
    requires 0 < n <= |data| - Count(|data|, head, tail, false)
    ensures var t := if n <= tail then tail - n else |data| - (n - tail);
            Window(data, head, t, t == head) == CyclicBefore(data, tail, n) + Window(data, head, tail, false)
  {
  }

  /** Where a write of `n` gathered cells leaves `tail`: past the end of the storage it restarts. */
  function TailAfter(cap: nat, head: nat, tail: nat, n: nat): nat
    requires tail <= cap
  {
    var x := cap - tail;
    Wrap(if head > tail || n <= x then tail + n else n - x, cap)
  }

  /**
    What a write of the first `n` queued cells leaves.  When all of them go while `head` is at
    the end of the storage, `tail` follows it there and wraps alone: every cell is queued again.
   */
  lemma SentLeaves<T>(data: seq<T>, head: nat, tail: nat, full: bool, n: nat)
    requires head <= |data| && tail <= |data| && (full ==> head == tail)
    requires n <= Count(|data|, head, tail, full) && 0 < Count(|data|, head, tail, full)
    ensures var q, t, alone := Window(data, head, tail, full), TailAfter(|data|, head, tail, n), head == |data| && 0 < n == Count(|data|, head, tail, full);
            && t <= |data| && (|data| > 0 ==> t < |data|)
            && (full && n == 0 && head < |data| ==> t == tail)
            && (head < |data| || n > 0 || !full ==> (q == q[..n] + Window(data, head, t, full && n == 0) <==> !alone))
            && (alone ==> Window(data, head, t, false) == data)
            && (full && n == 0 && head == |data| ==> t == 0 && Window(data, head, t, true) == q)
  {
    var q, t := Window(data, head, tail, full), TailAfter(|data|, head, tail, n);
    if head == |data| && n == |q| {
      assert Window(data, head, t, false) == data;
    } else if head < |data| || n > 0 || !full {
      assert Window(data, head, t, full && n == 0) == q[n..];
      assert q == q[..n] + q[n..];
    }
  }

  /**
    A full buffer whose `tail` alone has wrapped from the end of the storage still queues every
    cell.  Dequeuing some of them leaves the others; dequeuing all at once wraps `tail` again
    and queues every cell again.
   */
  lemma AfterFlagStays<T>(data: seq<T>, size: nat)
    requires 0 < size <= |data|
    ensures var cap := |data|;
            var t := TailAfterFirst(cap, cap, 0, true, size) + (size - FirstRun(cap, cap, 0, true, size));
            && Window(data, cap, 0, true) == Window(data, cap, cap, true) == data
            && Window(data, cap, t, false) == if size < cap then data[size..] else data
  {
  }

  /** Filling cells from `head` on pushes the oldest cells out of the ring. */
  lemma RotateFill<T>(data: seq<T>, head: nat, src: seq<T>)
    requires head + |src| <= |data|
    ensures var s, h := Splice(data, head, src), head + |src|;
            && Rotation(s, h) == Rotation(data, head)[|src|..] + src
            && Rotation(s, Wrap(h, |data|)) == Rotation(data, head)[|src|..] + src
  {
    var s, h := Splice(data, head, src), head + |src|;
    assert s[h..] == data[h..] && s[..h] == data[..head] + src;
    assert Rotation(data, head)[|src|..] == data[h..] + data[..head];
    assert Rotation(s, |data|) == s && Rotation(s, 0) == s;
  }

  /** Pushing `a` and then `b` through a ring is pushing `a + b`. */
  lemma PushTwice<T>(r: seq<T>, a: seq<T>, b: seq<T>)
    requires |a| + |b| <= |r|
    ensures (r[|a|..] + a)[|b|..] + b == r[|a| + |b|..] + (a + b)
  {
  }

  /** `RotateFill` for a fill that goes round: `a` up to the end of the storage, `b` from its start. */
  lemma RotateRound<T>(data: seq<T>, head: nat, a: seq<T>, b: seq<T>)
    requires head <= |data| && |a| == |data| - head && |b| <= head
    ensures Rotation(Splice(Splice(data, head, a), 0, b), |b|) == Rotation(data, head)[|a| + |b|..] + (a + b)
  {
    RotateFill(data, head, a);
    RotateFill(Splice(data, head, a), 0, b);
    PushTwice(Rotation(data, head), a, b);
  }

  /** The queue is the newest part of the ring. */
  lemma WindowIsNewest<T>(data: seq<T>, head: nat, tail: nat, full: bool)
    requires head <= |data| && tail <= |data| && (full ==> head == tail)
    ensures var n := Count(|data|, head, tail, full);
            n <= |data| && Window(data, head, tail, full) == Rotation(data, head)[|data| - n..]
  {
  }

  /** Whatever pushes `src` through the ring and counts its cells as queued appends it to the queue. */
  lemma AppendByRing<T>(data: seq<T>, head: nat, tail: nat, src: seq<T>, data': seq<T>, head': nat, full': bool)
    requires |data'| == |data| && head <= |data| && tail <= |data| && head' <= |data| && (full' ==> head' == tail)
    requires Count(|data|, head', tail, full') == Count(|data|, head, tail, false) + |src|
    requires |src| <= |data| && Rotation(data', head') == Rotation(data, head)[|src|..] + src
    ensures Window(data', head', tail, full') == Window(data, head, tail, false) + src
  {
    WindowIsNewest(data, head, tail, false);
    WindowIsNewest(data', head', tail, full');
    var r, n := Rotation(data, head), Count(|data|, head, tail, false);
    assert (r[|src|..] + src)[|data| - n - |src|..] == r[|data| - n..] + src;
  }

  /** Counting the run of free cells at `head` as queued. */
  lemma ClaimRun<T>(data: seq<T>, head: nat, tail: nat, size: nat)
    requires head < |data| && tail < |data| && size == if head >= tail then |data| - head else tail - head
    ensures var h := Wrap(head + size, |data|);
            Window(data, h, tail, h == tail) == Window(data, head, tail, false) + data[head..head + size]
  {
    var run, h := data[head..head + size], Wrap(head + size, |data|);
    RotateFill(data, head, run);
    SpliceSame(data, head, size);
    AppendByRing(data, head, tail, run, data, h, h == tail);
  }

  lemma RotationAt<T>(data: seq<T>, head: nat, i: nat)
    requires head <= |data| && i < |data|
    ensures Rotation(data, head)[i] == data[if i < |data| - head then head + i else i - (|data| - head)]
  {
  }

  lemma CyclicAt<T>(data: seq<T>, end: nat, n: nat, i: nat)
    requires end <= |data| && i < n <= |data|
    ensures CyclicBefore(data, end, n)[i] == data[if n <= end + i then end + i - n else |data| + end + i - n]
  {
  }

  /** The cells an un-read brings back are the newest ones that are not queued. */
  lemma BeforeIsRing<T>(data: seq<T>, head: nat, tail: nat, n: nat)
    requires head <= |data| && tail <= |data|
    requires n <= |data| - Count(|data|, head, tail, false)
    ensures var f := |data| - Count(|data|, head, tail, false);
            CyclicBefore(data, tail, n) == Rotation(data, head)[f - n..f]
  {
    var f := |data| - Count(|data|, head, tail, false);
    forall i: nat | i < n ensures CyclicBefore(data, tail, n)[i] == Rotation(data, head)[f - n + i] {
      CellBefore(data, head, tail, n, i);
    }
  }

  lemma CellBefore<T>(data: seq<T>, head: nat, tail: nat, n: nat, i: nat)
    requires head <= |data| && tail <= |data|
    requires i < n <= |data| - Count(|data|, head, tail, false)
    ensures CyclicBefore(data, tail, n)[i] == Rotation(data, head)[|data| - Count(|data|, head, tail, false) - n + i]
  {
    CyclicAt(data, tail, n, i);
    RotationAt(data, head, |data| - Count(|data|, head, tail, false) - n + i);
  }

  class BipBuf<T(==)> {
    var head: nat
    var tail: nat
    var full: bool
    const data: array<T>

    constructor (data: array<T>)
      requires data.Length > 0
      ensures this.data == data && Valid() && Tight() && Contents() == []
    {
      this.data := data;
      head, tail, full := 0, 0, false;
    }

    ghost predicate Valid()
      reads this
    {
      && 0 < data.Length
      && head <= data.Length && tail <= data.Length
      && (full ==> head == tail)
      && (tail == data.Length ==> head > 0)
    }

    predicate Tight()
      reads this
    {
      head < data.Length && tail < data.Length
    }

    ghost function Contents(): (q: seq<T>)
      requires Valid()
      reads this, data
    {
      Window(data[..], head, tail, full)
    }

    /** Every cell, oldest first; the queue is the newest part (`WindowIsNewest`). */
    ghost function Ring(): (s: seq<T>)
      requires Valid()
      reads this, data
    {
      Rotation(data[..], head)
    }

    function Available(): (n: nat)
      requires Valid()
      reads this, data
      ensures n == |Contents()|
    {
      if full then data.Length
      else if head >= tail then head - tail
      else data.Length - (tail - head)
    }

    function Free(): (n: nat)
      requires Valid()
      reads this, data
      ensures n + |Contents()| == data.Length
    {
      data.Length - Available()
    }

    predicate IsEmpty()
      requires Valid()
      reads this, data
      ensures IsEmpty() <==> Contents() == []
    {
      head == tail && !full
    }

    method Peak(offset: nat) returns (ok: bool, d: T)
      requires Valid()
      ensures ok <==> offset < |Contents()|
      ensures ok ==> d == Contents()[offset]
    {
      if offset >= Available() { return false, data[0]; }
      if head > tail {
        d := data[tail + offset];
      } else if offset < data.Length - tail {
        d := data[tail + offset];
      } else {
        d := data[offset - (data.Length - tail)];
      }
      ok := true;
    }

    /** The first position of `d` in the queue; (false, 0) when it does not occur. */
    method Find(d: T) returns (found: bool, offset: nat)
      requires Valid()
      ensures found <==> d in Contents()
      ensures found ==> offset < |Contents()| && Contents()[offset] == d && d !in Contents()[..offset]
      ensures !found ==> offset == 0
    {
      offset := 0;
      if IsEmpty() { return false, 0; }
      ghost var q := Contents();
      if head > tail {
        var x := tail;
        while x < head
          invariant tail <= x <= head && offset == x - tail
          invariant d !in q[..offset]
        {
          assert q[offset] == data[x];
          if data[x] == d { return true, offset; }
          x, offset := x + 1, offset + 1;
        }
      } else {
        var x := tail;
        while x < data.Length
          invariant tail <= x <= data.Length && offset == x - tail
          invariant d !in q[..offset]
        {
          assert q[offset] == data[x];
          if data[x] == d { return true, offset; }
          x, offset := x + 1, offset + 1;
        }
        x := 0;
        while x < head
          invariant 0 <= x <= head && offset == data.Length - tail + x
          invariant d !in q[..offset]
        {
          assert q[offset] == data[x];
          if data[x] == d { return true, offset; }
          x, offset := x + 1, offset + 1;
        }
      }
      assert q[..offset] == q;
      return false, 0;
    }

    method Push(d: T) returns (ok: bool)
      requires Valid() && Tight()
      modifies this`head, this`full, data
      ensures Valid() && Tight()
      ensures ok <==> |old(Contents())| < data.Length
      ensures Contents() == if ok then old(Contents()) + [d] else old(Contents())
      ensures Ring() == if ok then old(Ring())[1..] + [d] else old(Ring())
    {
      if full { return false; }
      Fill([d]);
      full := head == tail;
      AppendByRing(old(data[..]), old(head), tail, [d], data[..], head, full);
      ok := true;
    }

    /** `memcpy` of `src` to the free cells at `head`, and the advance of `head` past them. */
    method Fill(src: seq<T>)
      requires 0 < |src| && Tight()
      requires head + |src| <= if head >= tail then data.Length else tail
      modifies this`head, data
      ensures Tight()
      ensures head == Wrap(old(head) + |src|, data.Length)
      ensures Rotation(data[..], head) == old(Rotation(data[..], head))[|src|..] + src
    {
      RotateFill(data[..], head, src);
      forall k | 0 <= k < |src| { data[head + k] := src[k]; }
      assert data[..] == Splice(old(data[..]), head, src);
      head := head + |src|;
      if head == data.Length { head := 0; }
    }

    method PushAll(indata: seq<T>) returns (ok: bool)
      requires Valid() && Tight()
      modifies this`head, this`full, data
      ensures Valid() && Tight()
      ensures ok <==> 0 < |indata| <= data.Length - |old(Contents())|
      ensures Contents() == if ok then old(Contents()) + indata else old(Contents())
      ensures Ring() == if ok then old(Ring())[|indata|..] + indata else old(Ring())
    {
      var size := |indata|;
      if size > data.Length - Available() { return false; }
      if size == 0 || full { return false; }
      PushRuns(indata);
      ok := true;
    }

    /** The copies of a bulk `Push`: up to the end of the storage when the free cells wrap, then the rest. */
    method PushRuns(indata: seq<T>)
      requires Valid() && Tight() && !full && 0 < |indata| <= data.Length - |Contents()|
      modifies this`head, this`full, data
      ensures Valid() && Tight()
      ensures Contents() == old(Contents()) + indata
      ensures Ring() == old(Ring())[|indata|..] + indata
    {
      ghost var d, h := data[..], head;
      FillRuns(indata);
      full := head == tail;
      AppendByRing(d, h, tail, indata, data[..], head, full);
    }

    /** The two copies. */
    method FillRuns(indata: seq<T>)
      requires Tight() && 0 < |indata| <= if head >= tail then data.Length - head + tail else tail - head
      modifies this`head, data
      ensures Tight() && head == HeadAfter(data.Length, old(head), |indata|)
      ensures Rotation(data[..], head) == old(Rotation(data[..], head))[|indata|..] + indata
    {
      var size := |indata|;
      var offset := if head < tail then 0 else if size < data.Length - head then size else data.Length - head;
      PushTwice(Rotation(data[..], head), indata[..offset], indata[offset..]);
      assert indata == indata[..offset] + indata[offset..];
      FillSome(indata[..offset]);
      FillSome(indata[offset..]);
    }

    method FillSome(src: seq<T>)
      requires Tight() && (src == [] || head + |src| <= if head >= tail then data.Length else tail)
      modifies this`head, data
      ensures Tight() && head == Wrap(old(head) + |src|, data.Length)
      ensures Rotation(data[..], head) == old(Rotation(data[..], head))[|src|..] + src
    {
      if src != [] { Fill(src); }
    }

    /** Hands out the run of free cells at `head` for the caller to fill; they count as queued at once. */
    method PushDirect() returns (ok: bool, run: Run)
      requires Valid() && Tight()
      modifies this`head, this`full
      ensures Valid() && Tight()
      ensures ok <==> |old(Contents())| < data.Length
      ensures ok ==> run == Run(old(head), if old(head) >= tail then data.Length - old(head) else tail - old(head))
      ensures ok ==> head == Wrap(run.base + run.len, data.Length) && full == (head == tail)
      ensures ok ==> Contents() == old(Contents()) + data[run.base..run.base + run.len]
      ensures !ok ==> Contents() == old(Contents())
    {
      if full { return false, Run(0, 0); }
      run := Run(head, if head >= tail then data.Length - head else tail - head);
      ok := true;
      Claim(run.len);
    }

    method Claim(size: nat)
      requires Valid() && Tight() && !full
      requires size == if head >= tail then data.Length - head else tail - head
      modifies this`head, this`full
      ensures Valid() && Tight()
      ensures head == Wrap(old(head) + size, data.Length) && full == (head == tail)
      ensures Contents() == old(Contents()) + data[old(head)..old(head) + size]
    {
      ClaimRun(data[..], head, tail, size);
      head := Wrap(head + size, data.Length);
      full := head == tail;
    }

    /** Takes back the last `count` queued cells. */
    method BackupDirect(count: nat) returns (ok: bool)
      requires Valid() && Tight()
      modifies this`head, this`full
      ensures Valid() && Tight()
      ensures ok <==> count <= |old(Contents())|
      ensures Contents() == if ok then old(Contents())[..|old(Contents())| - count] else old(Contents())
      ensures ok ==> head == if count <= old(head) then old(head) - count else data.Length - (count - old(head))
    {
      if count == 0 { assert Contents() == Contents()[..|Contents()|]; return true; }
      if count > Available() { return false; }
      if IsEmpty() { return false; }
      if head > tail {
        head := head - count;
      } else {
        var r := if head < count then head else count;
        head := head - r;
        if count > r { head := data.Length - (count - r); }
      }
      full := false;
      ok := true;
    }

    /**
      Copies the first `size` queued cells to `dest`.  When `peek` is set nothing is
      dequeued, and what is copied is `PeekCopy`, which is not always the queue's prefix
      (see `PeekIsPrefixExactlyWhen`).
     */
    method Pop(dest: array<T>, size: nat, peek: bool) returns (ok: bool)
      requires Valid() && dest != data && size <= dest.Length
      modifies this`tail, this`full, dest
      ensures Valid() && (old(Tight()) ==> Tight())
      ensures ok <==> 0 < size <= |old(Contents())|
      ensures !ok ==> Contents() == old(Contents()) && dest[..] == old(dest[..])
      ensures ok && !peek ==> dest[..] == old(Contents())[..size] + old(dest[size..]) && Contents() == old(Contents())[size..]
      ensures ok && peek ==> dest[..] == PeekCopy(data[..], old(head), old(tail), old(full), size) + old(dest[size..])
      ensures peek ==> head == old(head) && tail == old(tail) && full == old(full)
      ensures Ring() == old(Ring())
    {
      ok := 0 < size <= Available();
      if !ok { return; }
      if peek { CopyPeeked(dest, size); } else { CopyQueued(dest, size); Advance(size); }
    }

    method CopyQueued(dest: array<T>, size: nat)
      requires Valid() && dest != data && 0 < size <= dest.Length && size <= |Contents()|
      modifies dest
      ensures dest[..] == old(Contents()[..size] + dest[size..]) && data[..] == old(data[..])
    {
      PrefixIsTwoRuns(data[..], head, tail, full, size);
      var x := FirstRun(data.Length, head, tail, full, size);
      CopyRuns(dest, tail, x, TailAfterFirst(data.Length, head, tail, full, size), size - x, Contents()[..size]);
    }

    method CopyPeeked(dest: array<T>, size: nat)
      requires Valid() && dest != data && 0 < size <= dest.Length && size <= |Contents()|
      modifies dest
      ensures dest[..] == old(PeekCopy(data[..], head, tail, full, size) + dest[size..]) && data[..] == old(data[..])
    {
      PeekIsTwoRuns(data[..], head, tail, full, size);
      var x := FirstRun(data.Length, head, tail, full, size);
      CopyRuns(dest, tail, x, 0, size - x, PeekCopy(data[..], head, tail, full, size));
    }

    /** `memcpy(&dest[at], &_data[from], n)`. */
    method CopyOut(dest: array<T>, at: nat, from: nat, n: nat)
      requires dest != data && at + n <= dest.Length && from + n <= data.Length
      modifies dest
      ensures dest[..] == old(Splice(dest[..], at, data[from..from + n])) && data[..] == old(data[..])
    {
      forall k | 0 <= k < n { dest[at + k] := data[from + k]; }
    }

    /** The two copies of a `Pop`: `n` cells from index `from`, and `m` more from index `next`; together they are `cells`. */
    method CopyRuns(dest: array<T>, from: nat, n: nat, next: nat, m: nat, ghost cells: seq<T>)
      requires dest != data && n + m <= dest.Length && from + n <= data.Length && next + m <= data.Length
      requires cells == data[..][from..from + n] + data[..][next..next + m]
      modifies dest
      ensures dest[..] == cells + old(dest[n + m..]) && data[..] == old(data[..])
    {
      SpliceTwice(dest[..], data[from..from + n], data[next..next + m]);
      CopyOut(dest, 0, from, n);
      CopyOut(dest, n, next, m);
    }

    /** Moves `tail` past `size` queued cells: to the end of the storage, round, and on. */
    method Advance(size: nat)
      requires Valid() && 0 < size <= |Contents()|
      modifies this`tail, this`full
      ensures Valid() && (old(Tight()) ==> Tight())
      ensures Contents() == old(Contents())[size..]
      ensures Ring() == old(Ring())
    {
      TwoRuns(data[..], head, tail, full, size);
      tail := TailAfterFirst(data.Length, head, tail, full, size) + (size - FirstRun(data.Length, head, tail, full, size));
      full := false;
    }

    method Skip(size: nat) returns (ok: bool)
      requires Valid()
      modifies this`tail, this`full
      ensures Valid() && (old(Tight()) ==> Tight())
      ensures ok <==> 0 < size <= |old(Contents())|
      ensures Contents() == if ok then old(Contents())[size..] else old(Contents())
      ensures Ring() == old(Ring())
    {
      ok := 0 < size <= Available();
      if ok { Advance(size); }
    }

    /**
      Offers the first `size` queued cells to a callback, one contiguous piece at a time.
      `accepts(i)` is the callback's answer to its i-th call and `calls` how often it was
      called; `taken` is what it acknowledged, which is dequeued even when a later piece is refused.
     */
    method PopAll(accepts: nat -> bool, size: nat) returns (ok: bool, taken: seq<T>, calls: nat)
      requires Valid()
      modifies this`tail, this`full
      ensures Valid() && (old(Tight()) ==> Tight())
      ensures old(Contents()) == taken + Contents()
      ensures var toEnd := old(tail > head || full) && accepts(0) && data.Length - old(tail) < size;
              calls == if !(0 < size <= |old(Contents())|) then 0 else if toEnd then 2 else 1
      ensures ok <==> calls > 0 && accepts(calls - 1)
      ensures |taken| == if ok then size else if calls == 2 then data.Length - old(tail) else 0
      ensures Ring() == old(Ring())
    {
      ok, taken, calls := 0 < size <= Available(), [], 0;
      if ok && (tail > head || full) {
        taken := OfferToEnd(accepts(0), size);
        ok, calls := accepts(0), 1;
      }
      if ok && |taken| < size {
        var last := OfferStraight(accepts(calls), size - |taken|);
        ok, calls := accepts(calls), calls + 1;
        Regroup(taken, last, Contents());
        taken := taken + last;
      }
    }

    /** The queued cells end at `head` without wrapping: one call of the callback. */
    method OfferStraight(accepted: bool, size: nat) returns (piece: seq<T>)
      requires Valid() && 0 < size <= |Contents()| && !(tail > head || full)
      modifies this`tail, this`full
      ensures Valid() && (old(Tight()) ==> Tight())
      ensures |piece| == if accepted then size else 0
      ensures old(Contents()) == piece + Contents()
      ensures Ring() == old(Ring())
    {
      DropRun(data[..], head, tail, full, size);
      full := false;
      piece := [];
      if accepted {
        piece := data[tail..tail + size];
        tail := tail + size;
      }
    }

    /** The queued cells reach the end of the storage: the callback gets that run first. */
    method OfferToEnd(accepted: bool, size: nat) returns (piece: seq<T>)
      requires Valid() && 0 < size <= |Contents()| && (tail > head || full)
      modifies this`tail, this`full
      ensures Valid() && (old(Tight()) ==> Tight())
      ensures old(Contents()) == piece + Contents()
      ensures |piece| == if !accepted then 0 else if size < data.Length - old(tail) then size else data.Length - old(tail)
      ensures accepted && |piece| < size ==> !(tail > head || full)
      ensures Ring() == old(Ring())
    {
      var x := if size < data.Length - tail then size else data.Length - tail;
      FirstLeaves(data[..], head, tail, full, x);
      piece := if accepted then data[tail..tail + x] else [];
      if accepted { tail, full := Wrap(tail + x, data.Length), false; }
    }

    /** A single `read` into the run at `head`; `head` is not wrapped afterwards. */
    method Read(reply: ReadReply<T>) returns (ret: int)
      requires Valid() && (reply.Failed? ==> reply.code < 0)
      requires reply.Got? ==> |reply.bytes| <= if tail > head then tail - head else data.Length - head
      modifies this`head, this`full, data
      ensures Valid()
      ensures ret == if old(full) then -2 else if reply.Failed? then reply.code else |reply.bytes|
      ensures Contents() == old(Contents()) + (if !old(full) && reply.Got? then reply.bytes else [])
      ensures Ring() == if !old(full) && reply.Got? then old(Ring())[|reply.bytes|..] + reply.bytes else old(Ring())
      ensures head == old(head) + if !old(full) && reply.Got? then |reply.bytes| else 0
      ensures full == if !old(full) && reply.Got? && reply.bytes != [] then head == tail else old(full)
      ensures old(Tight()) ==> (Tight() <==> head < data.Length)
    {
      if full { return -2; }
      if reply.Failed? { return reply.code; }
      ret := |reply.bytes|;
      if ret > 0 { Deliver(reply.bytes); }
    }

    /** The kernel stores `bytes` at `head`, `head` advances and the flag is recomputed. */
    method Deliver(bytes: seq<T>)
      requires Valid() && !full && 0 < |bytes|
      requires |bytes| <= if tail > head then tail - head else data.Length - head
      modifies this`head, this`full, data
      ensures Valid() && head == old(head) + |bytes|
      ensures Contents() == old(Contents()) + bytes
      ensures Ring() == old(Ring())[|bytes|..] + bytes
    {
      RotateFill(data[..], head, bytes);
      Store(head, bytes);
      head := head + |bytes|;
      full := head == tail;
      AppendByRing(old(data[..]), old(head), tail, bytes, data[..], head, full);
    }

    /** The kernel fills the run up to the end of the storage with `a`, then `b` from index 0 on. */
    method DeliverRound(a: seq<T>, b: seq<T>)
      requires Valid() && !full && tail <= head && 0 < head
      requires |a| == data.Length - head && |b| <= tail && 0 < |a| + |b|
      modifies this`head, this`full, data
      ensures Valid() && Tight() == (|b| < data.Length && tail < data.Length)
      ensures Contents() == old(Contents()) + (a + b)
      ensures Ring() == old(Ring())[|a| + |b|..] + (a + b)
    {
      RotateRound(data[..], head, a, b);
      Store(head, a);
      Store(0, b);
      head := |b|;
      full := head == tail;
      AppendByRing(old(data[..]), old(head), tail, a + b, data[..], head, full);
    }

    method Store(at: nat, src: seq<T>)
      requires at + |src| <= data.Length
      modifies data
      ensures data[..] == old(Splice(data[..], at, src))
    {
      forall k | 0 <= k < |src| { data[at + k] := src[k]; }
    }

    /**
      A gathered read into all the free cells.  When the buffer is empty at index 0 the
      single run offered is the whole storage, and filling it leaves `head` at the capacity.
     */
    method Readv(reply: ReadReply<T>) returns (ret: int)
      requires Valid() && (reply.Failed? ==> reply.code < 0)
      requires reply.Got? ==> |reply.bytes| <= data.Length - |Contents()|
      modifies this`head, this`full, data
      ensures Valid()
      ensures ret == if old(full) then -2 else if reply.Failed? then reply.code else |reply.bytes|
      ensures Contents() == old(Contents()) + (if !old(full) && reply.Got? then reply.bytes else [])
      ensures Ring() == if !old(full) && reply.Got? then old(Ring())[|reply.bytes|..] + reply.bytes else old(Ring())
      ensures var n := if !old(full) && reply.Got? then |reply.bytes| else 0;
              head == if n == 0 || tail > old(head) || old(head) == 0 == tail || n < data.Length - old(head) then old(head) + n
                      else n - (data.Length - old(head))
      ensures old(Tight()) ==> (Tight() <==> !(old(head) == 0 == old(tail) && !old(full) && ret == data.Length))
    {
      if full { return -2; }
      if reply.Failed? { return reply.code; }
      ret := |reply.bytes|;
      if ret == 0 { return; }
      var x := data.Length - head;
      if tail > head || (head == 0 && tail == 0) || ret < x {
        Deliver(reply.bytes);
      } else {
        DeliverRound(reply.bytes[..x], reply.bytes[x..]);
        assert reply.bytes == reply.bytes[..x] + reply.bytes[x..];
      }
    }

    /** All of the queue is sent while `head` is at the end of the storage. */
    ghost predicate WrapsAlone(accepted: int)
      requires Valid()
      reads this, data
    {
      head == data.Length && 0 < accepted == |Contents()|
    }

    /**
      Nothing of a full buffer is sent while both indices are at the end of the storage: `tail`
      wraps and the flag stays (see `AfterFlagStays`).
     */
    ghost predicate FlagStays(accepted: int)
      requires Valid()
      reads this
    {
      full && head == data.Length && accepted <= 0
    }

    /** A single `write` of the run at `tail`; `accepted` is the kernel's answer. */
    method Write(accepted: int) returns (ret: int, sent: seq<T>)
      requires Valid()
      requires accepted <= if head > tail then head - tail else data.Length - tail
      modifies this`tail, this`full
      ensures ret == if old(Contents()) == [] then -2 else accepted
      ensures |sent| == (if ret > 0 then ret else 0) <= |old(Contents())| && sent == old(Contents())[..|sent|]
      ensures (old(Tight()) ==> Tight()) && (Valid() <==> !old(FlagStays(accepted)))
      ensures Valid() ==> Ring() == old(Ring()) && (old(Contents()) == sent + Contents() <==> !old(WrapsAlone(accepted)))
      ensures old(WrapsAlone(accepted)) ==> Contents() == data[..]
      ensures old(FlagStays(accepted)) ==> head == data.Length && tail == 0 && full && Window(data[..], head, tail, full) == old(Contents())
    {
      if Available() == 0 { return -2, []; }
      ret := accepted;
      sent := Sent(if ret > 0 then ret else 0);
    }

    /** `tail` and `full` after the kernel took the first `n` queued cells. */
    method Sent(n: nat) returns (sent: seq<T>)
      requires Valid() && Contents() != [] && n <= |Contents()|
      modifies this`tail, this`full
      ensures |sent| == n && sent == old(Contents())[..n]
      ensures (old(Tight()) ==> Tight()) && (Valid() <==> !old(FlagStays(n)))
      ensures Valid() ==> Ring() == old(Ring()) && (old(Contents()) == sent + Contents() <==> !old(WrapsAlone(n)))
      ensures old(WrapsAlone(n)) ==> Contents() == data[..]
      ensures old(FlagStays(n)) ==> head == data.Length && tail == 0 && full && Window(data[..], head, tail, full) == old(Contents())
    {
      SentLeaves(data[..], head, tail, full, n);
      sent := Gathered(n);
      tail, full := TailAfter(data.Length, head, tail, n), full && n == 0;
    }

    /**
      A gathered write.  `offered` is the total length of the runs handed to the kernel.
      With `head` at 0 the source subtracts the wrong way round, so that run's length is
      `tail - capacity` (as a `size_t`, a huge number) instead of what is queued.
     */
    method Writev(accepted: int) returns (ret: int, offered: int, sent: seq<T>)
      requires Valid()
      requires accepted <= |Contents()|
      modifies this`tail, this`full
      ensures ret == if old(Contents()) == [] then -2 else accepted
      ensures |sent| == (if ret > 0 then ret else 0) <= |old(Contents())| && sent == old(Contents())[..|sent|]
      ensures (old(Tight()) ==> Tight()) && (Valid() <==> !old(FlagStays(accepted)))
      ensures Valid() ==> Ring() == old(Ring()) && (old(Contents()) == sent + Contents() <==> !old(WrapsAlone(accepted)))
      ensures old(WrapsAlone(accepted)) ==> Contents() == data[..]
      ensures old(FlagStays(accepted)) ==> head == data.Length && tail == 0 && full && Window(data[..], head, tail, full) == old(Contents())
      ensures old(Contents()) != [] ==> (offered == |old(Contents())| <==> old(head) > 0)
    {
      if Available() == 0 { return -2, 0, []; }
      ret := accepted;
      if head > tail {
        offered := head - tail;
      } else if head > 0 {
        offered := (data.Length - tail) + head;
      } else {
        offered := tail - data.Length;
      }
      sent := Sent(if ret > 0 then ret else 0);
    }

    function Gathered(n: nat): (s: seq<T>)
      requires Valid() && n <= |Contents()|
      reads this, data
    {
      Window(data[..], head, tail, full)[..n]
    }

    /** Un-read: the last `count` cells consumed come back in front of the queue. */
    method Backup(count: nat) returns (ok: bool)
      requires Valid()
      modifies this`tail, this`full
      ensures Valid() && (old(Tight()) ==> Tight())
      ensures ok <==> !old(full) && count <= data.Length - |old(Contents())|
      ensures Contents() == if ok then CyclicBefore(data[..], old(tail), count) + old(Contents()) else old(Contents())
      ensures Tight() ==> (full <==> |Contents()| == data.Length)
      ensures Ring() == old(Ring())
    {
      if count > Free() { return false; }
      if full && tail == head { return false; }
      ok := true;
      if count > 0 { Unread(count); }
    }

    method Unread(count: nat)
      requires Valid() && !full && 0 < count <= data.Length - |Contents()|
      modifies this`tail, this`full
      ensures Valid() && (old(Tight()) ==> Tight())
      ensures Contents() == CyclicBefore(data[..], old(tail), count) + old(Contents())
      ensures Ring() == old(Ring())
    {
      UnreadRun(data[..], head, tail, count);
      if head < tail {
        tail := tail - count;
        full := tail == head;
      } else {
        var temp := if tail < count then tail else count;
        tail := tail - temp;
        if count > temp {
          tail := data.Length - (count - temp);
          full := tail == head;
        }
      }
    }

    /**
      Hands out the run at `tail` and consumes it.  On wrapped data that is not full the
      length is computed as `head - tail` in unsigned arithmetic, and `tail` restarts at 0.
     */
    method Direct() returns (ok: bool, base: nat, len: int)
      requires Valid() && Tight()
      modifies this
      ensures Valid() && Tight()
      ensures ok <==> old(Contents()) != []
      ensures !ok ==> Contents() == old(Contents())
      ensures ok && !(old(tail) > old(head)) ==>
        0 < len && base + len <= data.Length && old(Contents()) == data[base..base + len] + Contents()
      ensures ok && old(tail) > old(head) ==> len < 0 && Contents() == data[..old(head)]
    {
      base, len := 0, 0;
      if IsEmpty() { return false, 0, 0; }
      base, ok := tail, true;
      if head > tail {
        len := head - tail;
        tail := head;
      } else if full {
        len := data.Length - tail;
        tail := 0;
      } else {
        len := head - tail;
        tail := 0;
      }
      full := false;
    }
  }

  /** What a peeking `Pop` copies: on unwrapped data the copy starts at cell 0, not at `tail`. */
  function PeekCopy<T>(data: seq<T>, head: nat, tail: nat, full: bool, size: nat): (s: seq<T>)
    requires head <= |data| && tail <= |data| && size <= |Window(data, head, tail, full)|
  {
    if tail > head || full then Window(data, head, tail, full)[..size] else data[..size]
  }
}
