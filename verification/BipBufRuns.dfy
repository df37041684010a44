/**
  Properties of src/main/buf/buf.h that span several calls: what an un-read and a
  give-back restore, what any run of operations does to the stream of cells that
  passes through the buffer, and the exact condition under which a peek is right.
 */
module BipBufferRuns {
  import opened BipBuffer
  import opened Sequences

  /**
    A peeking `Pop` copies the front of the queue for every possible contents exactly
    when the data is wrapped, or the buffer is full, or `tail` is at 0.
   */
  lemma PeekIsPrefixExactlyWhen(cap: nat, head: nat, tail: nat, full: bool, size: nat)
    requires head <= cap && tail <= cap && (full ==> head == tail)
    requires 0 < size <= Count(cap, head, tail, full)
    ensures (forall data: seq<int> | |data| == cap ::
               PeekCopy(data, head, tail, full, size) == Window(data, head, tail, full)[..size])
            <==> (tail > head || full || tail == 0)
  {
    if tail > head || full || tail == 0 {
      forall data: seq<int> | |data| == cap
        ensures PeekCopy(data, head, tail, full, size) == Window(data, head, tail, full)[..size]
      {
      }
    } else {
      var data := seq(cap, i => i);
      assert PeekCopy(data, head, tail, full, size)[0] != Window(data, head, tail, full)[..size][0];
    }
  }

  /** Popping and un-reading the same number of cells leaves the queue as it was, in every position. */
  method PopThenBackup<T(==)>(b: BipBuf<T>, dest: array<T>, n: nat) returns (popped: bool)
    requires b.Valid() && dest != b.data && n <= dest.Length
    modifies b`tail, b`full, dest
    ensures b.Valid() && b.Contents() == old(b.Contents())
    ensures popped <==> 0 < n <= |old(b.Contents())|
    ensures popped ==> dest[..n] == old(b.Contents())[..n]
    ensures old(b.Tight() && b.full) && popped ==> b.full
  {
    ghost var d, q, head, tail, full := b.data[..], b.Contents(), b.head, b.tail, b.full;
    popped := b.Pop(dest, n, false);
    if popped {
      CellsBeforeRest(d, head, tail, full, b.tail, n);
      var ok := b.Backup(n);
      assert ok;
    }
  }

  /** So does skipping them and un-reading as many. */
  method SkipThenBackup<T(==)>(b: BipBuf<T>, n: nat) returns (skipped: bool)
    requires b.Valid()
    modifies b`tail, b`full
    ensures b.Valid() && b.Contents() == old(b.Contents())
    ensures skipped <==> 0 < n <= |old(b.Contents())|
    ensures old(b.Tight() && b.full) && skipped ==> b.full
  {
    ghost var d, q, head, tail, full := b.data[..], b.Contents(), b.head, b.tail, b.full;
    skipped := b.Skip(n);
    if skipped {
      CellsBeforeRest(d, head, tail, full, b.tail, n);
      var ok := b.Backup(n);
      assert ok;
    }
  }

  /** After `n` cells left the queue, they are the `n` cells before the rest. */
  lemma CellsBeforeRest<T>(d: seq<T>, head: nat, tail: nat, full: bool, rest: nat, n: nat)
    requires head <= |d| && tail <= |d| && rest <= |d| && (full ==> head == tail)
    requires n <= |Window(d, head, tail, full)| && Window(d, head, rest, false) == Window(d, head, tail, full)[n..]
    ensures n <= |d| && CyclicBefore(d, rest, n) == Window(d, head, tail, full)[..n]
    ensures CyclicBefore(d, rest, n) + Window(d, head, rest, false) == Window(d, head, tail, full)
  {
    WindowIsNewest(d, head, tail, full);
    BeforeIsRing(d, head, rest, n);
    RingSplit(Rotation(d, head), Window(d, head, tail, full), n);
  }

  /** The `n` cells before the rest of the queue are its first `n`. */
  lemma RingSplit<T>(r: seq<T>, q: seq<T>, n: nat)
    requires n <= |q| <= |r| && q == r[|r| - |q|..]
    ensures r[|r| - (|q| - n) - n..|r| - (|q| - n)] == q[..n] && q == q[..n] + q[n..]
  {
  }

  /** Claiming the run at `head`, filling its first cells and giving the rest back is pushing those cells. */
  method ClaimThenGiveBack<T(==)>(b: BipBuf<T>, src: seq<T>) returns (ok: bool)
    requires b.Valid() && b.Tight()
    requires !b.full ==> |src| <= if b.head >= b.tail then b.data.Length - b.head else b.tail - b.head
    modifies b`head, b`full, b.data
    ensures b.Valid() && b.Tight()
    ensures ok <==> |old(b.Contents())| < b.data.Length
    ensures b.Contents() == if ok then old(b.Contents()) + src else old(b.Contents())
    ensures b.Ring() == if ok then old(b.Ring())[|src|..] + src else old(b.Ring())
  {
    ghost var d, h := b.data[..], b.head;
    var run;
    ok, run := b.PushDirect();
    if ok {
      ClaimLeaves(d, h, b.tail, src, run.len);
      FillRun(b, run.base, src);
      var back := b.BackupDirect(run.len - |src|);
      assert b.head == Wrap(h + |src|, |d|);
    }
  }

  /** The caller of `PushDirect` stores into the run it was given. */
  method FillRun<T(==)>(b: BipBuf<T>, at: nat, src: seq<T>)
    requires at + |src| <= b.data.Length
    modifies b.data
    ensures b.data[..] == Splice(old(b.data[..]), at, src)
  {
    forall k | 0 <= k < |src| { b.data[at + k] := src[k]; }
  }

  /** After a claim of `len` cells whose first ones were filled with `src`: the queue, and what it is without the rest; and the ring without it. */
  lemma ClaimLeaves<T>(d: seq<T>, h: nat, tail: nat, src: seq<T>, len: nat)
    requires h < |d| && tail < |d| && |src| <= len == if h >= tail then |d| - h else tail - h
    ensures var q, h' := Window(d, h, tail, false), Wrap(h + len, |d|);
            var all := Window(Splice(d, h, src), h', tail, h' == tail);
            |all| == |q| + len && all[..|q| + |src|] == q + src
    ensures Rotation(Splice(d, h, src), Wrap(h + |src|, |d|)) == Rotation(d, h)[|src|..] + src
  {
    var all := src + d[h + |src|..h + len];
    if len > 0 { FillClaim(d, h, tail, all); }
    assert Splice(d, h, src) == Splice(d, h, all);
    RotateFill(d, h, src);
  }

  /** Filling the whole run of free cells at `head` appends it to the queue. */
  lemma FillClaim<T>(data: seq<T>, head: nat, tail: nat, src: seq<T>)
    requires 0 < |src| && head < |data| && tail < |data|
    requires |src| == if head >= tail then |data| - head else tail - head
    ensures var h := Wrap(head + |src|, |data|);
            Window(Splice(data, head, src), h, tail, h == tail) == Window(data, head, tail, false) + src
  {
    var h := Wrap(head + |src|, |data|);
    RotateFill(data, head, src);
    AppendByRing(data, head, tail, src, Splice(data, head, src), h, h == tail);
  }

  /** One call on a buffer, with the answers its environment gives. */
  datatype Step<T> =
    | PushOne(d: T)
    | PushMany(src: seq<T>)
    | PopSome(n: nat)
    | SkipSome(n: nat)
    | PopPieces(accepts: nat -> bool, n: nat)
    | WriteRun(accepted: int)
    | WriteRuns(accepted: int)
    | ReadRun(reply: ReadReply<T>)
    | ReadRuns(reply: ReadReply<T>)
    | Unread(n: nat)
    | ClaimAndFill(src: seq<T>)

  /** What one call did to the stream of cells: some entered, some left, or some came back; or it was not made. */
  datatype Effect<T> = Entered(cells: seq<T>) | Left(cells: seq<T>) | CameBack(n: nat) | Refused

  /**
    The account of a run that began with the cells `start` in the ring: everything that
    entered has either left or is queued, in order, and the ring holds the newest cells.
   */
  ghost predicate Accounted<T>(start: seq<T>, ring: seq<T>, queue: seq<T>, entered: seq<T>, left: seq<T>)
  {
    && entered == left + queue
    && |queue| <= |ring| == |start|
    && ring == (start + entered)[|entered|..]
  }

  lemma AfterEnter<T>(start: seq<T>, ring: seq<T>, queue: seq<T>, entered: seq<T>, left: seq<T>, cells: seq<T>)
    requires Accounted(start, ring, queue, entered, left) && |queue| + |cells| <= |ring|
    ensures Accounted(start, ring[|cells|..] + cells, queue + cells, entered + cells, left)
  {
    assert (start + (entered + cells))[|entered + cells|..] == ring[|cells|..] + cells;
  }

  lemma AfterLeave<T>(start: seq<T>, ring: seq<T>, queue: seq<T>, entered: seq<T>, left: seq<T>, cells: seq<T>, rest: seq<T>)
    requires Accounted(start, ring, queue, entered, left) && queue == cells + rest
    ensures Accounted(start, ring, rest, entered, left + cells)
  {
  }

  /** An un-read of cells that left, when there is room, gives back the last `n` of them. */
  lemma AfterComeBack<T>(start: seq<T>, ring: seq<T>, queue: seq<T>, entered: seq<T>, left: seq<T>, n: nat)
    requires Accounted(start, ring, queue, entered, left) && n <= |left| && n <= |ring| - |queue|
    ensures ring[|ring| - |queue| - n..|ring| - |queue|] == left[|left| - n..]
    ensures Accounted(start, ring, left[|left| - n..] + queue, entered, left[..|left| - n])
  {
    var f := |ring| - |queue|;
    var cells, back := ring[f - n..f], left[|left| - n..];
    forall i | 0 <= i < n ensures cells[i] == back[i] {
      assert ring[f - n + i] == (start + entered)[|entered| + (f - n + i)] == entered[|left| - n + i];
    }
    assert left == left[..|left| - n] + left[|left| - n..];
    Regroup(left[..|left| - n], left[|left| - n..], queue);
  }

  /** The state of a buffer. */
  datatype Snap<T> = Snap(data: seq<T>, head: nat, tail: nat, full: bool)
  {
    predicate Proper() { head <= |data| && tail <= |data| && (full ==> head == tail) }

    predicate Tight() { head < |data| && tail < |data| }

    function Queue(): (q: seq<T>)
      requires Proper()
    {
      Window(data, head, tail, full)
    }

    function Ring(): (r: seq<T>)
      requires Proper()
    {
      Rotation(data, head)
    }

    /** How far the run of free cells at `head` goes. */
    function FreeRun(): nat
      requires Proper()
    {
      if tail > head then tail - head else |data| - head
    }
  }

  ghost function SnapOf<T>(b: BipBuf<T>): (s: Snap<T>)
    requires b.Valid()
    reads b, b.data
    ensures s.Proper() && s.Queue() == b.Contents() && s.Ring() == b.Ring() && (s.Tight() <==> b.Tight())
  {
    Snap(b.data[..], b.head, b.tail, b.full)
  }

  /** What the callers of buf.h may do in a given state, after `left` cells have left it. */
  predicate Allowed<T>(s: Snap<T>, step: Step<T>, left: nat)
    requires s.Proper()
  {
    match step
    case PushOne(_) => s.Tight()
    case PushMany(_) => s.Tight()
    case WriteRun(accepted) => s.Tight() && accepted <= if s.head > s.tail then s.head - s.tail else |s.data| - s.tail
    case WriteRuns(accepted) => s.Tight() && accepted <= |s.Queue()|
    case ReadRun(reply) => if reply.Failed? then reply.code < 0 else |reply.bytes| <= s.FreeRun()
    case ReadRuns(reply) => if reply.Failed? then reply.code < 0 else |reply.bytes| <= |s.data| - |s.Queue()|
    case Unread(n) => n <= left
    case ClaimAndFill(src) => s.Tight() && (!s.full ==> |src| <= s.FreeRun())
    case _ => true
  }

  /** How many cells a callback acknowledges that is offered `n` queued ones in at most two pieces, the first ending with the storage. */
  function Acknowledged<T>(s: Snap<T>, accepts: nat -> bool, n: nat): (m: nat)
    requires s.Proper()
  {
    var toEnd := |s.data| - s.tail;
    if !(0 < n <= |s.Queue()|) || !accepts(0) then 0
    else if (s.tail > s.head || s.full) && toEnd < n && !accepts(1) then toEnd
    else n
  }

  /** What a step does in a given state: nothing when it is not allowed there. */
  function EffectOf<T>(s: Snap<T>, step: Step<T>, left: nat): (e: Effect<T>)
    requires s.Proper()
  {
    var q, cap := s.Queue(), |s.data|;
    if !Allowed(s, step, left) then Refused
    else match step
      case PushOne(d) => Entered(if |q| < cap then [d] else [])
      case PushMany(src) => Entered(if 0 < |src| <= cap - |q| then src else [])
      case PopSome(n) => Left(if 0 < n <= |q| then q[..n] else [])
      case SkipSome(n) => Left(if 0 < n <= |q| then q[..n] else [])
      case PopPieces(accepts, n) => Left(Prefix(q, Acknowledged(s, accepts, n)))
      case WriteRun(accepted) => Left(Prefix(q, if accepted > 0 then accepted else 0))
      case WriteRuns(accepted) => Left(Prefix(q, if accepted > 0 then accepted else 0))
      case ReadRun(reply) => Entered(if !s.full && reply.Got? then reply.bytes else [])
      case ReadRuns(reply) => Entered(if !s.full && reply.Got? then reply.bytes else [])
      case Unread(n) => CameBack(if !s.full && n <= cap - |q| then n else 0)
      case ClaimAndFill(src) => Entered(if |q| < cap then src else [])
  }

  /** The effect of one call, in terms of the queue and the ring before (`q`, `r`) and after (`q'`, `r'`). */
  ghost predicate Did<T>(e: Effect<T>, r: seq<T>, q: seq<T>, r': seq<T>, q': seq<T>)
  {
    match e
    case Entered(cells) => |q| + |cells| <= |r| && q' == q + cells && r' == r[|cells|..] + cells
    case Left(cells) => q == cells + q' && r' == r
    case CameBack(n) => |q| <= |r| && n <= |r| - |q| && q' == r[|r| - |q| - n..|r| - |q|] + q && r' == r
    case Refused => q' == q && r' == r
  }

  /** Where `head` is after a read of `n` cells: a single read does not wrap it, a gathered one does unless the storage was offered in one run. */
  function HeadAfterRead<T>(s: Snap<T>, n: nat, gathered: bool): int
    requires s.Proper()
  {
    if n == 0 || !gathered || s.tail > s.head || s.head == 0 == s.tail || n < |s.data| - s.head then s.head + n else n - (|s.data| - s.head)
  }

  /**
    One step from state `s` to state `s'`: its effect is the one it has in `s`, the queue and the
    ring change by that effect, and it moves only the indices that such an effect moves.
   */
  ghost predicate Stepped<T>(s: Snap<T>, step: Step<T>, left: nat, e: Effect<T>, s': Snap<T>)
    requires s.Proper()
  {
    true == (
      && e == EffectOf(s, step, left)
      && s'.Proper() && |s'.data| == |s.data|
      && Did(e, s.Ring(), s.Queue(), s'.Ring(), s'.Queue())
      && (e.Refused? ==> s' == s)
      && (e.Entered? ==> s'.tail == s.tail)
      && (!e.Entered? ==> s'.data == s.data && s'.head == s.head)
      && (if step.ReadRun? || step.ReadRuns? then e.Entered? ==> s'.head == HeadAfterRead(s, |e.cells|, step.ReadRuns?)
          else s.Tight() ==> s'.Tight()))
  }

  /** What each call leaves in the queue, in terms of its arguments and the queue before. */
  ghost predicate Leaves<T>(s: Snap<T>, step: Step<T>, q': seq<T>)
    requires s.Proper()
  {
    var q, free := s.Queue(), |s.data| - |s.Queue()|;
    true == (
      match step
      case PushOne(d) => q' == (if free > 0 then q + [d] else q)
      case PushMany(src) => q' == (if 0 < |src| <= free then q + src else q)
      case PopSome(n) => q' == (if 0 < n <= |q| then q[n..] else q)
      case SkipSome(n) => q' == (if 0 < n <= |q| then q[n..] else q)
      case PopPieces(accepts, n) =>
        && (0 < n <= |q| && accepts(0) && accepts(1) ==> q' == q[n..])
        && (!(0 < n <= |q|) || !accepts(0) ==> q' == q)
        && (0 < n <= |q| && accepts(0) && !accepts(1) ==>
              q' == q[if (s.tail > s.head || s.full) && |s.data| - s.tail < n then |s.data| - s.tail else n..])
      case WriteRun(accepted) => q' == (if 0 < accepted <= |q| then q[accepted..] else if accepted <= 0 then q else [])
      case WriteRuns(accepted) => q' == (if 0 < accepted <= |q| then q[accepted..] else if accepted <= 0 then q else [])
      case ReadRun(reply) => q' == (if !s.full && reply.Got? then q + reply.bytes else q)
      case ReadRuns(reply) => q' == (if !s.full && reply.Got? then q + reply.bytes else q)
      case Unread(n) => if !s.full && n <= free then |q'| == n + |q| && q'[n..] == q else q' == q
      case ClaimAndFill(src) => q' == (if free > 0 then q + src else q))
  }

  /** Each call leaves that in the queue when it is allowed; one that is not changes nothing. */
  lemma {:induction false} StepLeaves<T>(s: Snap<T>, step: Step<T>, left: nat, e: Effect<T>, s': Snap<T>)
    requires s.Proper() && Stepped(s, step, left, e, s')
    ensures if Allowed(s, step, left) then s'.Proper() && Leaves(s, step, s'.Queue()) else s' == s
  {
    if Allowed(s, step, left) {
      match e
      case Entered(cells) => EnteredLeaves(s, step, left, cells, s'.Queue());
      case Left(cells) => LeftLeaves(s, step, left, cells, s'.Queue());
      case CameBack(n) => BackLeaves(s, step, left, n, s'.Queue());
      case Refused =>
    }
  }

  lemma {:induction false} EnteredLeaves<T>(s: Snap<T>, step: Step<T>, left: nat, cells: seq<T>, q': seq<T>)
    requires s.Proper() && Allowed(s, step, left) && EffectOf(s, step, left) == Entered(cells) && q' == s.Queue() + cells
    ensures Leaves(s, step, q')
  {
    assert cells == [] ==> q' == s.Queue();
  }

  lemma {:induction false} LeftLeaves<T>(s: Snap<T>, step: Step<T>, left: nat, cells: seq<T>, q': seq<T>)
    requires s.Proper() && Allowed(s, step, left) && EffectOf(s, step, left) == Left(cells) && s.Queue() == cells + q'
    ensures Leaves(s, step, q')
  {
    FrontLeft(s.Queue(), cells, q');
  }

  lemma {:induction false} BackLeaves<T>(s: Snap<T>, step: Step<T>, left: nat, n: nat, q': seq<T>)
    requires s.Proper() && Allowed(s, step, left) && EffectOf(s, step, left) == CameBack(n) && |q'| == n + |s.Queue()| && q'[n..] == s.Queue()
    ensures Leaves(s, step, q')
  {
  }

  /** Performs a step if it is allowed. */
  method Perform<T(0,==)>(b: BipBuf<T>, step: Step<T>, left: nat) returns (e: Effect<T>)
    requires b.Valid()
    modifies b`head, b`tail, b`full, b.data
    ensures b.Valid() && Stepped(old(SnapOf(b)), step, left, e, SnapOf(b))
  {
    var allowed := CanDo(b, step, left);
    if !allowed {
      e := Refused;
    } else {
      match step
      case PushOne(d) => e := PushStep(b, d, left);
      case PushMany(src) => e := PushManyStep(b, src, left);
      case PopSome(n) => e := PopStep(b, n, left);
      case SkipSome(n) => e := SkipStep(b, n, left);
      case PopPieces(accepts, n) => e := PiecesStep(b, accepts, n, left);
      case WriteRun(accepted) => e := WriteStep(b, accepted, left);
      case WriteRuns(accepted) => e := WritevStep(b, accepted, left);
      case ReadRun(reply) => e := ReadStep(b, reply, left);
      case ReadRuns(reply) => e := ReadvStep(b, reply, left);
      case Unread(n) => e := UnreadStep(b, n, left);
      case ClaimAndFill(src) => e := ClaimStep(b, src, left);
    }
  }

  method CanDo<T(==)>(b: BipBuf<T>, step: Step<T>, left: nat) returns (ok: bool)
    requires b.Valid()
    ensures ok <==> Allowed(SnapOf(b), step, left)
  {
    ok := Allowed(Snap(b.data[..], b.head, b.tail, b.full), step, left);
  }

  method PushStep<T(==)>(b: BipBuf<T>, d: T, left: nat) returns (e: Effect<T>)
    requires b.Valid() && Allowed(SnapOf(b), PushOne(d), left)
    modifies b`head, b`full, b.data
    ensures b.Valid() && Stepped(old(SnapOf(b)), PushOne(d), left, e, SnapOf(b))
  {
    var ok := b.Push(d);
    e := Entered(if ok then [d] else []);
  }

  method PushManyStep<T(==)>(b: BipBuf<T>, src: seq<T>, left: nat) returns (e: Effect<T>)
    requires b.Valid() && Allowed(SnapOf(b), PushMany(src), left)
    modifies b`head, b`full, b.data
    ensures b.Valid() && Stepped(old(SnapOf(b)), PushMany(src), left, e, SnapOf(b))
  {
    var ok := b.PushAll(src);
    e := Entered(if ok then src else []);
  }

  method ReadStep<T(==)>(b: BipBuf<T>, reply: ReadReply<T>, left: nat) returns (e: Effect<T>)
    requires b.Valid() && Allowed(SnapOf(b), ReadRun(reply), left)
    modifies b`head, b`full, b.data
    ensures b.Valid() && Stepped(old(SnapOf(b)), ReadRun(reply), left, e, SnapOf(b))
  {
    e := Entered(if !b.full && reply.Got? then reply.bytes else []);
    var r := b.Read(reply);
  }

  method ReadvStep<T(==)>(b: BipBuf<T>, reply: ReadReply<T>, left: nat) returns (e: Effect<T>)
    requires b.Valid() && Allowed(SnapOf(b), ReadRuns(reply), left)
    modifies b`head, b`full, b.data
    ensures b.Valid() && Stepped(old(SnapOf(b)), ReadRuns(reply), left, e, SnapOf(b))
  {
    e := Entered(if !b.full && reply.Got? then reply.bytes else []);
    var r := b.Readv(reply);
  }

  method ClaimStep<T(==)>(b: BipBuf<T>, src: seq<T>, left: nat) returns (e: Effect<T>)
    requires b.Valid() && Allowed(SnapOf(b), ClaimAndFill(src), left)
    modifies b`head, b`full, b.data
    ensures b.Valid() && Stepped(old(SnapOf(b)), ClaimAndFill(src), left, e, SnapOf(b))
  {
    var ok := ClaimThenGiveBack(b, src);
    e := Entered(if ok then src else []);
  }

  method UnreadStep<T(==)>(b: BipBuf<T>, n: nat, left: nat) returns (e: Effect<T>)
    requires b.Valid() && Allowed(SnapOf(b), Unread(n), left)
    modifies b`tail, b`full
    ensures b.Valid() && Stepped(old(SnapOf(b)), Unread(n), left, e, SnapOf(b))
  {
    e := UnreadSome(b, n);
  }

  method UnreadSome<T(==)>(b: BipBuf<T>, n: nat) returns (e: Effect<T>)
    requires b.Valid()
    modifies b`tail, b`full
    ensures b.Valid() && (old(b.Tight()) ==> b.Tight())
    ensures e == CameBack(if !old(b.full) && n <= b.data.Length - |old(b.Contents())| then n else 0)
    ensures Did(e, old(b.Ring()), old(b.Contents()), b.Ring(), b.Contents())
  {
    DidUnread(b.data[..], b.head, b.tail, b.full, n);
    var ok := b.Backup(n);
    e := CameBack(if ok then n else 0);
  }

  lemma DidUnread<T>(d: seq<T>, head: nat, tail: nat, full: bool, n: nat)
    requires head <= |d| && tail <= |d| && (full ==> head == tail)
    ensures var r, q := Rotation(d, head), Window(d, head, tail, full);
            && Did(CameBack(0), r, q, r, q)
            && (!full && n <= |d| - |q| ==> Did(CameBack(n), r, q, r, CyclicBefore(d, tail, n) + q))
  {
    NothingBack(Rotation(d, head), Window(d, head, tail, full));
    if !full && n <= |d| - |Window(d, head, tail, full)| {
      BeforeIsRing(d, head, tail, n);
      CellsBack(Rotation(d, head), Window(d, head, tail, full), CyclicBefore(d, tail, n));
    }
  }

  lemma NothingBack<T>(r: seq<T>, q: seq<T>)
    requires |q| <= |r|
    ensures Did(CameBack(0), r, q, r, q)
  {
  }

  lemma CellsBack<T>(r: seq<T>, q: seq<T>, cells: seq<T>)
    requires |q| + |cells| <= |r| && cells == r[|r| - |q| - |cells|..|r| - |q|]
    ensures Did(CameBack(|cells|), r, q, r, cells + q)
  {
  }

  /** Cells that left the front of the queue are those that the step takes when they are as many. */
  lemma FrontLeft<T>(q: seq<T>, cells: seq<T>, rest: seq<T>)
    requires q == cells + rest
    ensures |cells| <= |q| && cells == q[..|cells|] && rest == q[|cells|..] && Prefix(q, |cells|) == cells
  {
  }

  /** The first `n` cells of a queue, if it has as many, and what is left without them. */
  lemma FrontTaken<T>(q: seq<T>, n: nat)
    ensures 0 < n <= |q| ==> q == q[..n] + q[n..]
    ensures q == [] + q
  {
  }

  method PopStep<T(0,==)>(b: BipBuf<T>, n: nat, left: nat) returns (e: Effect<T>)
    requires b.Valid() && Allowed(SnapOf(b), PopSome(n), left)
    modifies b`tail, b`full
    ensures b.Valid() && Stepped(old(SnapOf(b)), PopSome(n), left, e, SnapOf(b))
  {
    FrontTaken(b.Contents(), n);
    var cells := PopCells(b, n);
    e := Left(cells);
  }

  /** Pops into a new array. */
  method PopCells<T(0,==)>(b: BipBuf<T>, n: nat) returns (cells: seq<T>)
    requires b.Valid()
    modifies b`tail, b`full
    ensures b.Valid() && (old(b.Tight()) ==> b.Tight()) && b.Ring() == old(b.Ring())
    ensures var q := old(b.Contents());
            if 0 < n <= |q| then cells == q[..n] && b.Contents() == q[n..] else cells == [] && b.Contents() == q
  {
    var dest := new T[n];
    var ok := b.Pop(dest, n, false);
    cells := if ok then dest[..n] else [];
  }

  method SkipStep<T(==)>(b: BipBuf<T>, n: nat, left: nat) returns (e: Effect<T>)
    requires b.Valid() && Allowed(SnapOf(b), SkipSome(n), left)
    modifies b`tail, b`full
    ensures b.Valid() && Stepped(old(SnapOf(b)), SkipSome(n), left, e, SnapOf(b))
  {
    FrontTaken(b.Contents(), n);
    e := Left(if 0 < n <= b.Available() then b.Gathered(n) else []);
    var ok := b.Skip(n);
  }

  method PiecesStep<T(==)>(b: BipBuf<T>, accepts: nat -> bool, n: nat, left: nat) returns (e: Effect<T>)
    requires b.Valid() && Allowed(SnapOf(b), PopPieces(accepts, n), left)
    modifies b`tail, b`full
    ensures b.Valid() && Stepped(old(SnapOf(b)), PopPieces(accepts, n), left, e, SnapOf(b))
  {
    ghost var q := b.Contents();
    var ok, taken, calls := b.PopAll(accepts, n);
    FrontLeft(q, taken, b.Contents());
    e := Left(taken);
  }

  method WriteStep<T(==)>(b: BipBuf<T>, accepted: int, left: nat) returns (e: Effect<T>)
    requires b.Valid() && Allowed(SnapOf(b), WriteRun(accepted), left)
    modifies b`tail, b`full
    ensures b.Valid() && Stepped(old(SnapOf(b)), WriteRun(accepted), left, e, SnapOf(b))
  {
    ghost var q := b.Contents();
    var r, sent := b.Write(accepted);
    FrontLeft(q, sent, b.Contents());
    e := Left(sent);
  }

  method WritevStep<T(==)>(b: BipBuf<T>, accepted: int, left: nat) returns (e: Effect<T>)
    requires b.Valid() && Allowed(SnapOf(b), WriteRuns(accepted), left)
    modifies b`tail, b`full
    ensures b.Valid() && Stepped(old(SnapOf(b)), WriteRuns(accepted), left, e, SnapOf(b))
  {
    ghost var q := b.Contents();
    var r, offered, sent := b.Writev(accepted);
    FrontLeft(q, sent, b.Contents());
    e := Left(sent);
  }

  /** The cells that entered during a run. */
  function EnteredBy<T>(effects: seq<Effect<T>>): (cells: seq<T>)
  {
    if effects == [] then [] else EnteredWith(EnteredBy(effects[..|effects| - 1]), effects[|effects| - 1])
  }

  /** The cells that left during a run and were not taken back. */
  function LeftBy<T>(effects: seq<Effect<T>>): (cells: seq<T>)
  {
    if effects == [] then [] else LeftWith(LeftBy(effects[..|effects| - 1]), effects[|effects| - 1])
  }

  /**
    Any run of calls, each made when it is within its contract and refused otherwise.  `trace`
    has the states between them: every step has the effect that it has in the state before it.
    The cells that left and were not taken back, followed by the queue, are exactly the cells
    that entered, in order.
   */
  method Run<T(0,==)>(b: BipBuf<T>, script: seq<Step<T>>) returns (effects: seq<Effect<T>>, ghost trace: seq<Snap<T>>)
    requires b.Valid() && b.Contents() == []
    modifies b`head, b`tail, b`full, b.data
    ensures b.Valid() && |effects| == |script| && |trace| == |script| + 1
    ensures trace[0] == old(SnapOf(b)) && trace[|script|] == SnapOf(b)
    ensures forall i :: 0 <= i < |script| ==> StepAt(script, effects, trace, i)
    ensures EnteredBy(effects) == LeftBy(effects) + b.Contents()
  {
    effects, trace := [], [SnapOf(b)];
    ghost var start := b.Ring();
    for i := 0 to |script|
      invariant b.Valid() && |effects| == i && |trace| == i + 1 && trace[0] == old(SnapOf(b)) && trace[i] == SnapOf(b)
      invariant forall j :: 0 <= j < i ==> StepAt(script, effects, trace, j)
      invariant Accounted(start, b.Ring(), b.Contents(), EnteredBy(effects), LeftBy(effects))
    {
      ghost var s := SnapOf(b);
      var e := Perform(b, script[i], |LeftBy(effects)|);
      Account(start, s.Ring(), s.Queue(), effects, e, b.Ring(), b.Contents());
      OneMoreStep(script, effects, trace, i, e, SnapOf(b));
      effects, trace := effects + [e], trace + [SnapOf(b)];
    }
  }

  /** The i-th step of a run. */
  ghost predicate StepAt<T>(script: seq<Step<T>>, effects: seq<Effect<T>>, trace: seq<Snap<T>>, i: nat)
  {
    && i < |script| && i < |effects| && i + 1 < |trace| && trace[i].Proper()
    && Stepped(trace[i], script[i], |LeftBy(effects[..i])|, effects[i], trace[i + 1])
  }

  lemma OneMoreStep<T>(script: seq<Step<T>>, effects: seq<Effect<T>>, trace: seq<Snap<T>>, i: nat, e: Effect<T>, s: Snap<T>)
    requires i < |script| && |effects| == i && |trace| == i + 1 && trace[i].Proper()
    requires forall j :: 0 <= j < i ==> StepAt(script, effects, trace, j)
    requires Stepped(trace[i], script[i], |LeftBy(effects)|, e, s)
    ensures forall j :: 0 <= j <= i ==> StepAt(script, effects + [e], trace + [s], j)
  {
    forall j | 0 <= j <= i ensures StepAt(script, effects + [e], trace + [s], j) {
      assert (effects + [e])[..j] == effects[..j];
      if j < i { assert StepAt(script, effects, trace, j); } else { assert effects[..i] == effects; }
    }
  }

  /** One more effect keeps the account. */
  lemma Account<T>(start: seq<T>, r: seq<T>, q: seq<T>, effects: seq<Effect<T>>, e: Effect<T>, r': seq<T>, q': seq<T>)
    requires Accounted(start, r, q, EnteredBy(effects), LeftBy(effects))
    requires Did(e, r, q, r', q') && (e.CameBack? ==> e.n <= |LeftBy(effects)|)
    ensures Accounted(start, r', q', EnteredBy(effects + [e]), LeftBy(effects + [e]))
  {
    OneMoreEffect(effects, e);
    AccountOf(start, r, q, EnteredBy(effects), LeftBy(effects), e, r', q');
  }

  /** What entered after one more effect. */
  function EnteredWith<T>(entered: seq<T>, e: Effect<T>): seq<T> { entered + if e.Entered? then e.cells else [] }

  /** What left and was not taken back after one more effect. */
  function LeftWith<T>(left: seq<T>, e: Effect<T>): seq<T>
  {
    match e
    case Refused => left
    case Entered(_) => left
    case Left(cells) => left + cells
    case CameBack(n) => if n <= |left| then left[..|left| - n] else []
  }

  lemma OneMoreEffect<T>(effects: seq<Effect<T>>, e: Effect<T>)
    ensures EnteredBy(effects + [e]) == EnteredWith(EnteredBy(effects), e)
    ensures LeftBy(effects + [e]) == LeftWith(LeftBy(effects), e)
  {
    assert (effects + [e])[..|effects|] == effects;
  }

  lemma AccountOf<T>(start: seq<T>, r: seq<T>, q: seq<T>, entered: seq<T>, left: seq<T>, e: Effect<T>, r': seq<T>, q': seq<T>)
    requires Accounted(start, r, q, entered, left) && Did(e, r, q, r', q') && (e.CameBack? ==> e.n <= |left|)
    ensures Accounted(start, r', q', EnteredWith(entered, e), LeftWith(left, e))
  {
    match e
    case Refused => assert entered + [] == entered;
    case Entered(cells) => AfterEnter(start, r, q, entered, left, cells);
    case Left(cells) =>
      AfterLeave(start, r, q, entered, left, cells, q');
      assert entered + [] == entered;
    case CameBack(n) =>
      AfterComeBack(start, r, q, entered, left, n);
      assert entered + [] == entered;
  }
}
