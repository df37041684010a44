/**
  Properties of the paged log that span several calls: any mix of writes is one flat
  byte sequence, and readers that move forward page by page always see exact slices of it.
 */
module LogRuns {
  import opened Sequences
  import opened Pages
  import opened RWStream

  /** Claiming the rest of the page, filling its first bytes and giving the rest back is pushing those bytes. */
  method ClaimFillGiveBack(log: LogRWStream, data: seq<Byte>)
    requires log.Valid() && |data| <= log.Room()
    modifies log.Parts()
    ensures log.Valid() && log.Floor() == old(log.Floor())
    ensures log.Log() == old(log.Log()) + data
  {
    ghost var before := log.Log();
    var at, len := log.ZeroCopyWriteNext();
    ghost var claimed := log.Log();
    log.FillClaimed(at, data);
    log.ZeroCopyWriteBackup(len - |data|);
    Claimed(before, claimed, data);
  }

  lemma Claimed(before: seq<Byte>, claimed: seq<Byte>, data: seq<Byte>)
    requires |before| + |data| <= |claimed| && claimed[..|before|] == before
    ensures Splice(claimed, |before|, data)[..|before| + |data|] == before + data
  {
  }

  /** Whatever the file holds, a copy that begins at the floor `f` is the slice asked for exactly when the slice is not below the floor. */
  lemma PopIsSliceExactlyWhen(n: nat, start: nat, size: nat, f: nat)
    requires size > 0 && start + size <= n && Max(start, f) + size <= n
    ensures (forall bytes: seq<Byte> | |bytes| == n :: View(bytes, Max(start, f), size) == bytes[start..start + size]) <==> f <= start
  {
    if f <= start {
      forall bytes: seq<Byte> | |bytes| == n ensures View(bytes, Max(start, f), size) == bytes[start..start + size] {
      }
    } else {
      var bytes: seq<Byte> := seq(n, i => if i == start then 1 else 0);
      assert View(bytes, f, size)[0] == 0 && bytes[start..start + size][0] == 1;
    }
  }

  /** Reading what was written, from the floor on, always succeeds and yields the slice of the log. */
  method ReadWritten(log: LogRWStream, start: nat, size: nat) returns (dest: seq<Byte>)
    requires log.Valid() && log.Floor() <= start && start + size <= log.available && size > 0
    modifies log.CacheParts()
    ensures log.Valid() && log.Log() == old(log.Log())
    ensures dest == log.Log()[start..start + size]
    ensures log.Floor() <= PageStart(start + size - 1, log.pageSize)
  {
    log.Bounds();
    var ok, fault;
    ok, dest, fault := log.Pop(start, size);
    log.Bounds();
    FloorOnPage(log.Floor(), start + size - 1, log.pageSize);
  }

  /** A page boundary at or below `x` is at or below the boundary of `x`'s page. */
  lemma FloorOnPage(f: nat, x: nat, p: nat)
    requires p > 0 && f % p == 0 && f <= x
    ensures f <= PageStart(x, p)
  {
    if PageStart(x, p) < f { Below(PageStart(x, p), f, p); }
  }

  /**
    `Find` restricted to what was written: the least match, when there is one.  When there is
    none the scan faults exactly if the last page of the file is full and pages are mapped on demand.
   */
  method FindWritten(log: LogRWStream, start: nat, d: Byte) returns (found: bool, offset: nat, fault: bool)
    requires log.Valid() && log.Floor() <= start <= log.available
    modifies log.CacheParts()
    ensures log.Valid() && log.Log() == old(log.Log())
    ensures found && offset < log.available <==> d in log.Log()[start..]
    ensures d in log.Log()[start..] ==>
              start <= offset < log.available && log.Log()[offset] == d && d !in log.Log()[start..offset]
    ensures fault <==> log.cache.Lru? && log.available == |log.writeBuf.file.bytes| && d !in log.Log()[start..]
  {
    log.Bounds();
    ghost var a := log.available;
    found, offset, fault := log.Find(start, d);
    assert log.Log() == log.writeBuf.file.bytes[..a];
    LeastInPrefix(log.writeBuf.file.bytes, a, start, d, found, offset);
  }

  /** The least match in a file is the least match in its written part, when it lies there. */
  lemma LeastInPrefix(bytes: seq<Byte>, a: nat, start: nat, d: Byte, found: bool, offset: nat)
    requires start <= a <= |bytes|
    requires found <==> exists x :: start <= x < |bytes| && bytes[x] == d
    requires found ==> start <= offset < |bytes| && bytes[offset] == d && Absent(bytes, start, offset - start, d)
    ensures found && offset < a <==> d in bytes[..a][start..]
    ensures d in bytes[..a][start..] ==> start <= offset < a && bytes[offset] == d && d !in bytes[..a][start..offset]
    ensures a == |bytes| ==> (found <==> d in bytes[..a][start..])
  {
    var w := bytes[..a][start..];
    assert forall i :: 0 <= i < |w| ==> w[i] == bytes[start + i];
    if d in w {
      var i :| 0 <= i < |w| && w[i] == d;
      assert bytes[start + i] == d;
    }
    if found && offset < a { assert w[offset - start] == d; }
  }

  /** One call on a log. */
  datatype Step =
    | PushBytes(data: seq<Byte>)
    | ReadIn(reply: ReadReply<Byte>)
    | ZeroCopy(data: seq<Byte>)
    | Read(start: nat, size: nat)

  /** The bytes a step adds to the log; `room` is what is left of the page being written. */
  function Adds(step: Step, room: nat): (data: seq<Byte>)
  {
    match step
    case PushBytes(data) => data
    case ReadIn(reply) => if reply.Got? && |reply.bytes| <= room then reply.bytes else []
    case ZeroCopy(data) => if |data| <= room then data else []
    case Read(_, _) => []
  }

  /** One write, if it is one and fits where the source puts it. */
  method Write(log: LogRWStream, step: Step) returns (data: seq<Byte>)
    requires log.Valid() && !step.Read?
    requires step.ReadIn? && step.reply.Failed? ==> step.reply.code < 0
    modifies log.Parts()
    ensures log.Valid() && log.Floor() == old(log.Floor())
    ensures data == Adds(step, old(log.Room())) && log.Log() == old(log.Log()) + data
    ensures step.PushBytes? ==> data == step.data
    ensures step.ReadIn? ==> data == if step.reply.Got? && |step.reply.bytes| <= old(log.Room()) then step.reply.bytes else []
    ensures step.ZeroCopy? ==> data == if |step.data| <= old(log.Room()) then step.data else []
  {
    var room := log.Room();
    data := Adds(step, room);
    match step
    case PushBytes(d) =>
      var r := log.Push(d);
    case ReadIn(reply) =>
      if reply.Failed? || |reply.bytes| <= room { var r := log.Readv(reply); }
    case ZeroCopy(d) =>
      if |d| <= room { ClaimFillGiveBack(log, d); }
  }

  datatype Copy = Copy(start: nat, bytes: seq<Byte>)

  /** Every copy made is the slice of the log at its position. */
  ghost predicate Faithful(copies: seq<Copy>, log: seq<Byte>)
  {
    forall i :: 0 <= i < |copies| ==>
      var c := copies[i]; c.start + |c.bytes| <= |log| && c.bytes == log[c.start..c.start + |c.bytes|]
  }

  /** What a script writes to a log whose end is at `at`, in pages of `p` bytes. */
  function Written(script: seq<Step>, p: nat, at: nat): (data: seq<Byte>)
    requires p > 0
  {
    if script == [] then []
    else
      var first := Adds(script[0], p - at % p);
      first + Written(script[1..], p, at + |first|)
  }

  /** A read of written bytes that starts at `oldest` or later. */
  predicate Readable(step: Step, n: nat, oldest: nat) { step.Read? && oldest <= step.start && 0 < step.size && step.start + step.size <= n }

  /** How far back the next read may start: a drop-behind cache has given up what lies before the page where the last one ended. */
  function Oldest(step: Step, p: nat, oldest: nat, dropping: bool): nat
    requires p > 0 && step.Read? && step.size > 0
  {
    if dropping then PageStart(step.start + step.size - 1, p) else oldest
  }

  /** What the reads of a script copy: each readable one its slice of the log at that moment. */
  function Reads(script: seq<Step>, p: nat, log: seq<Byte>, oldest: nat, dropping: bool): (copies: seq<Copy>)
    requires p > 0
    decreases |script|
  {
    if script == [] then []
    else
      var step := script[0];
      if Readable(step, |log|, oldest) then
        [Copy(step.start, log[step.start..step.start + step.size])]
        + Reads(script[1..], p, log, Oldest(step, p, oldest, dropping), dropping)
      else
        Reads(script[1..], p, log + Adds(step, p - |log| % p), oldest, dropping)
  }

  lemma ReadAddsNothing(script: seq<Step>, p: nat, at: nat)
    requires p > 0 && script != [] && script[0].Read?
    ensures Written(script, p, at) == Written(script[1..], p, at)
  {
    assert Written(script, p, at) == [] + Written(script[1..], p, at);
  }

  lemma ReadHits(script: seq<Step>, p: nat, log: seq<Byte>, oldest: nat, dropping: bool)
    requires p > 0 && script != [] && Readable(script[0], |log|, oldest)
    ensures var s := script[0];
            Reads(script, p, log, oldest, dropping)
            == [Copy(s.start, log[s.start..s.start + s.size])] + Reads(script[1..], p, log, Oldest(s, p, oldest, dropping), dropping)
  {
  }

  lemma ReadMisses(script: seq<Step>, p: nat, log: seq<Byte>, oldest: nat, dropping: bool)
    requires p > 0 && script != [] && script[0].Read? && !Readable(script[0], |log|, oldest)
    ensures Reads(script, p, log, oldest, dropping) == Reads(script[1..], p, log, oldest, dropping)
  {
    assert log + Adds(script[0], p - |log| % p) == log;
  }

  lemma WriteStep(script: seq<Step>, p: nat, log: seq<Byte>, oldest: nat, dropping: bool)
    requires p > 0 && script != [] && !Readable(script[0], |log|, oldest)
    ensures var now := log + Adds(script[0], p - |log| % p);
            && log + Written(script, p, |log|) == now + Written(script[1..], p, |now|)
            && Reads(script, p, log, oldest, dropping) == Reads(script[1..], p, now, oldest, dropping)
  {
    var first := Adds(script[0], p - |log| % p);
    Regroup(log, first, Written(script[1..], p, |log + first|));
  }

  /** Every copy is the slice of the log as it is in the end. */
  lemma {:induction false} ReadsAreSlices(script: seq<Step>, p: nat, log: seq<Byte>, oldest: nat, dropping: bool)
    requires p > 0
    ensures Faithful(Reads(script, p, log, oldest, dropping), log + Written(script, p, |log|))
    decreases |script|
  {
    if script != [] {
      var step, rest := script[0], script[1..];
      if Readable(step, |log|, oldest) {
        var later := Oldest(step, p, oldest, dropping);
        ReadAddsNothing(script, p, |log|);
        ReadHits(script, p, log, oldest, dropping);
        ReadsAreSlices(rest, p, log, later, dropping);
        OneSlice(Copy(step.start, log[step.start..step.start + step.size]), Reads(rest, p, log, later, dropping), log, Written(rest, p, |log|));
      } else {
        WriteStep(script, p, log, oldest, dropping);
        ReadsAreSlices(rest, p, log + Adds(step, p - |log| % p), oldest, dropping);
      }
    }
  }

  lemma OneSlice(c: Copy, copies: seq<Copy>, log: seq<Byte>, more: seq<Byte>)
    requires c.start + |c.bytes| <= |log| && c.bytes == log[c.start..c.start + |c.bytes|] && Faithful(copies, log + more)
    ensures Faithful([c] + copies, log + more)
  {
    assert (log + more)[c.start..c.start + |c.bytes|] == c.bytes;
  }

  /**
    Any mix of writes and reads.  The log grows by exactly what the script writes, in order,
    and the copies are exactly those of its readable reads: reads of written bytes which, with
    a drop-behind cache, start no earlier than the page where the one before them ended.
   */
  method Run(log: LogRWStream, script: seq<Step>, from: nat) returns (copies: seq<Copy>)
    requires log.Valid() && log.Floor() <= from
    requires forall i :: 0 <= i < |script| && script[i].ReadIn? && script[i].reply.Failed? ==> script[i].reply.code < 0
    modifies log.Parts()
    ensures log.Valid()
    ensures log.Log() == old(log.Log()) + Written(script, log.pageSize, old(log.available))
    ensures copies == Reads(script, log.pageSize, old(log.Log()), from, log.cache.DropBehindCache?)
    ensures Faithful(copies, log.Log())
  {
    copies := [];
    var oldest := from;  // no read may start before this
    ghost var flat, p, dropping := log.Log(), log.pageSize, log.cache.DropBehindCache?;
    ghost var all, expected := Written(script, p, |flat|), Reads(script, p, flat, from, dropping);
    var i := 0;
    while i < |script|
      invariant i <= |script| && log.Valid() && log.Floor() <= oldest
      invariant log.Log() + Written(script[i..], p, log.available) == flat + all
      invariant copies + Reads(script[i..], p, log.Log(), oldest, dropping) == expected
    {
      oldest, copies := Perform(log, script, i, oldest, copies);
      i := i + 1;
    }
    ReadsAreSlices(script, p, flat, from, dropping);
  }

  /** One step of a script. */
  method Perform(log: LogRWStream, script: seq<Step>, i: nat, oldest: nat, copies: seq<Copy>) returns (oldest': nat, copies': seq<Copy>)
    requires log.Valid() && log.Floor() <= oldest && i < |script|
    requires script[i].ReadIn? && script[i].reply.Failed? ==> script[i].reply.code < 0
    modifies log.Parts()
    ensures log.Valid() && log.Floor() <= oldest'
    ensures log.Log() + Written(script[i + 1..], log.pageSize, log.available)
            == old(log.Log()) + Written(script[i..], log.pageSize, old(log.available))
    ensures var dropping := log.cache.DropBehindCache?;
            copies' + Reads(script[i + 1..], log.pageSize, log.Log(), oldest', dropping)
            == copies + Reads(script[i..], log.pageSize, old(log.Log()), oldest, dropping)
  {
    oldest', copies' := oldest, copies;
    if script[i].Read? {
      oldest', copies' := PerformRead(log, script, i, oldest, copies);
    } else {
      WriteStep(script[i..], log.pageSize, log.Log(), oldest, log.cache.DropBehindCache?);
      var data := Write(log, script[i]);
    }
  }

  /** A readable read, and how far back the next one may start. */
  method ReadOne(log: LogRWStream, step: Step, oldest: nat) returns (oldest': nat, copy: Copy)
    requires log.Valid() && log.Floor() <= oldest && Readable(step, log.available, oldest)
    modifies log.CacheParts()
    ensures log.Valid() && log.Floor() <= oldest' && log.Log() == old(log.Log())
    ensures copy == Copy(step.start, log.Log()[step.start..step.start + step.size])
    ensures oldest' == Oldest(step, log.pageSize, oldest, log.cache.DropBehindCache?)
  {
    var bytes := ReadWritten(log, step.start, step.size);
    oldest', copy := Oldest(step, log.pageSize, oldest, log.cache.DropBehindCache?), Copy(step.start, bytes);
  }

  method PerformRead(log: LogRWStream, script: seq<Step>, i: nat, oldest: nat, copies: seq<Copy>) returns (oldest': nat, copies': seq<Copy>)
    requires log.Valid() && log.Floor() <= oldest && i < |script| && script[i].Read?
    modifies log.CacheParts()
    ensures log.Valid() && log.Floor() <= oldest' && log.Log() == old(log.Log())
    ensures Written(script[i + 1..], log.pageSize, log.available) == Written(script[i..], log.pageSize, log.available)
    ensures var dropping := log.cache.DropBehindCache?;
            copies' + Reads(script[i + 1..], log.pageSize, log.Log(), oldest', dropping)
            == copies + Reads(script[i..], log.pageSize, log.Log(), oldest, dropping)
  {
    ghost var flat, p, dropping := log.Log(), log.pageSize, log.cache.DropBehindCache?;
    var step := script[i];
    oldest', copies' := oldest, copies;
    ReadAddsNothing(script[i..], p, |flat|);
    if Readable(step, log.available, oldest) {
      ReadHits(script[i..], p, flat, oldest, dropping);
      var copy;
      oldest', copy := ReadOne(log, step, oldest);
      copies' := copies + [copy];
      Regroup(copies, [copy], Reads(script[i + 1..], p, flat, oldest', dropping));
    } else {
      ReadMisses(script[i..], p, flat, oldest, dropping);
    }
  }
}
