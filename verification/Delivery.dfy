/**
  What one client of a tag stream gets: the call `StreamWrite` of
  src/main/cache/tagcache.h:261-323 turn by turn, and the bytes it sends.
 */
module Delivery {
  import opened Sequences

  /** A record of the tag log. Negative `fd`: for every subscriber of the tag. */
  datatype Tag = Tag(offset: nat, len: nat, streamId: nat, tagId: nat, fd: int, persistent: bool)

  /** The size of a record in the tag log. */
  const RecordSize: nat := 64

  /** The most tags one call finishes. */
  const MaxFDCount: nat := 16

  /**
    What the clients read: the tag log, the streams with a callback, and what every stream
    holds in the end. A slice that an append-only stream already has is the same slice in the end.
   */
  datatype Feed = Feed(log: seq<Tag>, streams: set<nat>, data: nat -> seq<Byte>)

  /** A client's state; the cursor counts records, `start` is an offset in the tag log. */
  datatype FDData = FDData(subs: set<nat>, current: Tag, registered: bool, cursor: nat, written: nat, start: nat)

  datatype Status = Going | Ended(r: int)

  /** A call of `StreamWrite` under way: the socket's answers to come, and what was sent so far. */
  datatype Call = Call(d: FDData, count: nat, answers: seq<int>, sent: seq<Byte>, status: Status)

  predicate Fits(w: Feed, t: Tag) { t.streamId in w.streams ==> t.offset + t.len <= |w.data(t.streamId)| }

  ghost predicate AllFit(w: Feed) { forall i :: 0 <= i < |w.log| ==> Fits(w, w.log[i]) }

  predicate Matches(fd: nat, d: FDData, t: Tag) { t.fd == fd || t.tagId in d.subs }

  /** An ephemeral tag from before the client registered. */
  predicate Stale(d: FDData, t: Tag) { !t.persistent && t.offset < d.start }

  function Slice(w: Feed, t: Tag): (s: seq<Byte>)
    requires Fits(w, t) && t.streamId in w.streams
    ensures |s| == t.len
  {
    w.data(t.streamId)[t.offset..t.offset + t.len]
  }

  /** What the socket says when `n` bytes are offered: negative for an error, at most `n`, and nothing once it has no more room. */
  function Answer(answers: seq<int>, n: nat): (x: int)
    ensures x <= n
  {
    if answers == [] then 0 else if answers[0] < n then answers[0] else n
  }

  function Rest(answers: seq<int>): seq<int> { if answers == [] then [] else answers[1..] }

  /** A client that is in the middle of a tag is in the middle of the one under its cursor. */
  ghost predicate Sound(w: Feed, fd: nat, d: FDData)
  {
    d.written > 0 ==>
      && d.cursor < |w.log| && d.current == w.log[d.cursor] && d.written < d.current.len
      && d.current.streamId in w.streams && Matches(fd, d, d.current)
  }

  function Advance(d: FDData): FDData { d.(cursor := d.cursor + 1, written := 0) }

  /** The rest of a tag is offered to the socket. */
  function Offer(c: Call, d: FDData, bytes: seq<Byte>): (n: Call)
  {
    var x, rest := Answer(c.answers, |bytes|), Rest(c.answers);
    if x < 0 then Call(d, c.count, rest, c.sent, Ended(-1))
    else if x < |bytes| then Call(d.(written := d.written + x), c.count, rest, c.sent + bytes[..x], Ended(1))
    else Call(Advance(d), c.count + 1, rest, c.sent + bytes, Going)
  }

  /** One pass of the loop. */
  function Turn(w: Feed, fd: nat, c: Call): (n: Call)
    requires AllFit(w) && Sound(w, fd, c.d)
  {
    var d := c.d;
    if c.status.Ended? then c
    else if c.count >= MaxFDCount || d.cursor >= |w.log| then
      c.(status := Ended(if d.cursor == |w.log| then 0 else 1))
    else if d.written > 0 then
      Offer(c, d, Slice(w, d.current)[d.written..])
    else
      var t := w.log[d.cursor];
      var d1 := d.(current := t);
      if Stale(d, t) then c.(d := d1)
      else if Matches(fd, d, t) && t.streamId in w.streams then Offer(c, d1, Slice(w, t))
      else c.(d := Advance(d1), count := c.count + 1)
  }

  /** What a client is owed for the tags `i..j`: the slices of those it matches, in order. */
  function Deliver(w: Feed, fd: nat, d: FDData, i: nat, j: nat): (s: seq<Byte>)
    requires AllFit(w) && i <= j <= |w.log|
    decreases j
  {
    if i == j then [] else Deliver(w, fd, d, i, j - 1) + Share(w, fd, d, w.log[j - 1])
  }

  /** What a client is owed for one tag. */
  function Share(w: Feed, fd: nat, d: FDData, t: Tag): (s: seq<Byte>)
    requires Fits(w, t)
  {
    if Matches(fd, d, t) && t.streamId in w.streams then Slice(w, t) else []
  }

  /** The part of the tag under the cursor that was sent already. */
  function Part(w: Feed, fd: nat, d: FDData): (s: seq<Byte>)
    requires AllFit(w) && Sound(w, fd, d)
  {
    if d.written == 0 then [] else Slice(w, d.current)[..d.written]
  }

  /** Same client, further on. */
  predicate Follows(d: FDData, e: FDData)
  {
    e.subs == d.subs && e.registered == d.registered && e.start == d.start && d.cursor <= e.cursor
  }

  lemma TurnKeeps(w: Feed, fd: nat, c: Call)
    requires AllFit(w) && Sound(w, fd, c.d)
    ensures var n := Turn(w, fd, c);
            && Sound(w, fd, n.d) && Follows(c.d, n.d)
            && n.count - c.count == n.d.cursor - c.d.cursor && (c.count <= MaxFDCount ==> n.count <= MaxFDCount)
            && |c.sent| <= |n.sent| && n.sent == c.sent + n.sent[|c.sent|..]
  {
  }

  lemma OfferSends(c: Call, d: FDData, s: seq<Byte>)
    requires d.written <= |s|
    ensures var n := Offer(c, d, s[d.written..]);
            && n.d.cursor >= d.cursor && |c.sent| <= |n.sent|
            && s[..d.written] + n.sent[|c.sent|..] == if n.d.cursor > d.cursor then s else s[..n.d.written]
  {
    var bytes, x := s[d.written..], Answer(c.answers, |s| - d.written);
    if x >= 0 { assert s[..d.written + x] == s[..d.written] + bytes[..x]; }
  }

  lemma DeliverOne(w: Feed, fd: nat, d: FDData, i: nat)
    requires AllFit(w) && i < |w.log|
    ensures Deliver(w, fd, d, i, i + 1) == Share(w, fd, d, w.log[i])
  {
    assert Deliver(w, fd, d, i, i) == [];
  }

  /** One turn sends exactly what lies between the two positions of the cursor. */
  lemma TurnSends(w: Feed, fd: nat, c: Call)
    requires AllFit(w) && Sound(w, fd, c.d) && c.d.cursor <= |w.log|
    ensures var n := Turn(w, fd, c);
            && Sound(w, fd, n.d) && n.d.cursor <= |w.log| && c.d.cursor <= n.d.cursor && |c.sent| <= |n.sent|
            && Part(w, fd, c.d) + n.sent[|c.sent|..] == Deliver(w, fd, c.d, c.d.cursor, n.d.cursor) + Part(w, fd, n.d)
  {
    TurnKeeps(w, fd, c);
    var d := c.d;
    if c.status.Going? && c.count < MaxFDCount && d.cursor < |w.log| {
      DeliverOne(w, fd, d, d.cursor);
      if d.written > 0 { RestSends(w, fd, c); } else { NewTagSends(w, fd, c); }
    }
  }

  lemma RestSends(w: Feed, fd: nat, c: Call)
    requires AllFit(w) && Sound(w, fd, c.d) && c.status.Going? && c.count < MaxFDCount && c.d.written > 0
    ensures var d, n := c.d, Turn(w, fd, c);
            && Sound(w, fd, n.d) && d.cursor <= n.d.cursor && |c.sent| <= |n.sent|
            && Part(w, fd, d) + n.sent[|c.sent|..]
               == (if n.d.cursor > d.cursor then Share(w, fd, d, w.log[d.cursor]) else []) + Part(w, fd, n.d)
  {
    TurnKeeps(w, fd, c);
    OfferSends(c, c.d, Slice(w, c.d.current));
  }

  lemma NewTagSends(w: Feed, fd: nat, c: Call)
    requires AllFit(w) && c.status.Going? && c.count < MaxFDCount && c.d.written == 0 && c.d.cursor < |w.log|
    ensures var d, n := c.d, Turn(w, fd, c);
            && Sound(w, fd, n.d) && d.cursor <= n.d.cursor && |c.sent| <= |n.sent|
            && n.sent[|c.sent|..]
               == (if n.d.cursor > d.cursor then Share(w, fd, d, w.log[d.cursor]) else []) + Part(w, fd, n.d)
  {
    TurnKeeps(w, fd, c);
    var d, t := c.d, w.log[c.d.cursor];
    if !Stale(d, t) && Matches(fd, d, t) && t.streamId in w.streams {
      assert Slice(w, t)[0..] == Slice(w, t);
      OfferSends(c, d.(current := t), Slice(w, t));
    }
  }

  /** Tag lists compose. */
  lemma {:induction false} DeliverAdds(w: Feed, fd: nat, d: FDData, i: nat, j: nat, k: nat)
    requires AllFit(w) && i <= j <= k <= |w.log|
    ensures Deliver(w, fd, d, i, k) == Deliver(w, fd, d, i, j) + Deliver(w, fd, d, j, k)
    decreases k
  {
    if j < k {
      DeliverAdds(w, fd, d, i, j, k - 1);
      var last := Share(w, fd, d, w.log[k - 1]);
      assert Deliver(w, fd, d, i, k) == Deliver(w, fd, d, i, k - 1) + last;
      assert Deliver(w, fd, d, j, k) == Deliver(w, fd, d, j, k - 1) + last;
    }
  }

  /** What was owed does not change when tags are queued, or with the rest of the client's state. */
  lemma {:induction false} DeliverStays(w: Feed, w': Feed, fd: nat, d: FDData, d': FDData, i: nat, j: nat)
    requires AllFit(w) && AllFit(w') && i <= j <= |w.log| <= |w'.log| && w'.log[..|w.log|] == w.log
    requires w'.streams == w.streams && w'.data == w.data
    requires forall k :: i <= k < j ==> (Matches(fd, d, w.log[k]) <==> Matches(fd, d', w.log[k]))
    ensures Deliver(w', fd, d', i, j) == Deliver(w, fd, d, i, j)
    decreases j
  {
    if i < j {
      DeliverStays(w, w', fd, d, d', i, j - 1);
      assert w'.log[j - 1] == w'.log[..|w.log|][j - 1];
    }
  }

  /** A client is owed nothing for tags it does not match. */
  lemma {:induction false} NothingOwed(w: Feed, fd: nat, d: FDData, i: nat, j: nat)
    requires AllFit(w) && i <= j <= |w.log|
    requires forall k :: i <= k < j ==> !Matches(fd, d, w.log[k])
    ensures Deliver(w, fd, d, i, j) == []
    decreases j
  {
    if i < j { NothingOwed(w, fd, d, i, j - 1); }
  }

  /** `n` turns. */
  function Turns(w: Feed, fd: nat, c: Call, n: nat): (e: Call)
    requires AllFit(w) && Sound(w, fd, c.d)
    ensures Sound(w, fd, e.d)
  {
    if n == 0 then c
    else
      var b := Turns(w, fd, c, n - 1);
      TurnKeeps(w, fd, b);
      Turn(w, fd, b)
  }

  function Fresh(d: FDData, answers: seq<int>): Call { Call(d, 0, answers, [], Going) }

  predicate StaleAt(w: Feed, d: FDData, i: nat) { i < |w.log| && Stale(d, w.log[i]) }

  /** No tag the call can come to is an ephemeral one from before the client registered. */
  ghost predicate NoStaleAhead(w: Feed, d: FDData)
  {
    forall i :: d.cursor <= i < d.cursor + MaxFDCount && (d.written > 0 ==> i > d.cursor) ==> !StaleAt(w, d, i)
  }

  /** At such a tag the loop goes round without moving. */
  predicate Stuck(w: Feed, c: Call)
  {
    c.status.Going? && c.count < MaxFDCount && c.d.written == 0 && StaleAt(w, c.d, c.d.cursor)
  }

  /** The call ends after some number of turns. */
  ghost predicate Ends(w: Feed, fd: nat, c: Call)
    requires AllFit(w) && Sound(w, fd, c.d)
  {
    exists n: nat :: Turns(w, fd, c, n).status.Ended?
  }

  lemma TurnOfStuck(w: Feed, fd: nat, c: Call)
    requires AllFit(w) && Sound(w, fd, c.d)
    ensures Stuck(w, c) ==> Stuck(w, Turn(w, fd, c))
  {
  }

  lemma {:induction false} StuckAfter(w: Feed, fd: nat, c: Call, n: nat, m: nat)
    requires AllFit(w) && Sound(w, fd, c.d) && Stuck(w, Turns(w, fd, c, n)) && m >= n
    ensures Stuck(w, Turns(w, fd, c, m))
  {
    if m > n {
      StuckAfter(w, fd, c, n, m - 1);
      TurnOfStuck(w, fd, Turns(w, fd, c, m - 1));
    }
  }

  lemma TurnOfEnded(w: Feed, fd: nat, c: Call)
    requires AllFit(w) && Sound(w, fd, c.d) && c.status.Ended?
    ensures Turn(w, fd, c) == c
  {
  }

  ghost predicate EndedAt(w: Feed, fd: nat, c: Call, n: nat, e: Call)
    requires AllFit(w) && Sound(w, fd, c.d)
  {
    true == (Turns(w, fd, c, n) == e && e.status.Ended?)
  }

  lemma {:induction false} EndedNext(w: Feed, fd: nat, c: Call, n: nat, e: Call)
    requires AllFit(w) && Sound(w, fd, c.d) && EndedAt(w, fd, c, n, e)
    ensures EndedAt(w, fd, c, n + 1, e)
  {
    TurnOfEnded(w, fd, e);
  }

  lemma {:induction false} EndedLater(w: Feed, fd: nat, c: Call, n: nat, m: nat, e: Call)
    requires AllFit(w) && Sound(w, fd, c.d) && EndedAt(w, fd, c, n, e) && m >= n
    ensures EndedAt(w, fd, c, m, e)
  {
    if m > n {
      EndedLater(w, fd, c, n, m - 1, e);
      EndedNext(w, fd, c, m - 1, e);
    }
  }

  lemma EndedAfter(w: Feed, fd: nat, c: Call, n: nat, m: nat)
    requires AllFit(w) && Sound(w, fd, c.d) && Turns(w, fd, c, n).status.Ended? && m >= n
    ensures Turns(w, fd, c, m) == Turns(w, fd, c, n)
  {
    EndedLater(w, fd, c, n, m, Turns(w, fd, c, n));
  }

  /** While no tag is stale every turn that does not end the call finishes one tag. */
  lemma {:induction false} TurnsMove(w: Feed, fd: nat, c: Call, n: nat)
    requires AllFit(w) && Sound(w, fd, c.d) && c.count == 0 && NoStaleAhead(w, c.d)
    ensures Moving(w, c.d, Turns(w, fd, c, n), n)
  {
    if n > 0 {
      TurnsMove(w, fd, c, n - 1);
      MovesOn(w, fd, c.d, Turns(w, fd, c, n - 1), n - 1);
    } else {
      assert c.d.written > 0 || !StaleAt(w, c.d, c.d.cursor);
    }
  }

  /** After `n` turns: a call that goes on has finished `n` tags. */
  ghost predicate Moving(w: Feed, d: FDData, e: Call, n: nat)
  {
    && Follows(d, e.d) && e.count == e.d.cursor - d.cursor <= MaxFDCount && !Stuck(w, e)
    && (e.status.Going? ==> e.count == n && (n > 0 ==> e.d.written == 0))
  }

  lemma MovesOn(w: Feed, fd: nat, d: FDData, e: Call, n: nat)
    requires AllFit(w) && Sound(w, fd, e.d) && NoStaleAhead(w, d) && Moving(w, d, e, n)
    ensures Moving(w, d, Turn(w, fd, e), n + 1)
  {
    TurnKeeps(w, fd, e);
    var t := Turn(w, fd, e);
    if Stuck(w, t) { assert StaleAt(w, d, t.d.cursor); }
  }

  /** A socket with room for the next `n` offers. */
  ghost predicate Generous(w: Feed, answers: seq<int>, n: nat)
  {
    |answers| >= n && forall i, j :: 0 <= i < n && 0 <= j < |w.log| ==> answers[i] >= w.log[j].len
  }

  lemma GenerousTurn(w: Feed, fd: nat, c: Call, n: nat)
    requires AllFit(w) && Sound(w, fd, c.d) && Generous(w, c.answers, n) && n > 0
    requires c.status.Going? && c.count < MaxFDCount && c.d.cursor < |w.log| && !Stuck(w, c)
    ensures var e := Turn(w, fd, c);
            && Generous(w, e.answers, n - 1) && e.status.Going?
            && e.count == c.count + 1 && e.d.cursor == c.d.cursor + 1 && e.d.written == 0
  {
  }

  /** The call is about to look at the k-th tag from where it began, and the socket has room for the rest. */
  ghost predicate Reached(w: Feed, d: FDData, e: Call, k: nat)
  {
    && e.status.Going? && e.count == k <= MaxFDCount && e.d.cursor == d.cursor + k && Follows(d, e.d)
    && e.d.written == (if k == 0 then d.written else 0) && Generous(w, e.answers, MaxFDCount - k)
  }

  lemma ReachNext(w: Feed, fd: nat, d: FDData, e: Call, k: nat)
    requires AllFit(w) && Sound(w, fd, e.d) && Reached(w, d, e, k) && k < MaxFDCount && d.cursor + k < |w.log|
    requires (d.written > 0 ==> k > 0) ==> !StaleAt(w, d, d.cursor + k)
    ensures Reached(w, d, Turn(w, fd, e), k + 1)
  {
    TurnKeeps(w, fd, e);
    GenerousTurn(w, fd, e, MaxFDCount - k);
  }

  /** With such a socket the call finishes one tag a turn, unless it comes to a stale one. */
  lemma {:induction false} GenerousCall(w: Feed, fd: nat, d: FDData, answers: seq<int>, k: nat)
    requires AllFit(w) && Sound(w, fd, d) && k <= MaxFDCount && d.cursor + k <= |w.log|
    requires Generous(w, answers, MaxFDCount)
    requires forall i :: d.cursor <= i < d.cursor + k && (d.written > 0 ==> i > d.cursor) ==> !StaleAt(w, d, i)
    ensures Reached(w, d, Turns(w, fd, Fresh(d, answers), k), k)
  {
    if k > 0 {
      GenerousCall(w, fd, d, answers, k - 1);
      ReachNext(w, fd, d, Turns(w, fd, Fresh(d, answers), k - 1), k - 1);
    }
  }

  lemma StuckAt(w: Feed, d: FDData, e: Call, k: nat)
    requires Reached(w, d, e, k) && k < MaxFDCount && (d.written > 0 ==> k > 0) && StaleAt(w, d, d.cursor + k)
    ensures Stuck(w, e)
  {
  }

  /** The first stale tag a call can come to. */
  function FirstStale(w: Feed, d: FDData, i: nat): (k: nat)
    requires d.cursor <= i
    ensures i <= k && forall j :: i <= j < k ==> !StaleAt(w, d, j)
    ensures k < d.cursor + MaxFDCount ==> StaleAt(w, d, k)
    decreases d.cursor + MaxFDCount - i
  {
    if i >= d.cursor + MaxFDCount || StaleAt(w, d, i) then i else FirstStale(w, d, i + 1)
  }

  /** `StreamWrite` comes back whatever the socket does exactly when no stale tag is within its reach. */
  lemma EndsExactlyWhen(w: Feed, fd: nat, d: FDData)
    requires AllFit(w) && Sound(w, fd, d)
    ensures (forall answers: seq<int> :: Ends(w, fd, Fresh(d, answers))) <==> NoStaleAhead(w, d)
  {
    if NoStaleAhead(w, d) {
      forall answers: seq<int> ensures Ends(w, fd, Fresh(d, answers)) { CallEnds(w, fd, Fresh(d, answers)); }
    } else {
      CanHang(w, fd, d);
    }
  }

  /** After 17 turns the call is over. */
  lemma CallEnds(w: Feed, fd: nat, c: Call)
    requires AllFit(w) && Sound(w, fd, c.d) && c.count == 0 && NoStaleAhead(w, c.d)
    ensures Turns(w, fd, c, MaxFDCount + 1).status.Ended? && Ends(w, fd, c)
  {
    TurnsMove(w, fd, c, MaxFDCount + 1);
  }

  /** A stale tag within reach and a socket with room: the call never comes back. */
  lemma CanHang(w: Feed, fd: nat, d: FDData)
    requires AllFit(w) && Sound(w, fd, d) && !NoStaleAhead(w, d)
    ensures exists answers: seq<int> :: !Ends(w, fd, Fresh(d, answers))
  {
    var first := FirstStale(w, d, if d.written > 0 then d.cursor + 1 else d.cursor);
    var answers := Unlimited(w, MaxFDCount);
    HangsAt(w, fd, d, answers, first - d.cursor);
  }

  lemma HangsAt(w: Feed, fd: nat, d: FDData, answers: seq<int>, k: nat)
    requires AllFit(w) && Sound(w, fd, d) && Generous(w, answers, MaxFDCount) && k < MaxFDCount
    requires (d.written > 0 ==> k > 0) && d.cursor + k < |w.log| && !w.log[d.cursor + k].persistent && w.log[d.cursor + k].offset < d.start
    requires forall i :: d.cursor <= i < d.cursor + k && (d.written > 0 ==> i > d.cursor) ==> !StaleAt(w, d, i)
    ensures !Ends(w, fd, Fresh(d, answers))
  {
    GenerousCall(w, fd, d, answers, k);
    var c := Fresh(d, answers);
    StuckAt(w, d, Turns(w, fd, c, k), k);
    NeverEnds(w, fd, c, k);
  }

  lemma NeverEnds(w: Feed, fd: nat, c: Call, n: nat)
    requires AllFit(w) && Sound(w, fd, c.d) && Stuck(w, Turns(w, fd, c, n))
    ensures !Ends(w, fd, c)
  {
    forall m: nat ensures Turns(w, fd, c, m).status.Going? {
      if m >= n {
        StuckAfter(w, fd, c, n, m);
      } else if Turns(w, fd, c, m).status.Ended? {
        EndedAfter(w, fd, c, m, n);
      }
    }
  }

  /** Answers with room for everything. */
  function Unlimited(w: Feed, n: nat): (answers: seq<int>)
    ensures Generous(w, answers, n)
  {
    seq(n, _ => Longest(w.log))
  }

  function Longest(log: seq<Tag>): (n: nat)
    ensures forall j :: 0 <= j < |log| ==> n >= log[j].len
  {
    if log == [] then 0
    else
      var m := Longest(log[..|log| - 1]);
      var len := log[|log| - 1].len;
      if m < len then len else m
  }

  /** More turns than a call takes. */
  function Enough(c: Call): (n: nat) { MaxFDCount + 1 }

  /** A whole call; it is over because no stale tag is within reach. */
  function Serve(w: Feed, fd: nat, d: FDData, answers: seq<int>): (e: Call)
    requires AllFit(w) && Sound(w, fd, d) && NoStaleAhead(w, d)
    ensures e.status.Ended? && Sound(w, fd, e.d)
  {
    CallEnds(w, fd, Fresh(d, answers));
    Turns(w, fd, Fresh(d, answers), Enough(Fresh(d, answers)))
  }

  /** A call that has begun and will end. */
  ghost predicate CallOk(w: Feed, fd: nat, c: Call)
  {
    true == (AllFit(w) && Sound(w, fd, c.d) && c.count == 0 && NoStaleAhead(w, c.d))
  }

  /** The state of the call after `n` turns. */
  ghost predicate At(w: Feed, fd: nat, c: Call, n: nat, e: Call)
    requires CallOk(w, fd, c)
  {
    true == (Turns(w, fd, c, n) == e)
  }

  /** The next turn of a call that goes on. */
  lemma NextTurn(w: Feed, fd: nat, c: Call, n: nat)
    requires CallOk(w, fd, c) && Turns(w, fd, c, n).status.Going?
    ensures var b := Turns(w, fd, c, n);
            && !Stuck(w, b) && b.count == n && Turns(w, fd, c, n + 1) == Turn(w, fd, b)
            && (Turn(w, fd, b).status.Going? ==> Turn(w, fd, b).count == n + 1)
  {
    TurnsMove(w, fd, c, n);
    TurnsMove(w, fd, c, n + 1);
  }

  /** The turn that ends the loop by its guard. */
  lemma LastTurn(w: Feed, fd: nat, c: Call, n: nat)
    requires CallOk(w, fd, c)
    requires var b := Turns(w, fd, c, n); b.status.Going? && (b.count >= MaxFDCount || b.d.cursor >= |w.log|)
    ensures var b := Turns(w, fd, c, n);
            At(w, fd, c, n + 1, b.(status := Ended(if b.d.cursor == |w.log| then 0 else 1)))
  {
  }

  lemma CallIs(w: Feed, fd: nat, d: FDData, answers: seq<int>, n: nat, e: Call)
    requires CallOk(w, fd, Fresh(d, answers)) && At(w, fd, Fresh(d, answers), n, e) && e.status.Ended?
    ensures e == Serve(w, fd, d, answers)
  {
    ServeIs(w, fd, d, answers, n);
  }

  /** However many turns it took to end the call, this is the call. */
  lemma ServeIs(w: Feed, fd: nat, d: FDData, answers: seq<int>, n: nat)
    requires AllFit(w) && Sound(w, fd, d) && NoStaleAhead(w, d) && Turns(w, fd, Fresh(d, answers), n).status.Ended?
    ensures Turns(w, fd, Fresh(d, answers), n) == Serve(w, fd, d, answers)
  {
    var c := Fresh(d, answers);
    CallEnds(w, fd, c);
    if n <= Enough(c) { EndedAfter(w, fd, c, n, Enough(c)); } else { EndedAfter(w, fd, c, Enough(c), n); }
  }

  /** What was sent is what lies between the two positions of the cursor, after any number of turns. */
  lemma {:induction false} TurnsSend(w: Feed, fd: nat, c: Call, n: nat)
    requires AllFit(w) && Sound(w, fd, c.d) && c.d.cursor <= |w.log| && c.sent == []
    ensures var e := Turns(w, fd, c, n);
            && Follows(c.d, e.d) && e.d.cursor <= |w.log|
            && Part(w, fd, c.d) + e.sent == Deliver(w, fd, c.d, c.d.cursor, e.d.cursor) + Part(w, fd, e.d)
  {
    if n > 0 {
      TurnsSend(w, fd, c, n - 1);
      var b := Turns(w, fd, c, n - 1);
      TurnKeeps(w, fd, b);
      TurnSends(w, fd, b);
      OneMore(w, fd, c.d, b, Turn(w, fd, b), Part(w, fd, c.d));
    }
  }

  lemma {:induction false} DeliverSame(w: Feed, fd: nat, d: FDData, d': FDData, i: nat, j: nat)
    requires AllFit(w) && i <= j <= |w.log| && d.subs == d'.subs
    ensures Deliver(w, fd, d, i, j) == Deliver(w, fd, d', i, j)
    decreases j
  {
    if i < j { DeliverSame(w, fd, d, d', i, j - 1); }
  }

  lemma OneMore(w: Feed, fd: nat, d: FDData, b: Call, e: Call, part: seq<Byte>)
    requires AllFit(w) && Sound(w, fd, b.d) && Sound(w, fd, e.d)
    requires d.cursor <= b.d.cursor <= e.d.cursor <= |w.log| && b.d.subs == d.subs
    requires part + b.sent == Deliver(w, fd, d, d.cursor, b.d.cursor) + Part(w, fd, b.d)
    requires |b.sent| <= |e.sent| && e.sent == b.sent + e.sent[|b.sent|..]
    requires Part(w, fd, b.d) + e.sent[|b.sent|..] == Deliver(w, fd, b.d, b.d.cursor, e.d.cursor) + Part(w, fd, e.d)
    ensures part + e.sent == Deliver(w, fd, d, d.cursor, e.d.cursor) + Part(w, fd, e.d)
  {
    var more := e.sent[|b.sent|..];
    var first, p, q := Deliver(w, fd, d, d.cursor, b.d.cursor), Part(w, fd, b.d), Part(w, fd, e.d);
    var second := Deliver(w, fd, b.d, b.d.cursor, e.d.cursor);
    DeliverAdds(w, fd, d, d.cursor, b.d.cursor, e.d.cursor);
    DeliverSame(w, fd, b.d, d, b.d.cursor, e.d.cursor);
    RegroupParts(part + b.sent, more, first, p, second, q);
    Regroup(part, b.sent, more);
  }

  lemma RegroupParts(sent: seq<Byte>, more: seq<Byte>, first: seq<Byte>, p: seq<Byte>, second: seq<Byte>, q: seq<Byte>)
    requires sent == first + p && p + more == second + q
    ensures sent + more == (first + second) + q
  {
    Regroup(first, p, more);
    Regroup(first, second, q);
  }

  /** What the result of a call says, and what is so while it goes on. */
  ghost predicate Means(w: Feed, d: FDData, c: Call)
  {
    true == (
      && c.count == c.d.cursor - d.cursor <= MaxFDCount && c.d.cursor <= |w.log|
      && (c.status.Ended? ==>
           && (c.status.r == 0 || c.status.r == 1 || c.status.r == -1)
           && (c.status.r == 0 ==> c.d.cursor == |w.log| && c.d.written == 0)
           && (c.status.r == 1 ==> c.d.cursor < |w.log|)))
  }

  /** With a socket that has room for 16 offers. */
  ghost predicate MeansMore(w: Feed, d: FDData, c: Call)
  {
    true == (
      && c.count == c.d.cursor - d.cursor <= MaxFDCount && c.d.cursor <= |w.log|
      && (c.status.Going? ==> Generous(w, c.answers, MaxFDCount - c.count))
      && (c.status.Ended? ==> c.status.r >= 0 && (c.status.r == 1 ==> c.count == MaxFDCount)))
  }

  lemma TurnMeans(w: Feed, fd: nat, d: FDData, c: Call)
    requires AllFit(w) && Sound(w, fd, c.d) && Means(w, d, c)
    ensures Means(w, d, Turn(w, fd, c))
  {
  }

  lemma TurnMeansMore(w: Feed, fd: nat, d: FDData, c: Call)
    requires AllFit(w) && Sound(w, fd, c.d) && MeansMore(w, d, c)
    ensures MeansMore(w, d, Turn(w, fd, c))
  {
    if c.status.Going? && c.count < MaxFDCount && c.d.cursor < |w.log| && !Stuck(w, c) {
      GenerousTurn(w, fd, c, MaxFDCount - c.count);
    }
  }

  lemma {:induction false} TurnsMean(w: Feed, fd: nat, c: Call, n: nat)
    requires AllFit(w) && Sound(w, fd, c.d) && Means(w, c.d, c)
    ensures Means(w, c.d, Turns(w, fd, c, n))
  {
    if n > 0 {
      TurnsMean(w, fd, c, n - 1);
      TurnMeans(w, fd, c.d, Turns(w, fd, c, n - 1));
    }
  }

  lemma {:induction false} TurnsMeanMore(w: Feed, fd: nat, c: Call, n: nat)
    requires AllFit(w) && Sound(w, fd, c.d) && MeansMore(w, c.d, c)
    ensures MeansMore(w, c.d, Turns(w, fd, c, n))
  {
    if n > 0 {
      TurnsMeanMore(w, fd, c, n - 1);
      TurnMeansMore(w, fd, c.d, Turns(w, fd, c, n - 1));
    }
  }

  /** A socket that takes at least one byte of what it is offered first, and does not fail. */
  predicate Willing(answers: seq<int>) { answers != [] && answers[0] > 0 && NeverFails(answers) }

  predicate NeverFails(answers: seq<int>) { forall i :: 0 <= i < |answers| ==> answers[i] >= 0 }

  /** A client that is at a later tag, or has been sent more of the same one. */
  predicate Further(d: FDData, e: FDData) { d.cursor < e.cursor || (d.cursor == e.cursor && d.written < e.written) }

  /** A call on such a socket that has made a turn: the client is further on, or had come to the end. */
  ghost predicate MovedOn(w: Feed, d: FDData, c: Call)
  {
    true == (
      && NeverFails(c.answers) && (c.status.Ended? ==> c.status.r >= 0)
      && (if d.cursor >= |w.log| then c.status.Ended? && c.d == d
          else Further(d, c.d) && (d.cursor == c.d.cursor ==> c.status.Ended?)))
  }

  lemma FirstTurnMoves(w: Feed, fd: nat, d: FDData, answers: seq<int>)
    requires AllFit(w) && Sound(w, fd, d) && Willing(answers) && !Stuck(w, Fresh(d, answers))
    ensures MovedOn(w, d, Turn(w, fd, Fresh(d, answers)))
  {
  }

  lemma NextTurnMoves(w: Feed, fd: nat, d: FDData, c: Call)
    requires AllFit(w) && Sound(w, fd, c.d) && MovedOn(w, d, c)
    ensures MovedOn(w, d, Turn(w, fd, c))
  {
  }

  /** However little such a socket takes, a call sends something or finishes a tag, unless it has come to the end. */
  lemma {:induction false} TurnsMoveOn(w: Feed, fd: nat, d: FDData, answers: seq<int>, n: nat)
    requires AllFit(w) && Sound(w, fd, d) && Willing(answers) && !Stuck(w, Fresh(d, answers)) && n > 0
    ensures MovedOn(w, d, Turns(w, fd, Fresh(d, answers), n))
  {
    if n == 1 {
      assert Turns(w, fd, Fresh(d, answers), 0) == Fresh(d, answers);
      FirstTurnMoves(w, fd, d, answers);
    } else {
      TurnsMoveOn(w, fd, d, answers, n - 1);
      NextTurnMoves(w, fd, d, Turns(w, fd, Fresh(d, answers), n - 1));
    }
  }

  /** What the result of a call means: nothing is left, or there is more to send; with a socket that has room, more only after 16 tags. */
  lemma ServeReturns(w: Feed, fd: nat, d: FDData, answers: seq<int>)
    requires AllFit(w) && Sound(w, fd, d) && NoStaleAhead(w, d) && d.cursor <= |w.log|
    ensures var e := Serve(w, fd, d, answers);
            && (e.status.r == 0 || e.status.r == 1 || e.status.r == -1)
            && e.d.cursor <= d.cursor + MaxFDCount
            && (e.status.r == 0 ==> e.d.cursor == |w.log| && e.d.written == 0)
            && (e.status.r == 1 ==> e.d.cursor < |w.log|)
            && (Generous(w, answers, MaxFDCount) ==>
                  e.status.r >= 0 && (e.status.r == 1 ==> e.d.cursor == d.cursor + MaxFDCount))
  {
    TurnsMean(w, fd, Fresh(d, answers), Enough(Fresh(d, answers)));
    if Generous(w, answers, MaxFDCount) { TurnsMeanMore(w, fd, Fresh(d, answers), Enough(Fresh(d, answers))); }
  }

  /** What a call has used of the socket's answers: none was negative but the last one, and that one exactly when the call ended with -1. */
  ghost predicate Used(all: seq<int>, c: Call)
  {
    true == (
      && |c.answers| <= |all| && c.answers == all[|all| - |c.answers|..]
      && var n := |all| - |c.answers|;
      && (forall i :: 0 <= i < n - 1 ==> all[i] >= 0)
      && (if c.status == Ended(-1) then n > 0 && all[n - 1] < 0 else n > 0 ==> all[n - 1] >= 0))
  }

  lemma TurnUses(w: Feed, fd: nat, all: seq<int>, c: Call)
    requires AllFit(w) && Sound(w, fd, c.d) && Used(all, c)
    ensures Used(all, Turn(w, fd, c))
  {
    var n := |all| - |c.answers|;
    if c.answers != [] { assert c.answers[1..] == all[n + 1..] && c.answers[0] == all[n]; }
  }

  lemma {:induction false} TurnsUse(w: Feed, fd: nat, c: Call, n: nat)
    requires AllFit(w) && Sound(w, fd, c.d) && c.status.Going?
    ensures Used(c.answers, Turns(w, fd, c, n))
  {
    if n > 0 {
      TurnsUse(w, fd, c, n - 1);
      TurnUses(w, fd, c.answers, Turns(w, fd, c, n - 1));
    } else {
      assert c.answers[0..] == c.answers;
    }
  }

  /** A call fails exactly when the socket answered below zero; then it offers nothing more. */
  lemma FailsExactlyWhen(w: Feed, fd: nat, d: FDData, answers: seq<int>)
    requires AllFit(w) && Sound(w, fd, d) && NoStaleAhead(w, d) && d.cursor <= |w.log|
    ensures var e := Serve(w, fd, d, answers);
            && |e.answers| <= |answers| && e.answers == answers[|answers| - |e.answers|..]
            && var used := answers[..|answers| - |e.answers|];
            && (e.status.r < 0 <==> exists i :: 0 <= i < |used| && used[i] < 0)
            && (e.status.r < 0 ==> |used| > 0 && used[|used| - 1] < 0 && NeverFails(used[..|used| - 1]))
  {
    TurnsUse(w, fd, Fresh(d, answers), Enough(Fresh(d, answers)));
    ServeReturns(w, fd, d, answers);
    UsedUp(answers, Serve(w, fd, d, answers));
  }

  lemma UsedUp(all: seq<int>, c: Call)
    requires Used(all, c) && c.status.Ended? && c.status.r >= -1
    ensures |c.answers| <= |all| && c.answers == all[|all| - |c.answers|..]
    ensures var used := all[..|all| - |c.answers|];
            && (c.status.r < 0 <==> exists i :: 0 <= i < |used| && used[i] < 0)
            && (c.status.r < 0 ==> |used| > 0 && used[|used| - 1] < 0 && NeverFails(used[..|used| - 1]))
  {
    var n := |all| - |c.answers|;
    var used := all[..n];
    assert forall i :: 0 <= i < n ==> used[i] == all[i];
    if c.status.r < 0 {
      assert c.status == Ended(-1) && used[n - 1] < 0;
    }
  }

  ghost predicate AllInside(tags: seq<Tag>, streams: set<nat>, data: nat -> seq<Byte>)
  {
    forall i :: 0 <= i < |tags| && tags[i].streamId in streams ==> tags[i].offset + tags[i].len <= |data(tags[i].streamId)|
  }

  /** What a subscriber of the tags `subs` is to get of some records, in order: of each whose tag it subscribed to, the bytes it points to, if its stream is there. */
  ghost function Expected(tags: seq<Tag>, subs: set<nat>, streams: set<nat>, data: nat -> seq<Byte>): (s: seq<Byte>)
    requires AllInside(tags, streams, data)
  {
    if tags == [] then []
    else
      var t := tags[0];
      (if t.tagId in subs && t.streamId in streams then data(t.streamId)[t.offset..t.offset + t.len] else [])
      + Expected(tags[1..], subs, streams, data)
  }

  /** When all records are for subscribers, what a client is owed is what its subscriptions say. */
  lemma {:induction false} DeliverIsExpected(w: Feed, fd: nat, d: FDData, i: nat)
    requires AllFit(w) && i <= |w.log| && forall k :: i <= k < |w.log| ==> w.log[k].fd < 0
    ensures AllInside(w.log[i..], w.streams, w.data) && Deliver(w, fd, d, i, |w.log|) == Expected(w.log[i..], d.subs, w.streams, w.data)
    decreases |w.log| - i
  {
    if i < |w.log| {
      DeliverFirst(w, fd, d, i, |w.log|);
      ShareIs(w, fd, d, w.log[i]);
      ExpectedFirst(w.log, i, d.subs, w.streams, w.data);
      DeliverIsExpected(w, fd, d, i + 1);
    }
  }

  lemma {:induction false} DeliverFirst(w: Feed, fd: nat, d: FDData, i: nat, n: nat)
    requires AllFit(w) && i < n <= |w.log|
    ensures Deliver(w, fd, d, i, n) == Share(w, fd, d, w.log[i]) + Deliver(w, fd, d, i + 1, n)
  {
    DeliverAdds(w, fd, d, i, i + 1, n);
    DeliverOne(w, fd, d, i);
  }

  /** What a client is owed for one tag: the bytes it points to, if it is for that descriptor or one that was subscribed to. */
  lemma {:induction false} ShareIs(w: Feed, fd: nat, d: FDData, t: Tag)
    requires Fits(w, t)
    ensures Share(w, fd, d, t)
            == if (t.fd == fd || t.tagId in d.subs) && t.streamId in w.streams then w.data(t.streamId)[t.offset..t.offset + t.len] else []
  {
  }

  lemma {:induction false} ExpectedFirst(tags: seq<Tag>, i: nat, subs: set<nat>, streams: set<nat>, data: nat -> seq<Byte>)
    requires i < |tags|
    requires AllInside(tags, streams, data)
    ensures var t := tags[i];
            Expected(tags[i..], subs, streams, data)
            == (if t.tagId in subs && t.streamId in streams then data(t.streamId)[t.offset..t.offset + t.len] else []) + Expected(tags[i + 1..], subs, streams, data)
  {
    assert tags[i..][1..] == tags[i + 1..];
  }

  lemma {:induction false} TurnsFollow(w: Feed, fd: nat, c: Call, n: nat)
    requires AllFit(w) && Sound(w, fd, c.d)
    ensures Follows(c.d, Turns(w, fd, c, n).d)
  {
    if n > 0 {
      TurnsFollow(w, fd, c, n - 1);
      TurnKeeps(w, fd, Turns(w, fd, c, n - 1));
    }
  }
}
