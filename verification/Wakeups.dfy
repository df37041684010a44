/**
  The wakeup protocol between a tag stream and the event loop, on values: what each
  operation of src/main/cache/tagcache.h:325-446 and src/main/event/event_mgr.h:99-161 does
  to the state, and why no client that is owed a tag sleeps.
 */
module Wakeups {
  import opened Sequences
  import opened Delivery

  /**
    The tag stream and the event manager together. `efd` is the eventfd with its `counter`;
    `armed` are the descriptors that wait for EPOLLOUT, `open` those registered for events.
    For each client, `sent` is what its socket took and `origin` where it was started.
   */
  datatype World = World(
    efd: nat, streams: set<nat>, data: nat -> seq<Byte>,
    log: seq<Tag>, drained: nat, fds: map<nat, FDData>, tag2fd: map<nat, set<nat>>,
    counter: nat, armed: set<nat>, open: set<nat>,
    sent: map<nat, seq<Byte>>, origin: map<nat, nat>)

  /** The most records one `Read` drains. */
  const MaxRecordCount: nat := 128

  function Most(w: World): (n: nat) { MaxRecordCount }

  function FeedOf(w: World): Feed { Feed(w.log, w.streams, w.data) }

  const NoTag: Tag := Tag(0, 0, 0, 0, -1, false)

  // ----- the invariant -----

  /** The shape of the state. */
  ghost predicate Shaped(w: World)
  {
    true == (
      && w.drained <= |w.log| && AllFit(FeedOf(w))
      && w.efd in w.open && w.efd !in w.fds && w.armed <= w.open
      && (forall fd :: fd in w.armed && fd != w.efd ==> fd in w.fds && w.fds[fd].registered)
      && w.fds.Keys == w.sent.Keys == w.origin.Keys)
  }

  /** The index from tags to clients is the inverse of the subscriptions. */
  ghost predicate Indexed(w: World)
  {
    true == (
      && (forall fd, t :: fd in w.fds && t in w.fds[fd].subs ==> t in w.tag2fd && fd in w.tag2fd[t])
      && (forall fd, t :: t in w.tag2fd && fd in w.tag2fd[t] ==> fd in w.fds && t in w.fds[fd].subs))
  }

  /** Tags are for subscribers, not for one descriptor. */
  ghost predicate Broadcast(w: World)
  {
    true == (forall i :: 0 <= i < |w.log| ==> w.log[i].fd < 0 && w.log[i].tagId in w.tag2fd)
  }

  ghost predicate Skeleton(w: World) { true == (Shaped(w) && Indexed(w) && Broadcast(w)) }

  ghost predicate NoneStale(log: seq<Tag>, d: FDData)
  {
    true == (forall i :: d.cursor <= i < |log| ==> !Stale(d, log[i]))
  }

  /** A client in order; when it was started, its tags from there on are not stale. */
  ghost predicate InOrder(w: World, fd: nat)
    requires fd in w.fds && fd in w.origin
  {
    var d := w.fds[fd];
    true == (
      && Sound(FeedOf(w), fd, d) && w.origin[fd] <= d.cursor <= |w.log|
      && (if d.registered then NoneStale(w.log, d) else d.cursor == d.written == 0))
  }

  /** Exactly-once: the socket took what the client is owed up to its cursor, and the part it took of the next tag. */
  ghost predicate Exact(w: World, fd: nat)
    requires fd in w.fds && fd in w.sent && fd in w.origin
  {
    var f, d := FeedOf(w), w.fds[fd];
    && AllFit(f) && Sound(f, fd, d) && w.origin[fd] <= d.cursor <= |w.log|
    && w.sent[fd] == Deliver(f, fd, d, w.origin[fd], d.cursor) + Part(f, fd, d)
  }

  /** A drained tag that the client is still to get. */
  ghost predicate Owed(w: World, fd: nat, k: nat)
    requires fd in w.fds
  {
    w.fds[fd].cursor <= k < w.drained && k < |w.log| && Matches(fd, w.fds[fd], w.log[k])
  }

  /** A running client that is owed a drained tag, or is in the middle of one, waits for EPOLLOUT. */
  ghost predicate Woken(w: World, fd: nat)
    requires fd in w.fds
  {
    w.fds[fd].registered && fd in w.open && (w.fds[fd].written > 0 || exists k :: Owed(w, fd, k)) ==> fd in w.armed
  }

  /** Undrained tags keep the eventfd busy. */
  ghost predicate DrainPending(w: World)
  {
    w.drained < |w.log| ==> w.efd in w.armed || w.counter > 0
  }

  ghost predicate Client(w: World, fd: nat)
    requires fd in w.fds && fd in w.sent && fd in w.origin
  {
    true == (InOrder(w, fd) && Exact(w, fd) && Woken(w, fd))
  }

  ghost predicate Clients(w: World)
    requires w.fds.Keys == w.sent.Keys == w.origin.Keys
  {
    true == (forall fd :: fd in w.fds ==> Client(w, fd))
  }

  /** The invariant without the eventfd's part. */
  ghost predicate Steady(w: World)
  {
    Skeleton(w) && Clients(w)
  }

  ghost predicate Inv(w: World) { true == (Steady(w) && DrainPending(w)) }

  /** Without new subscriptions and tags the index stays in order. */
  lemma IndexStays(w: World, v: World)
    requires Indexed(w) && Broadcast(w) && v.log == w.log && v.tag2fd == w.tag2fd && v.fds.Keys == w.fds.Keys
    requires forall fd :: fd in w.fds ==> v.fds[fd].subs == w.fds[fd].subs
    ensures Indexed(v) && Broadcast(v)
  {
  }

  // ----- epoll -----

  /** `SetWrite`: fails, and changes nothing, for a descriptor that is not registered. */
  function Arm(w: World, fd: nat): World { if fd in w.open then w.(armed := w.armed + {fd}) else w }

  /** `ClearWrite`. */
  function Disarm(w: World, fd: nat): World { w.(armed := w.armed - {fd}) }

  // ----- the tag stream -----

  function Register(w: World, fd: nat): World
  {
    if fd in w.fds then w
    else w.(fds := w.fds[fd := FDData({}, NoTag, false, 0, 0, RecordSize * |w.log|)], sent := w.sent[fd := []], origin := w.origin[fd := 0])
  }

  function Listeners(w: World, tag: nat): set<nat> { if tag in w.tag2fd then w.tag2fd[tag] else {} }

  function Subscribe(w: World, fd: nat, tag: nat): World
    requires fd in w.fds
  {
    w.(tag2fd := w.tag2fd[tag := Listeners(w, tag) + {fd}], fds := w.fds[fd := w.fds[fd].(subs := w.fds[fd].subs + {tag})])
  }

  function Start(w: World, fd: nat, offset: nat): World
  {
    if fd !in w.fds then w
    else Arm(w.(fds := w.fds[fd := w.fds[fd].(registered := true, cursor := offset)], origin := w.origin[fd := offset]), fd)
  }

  function Queue(w: World, t: Tag): World
  {
    Arm(w.(tag2fd := w.tag2fd[t.tagId := Listeners(w, t.tagId)], log := w.log + [t]), w.efd)
  }

  /** The clients a drained tag wakes. */
  function Audience(w: World, t: Tag): set<nat>
  {
    set fd | fd in Listeners(w, t.tagId) && fd in w.fds && w.fds[fd].registered && fd in w.open
  }

  /** One record of `Read`: a tag for one descriptor re-arms the eventfd, another one its subscribers. */
  function DrainOne(w: World): World
    requires w.drained < |w.log|
  {
    var t := w.log[w.drained];
    if t.fd > 0 then Arm(w, w.efd).(drained := w.drained + 1)
    else w.(armed := w.armed + Audience(w, t), drained := w.drained + 1)
  }

  function Drain(w: World, n: nat): World
    decreases n
  {
    if n == 0 || w.drained >= |w.log| then w else Drain(DrainOne(w), n - 1)
  }

  /** Draining moves on by as many records, or as there are, and disarms nobody. */
  lemma {:induction false} DrainCount(w: World, n: nat)
    ensures var v := Drain(w, n);
            v == w.(drained := v.drained, armed := v.armed) && w.armed <= v.armed && v.drained == Max(w.drained, Min(w.drained + n, |w.log|))
    decreases n
  {
    if n > 0 && w.drained < |w.log| { DrainCount(DrainOne(w), n - 1); }
  }

  /** `Read`: with a counter of zero there is nothing to read and the result is an error. */
  function ReadEvent(w: World): (World, int)
  {
    if w.counter == 0 then (w, -1)
    else
      var v := Drain(w.(counter := 0), Most(w));
      (if v.drained < |v.log| then Arm(v, v.efd) else v, 0)
  }

  /** `Write` with the loop's reaction to its result 0. */
  function WriteEvent(w: World): World { Disarm(w.(counter := w.counter + RecordSize * |w.log|), w.efd) }

  /** A client whose next call of `StreamWrite` comes back. */
  ghost predicate Servable(w: World, fd: nat)
  {
    && fd in w.fds && fd in w.sent && AllFit(FeedOf(w))
    && Sound(FeedOf(w), fd, w.fds[fd]) && NoStaleAhead(FeedOf(w), w.fds[fd])
  }

  /** A client is further on, and its socket took `more`. */
  function Move(w: World, fd: nat, d: FDData, more: seq<Byte>): World
    requires fd in w.fds && fd in w.sent
  {
    w.(fds := w.fds[fd := d], sent := w.sent[fd := w.sent[fd] + more])
  }

  /** `StreamWrite` with the loop's reaction: 0 clears EPOLLOUT, 1 keeps it, an error closes. */
  function ServeClient(w: World, fd: nat, answers: seq<int>): (World, int)
    requires Servable(w, fd)
  {
    var e := Serve(FeedOf(w), fd, w.fds[fd], answers);
    var v := Move(w, fd, e.d, e.sent);
    (if e.status.r == 0 then Disarm(v, fd) else v, e.status.r)
  }

  // ----- each operation keeps the invariant -----

  /** What matters to a client's past is not changed: its own state, and the log up to now. */
  ghost predicate SameFor(w: World, v: World, fd: nat)
  {
    && fd in w.fds && fd in v.fds && v.fds[fd] == w.fds[fd]
    && fd in w.sent && fd in v.sent && v.sent[fd] == w.sent[fd]
    && fd in w.origin && fd in v.origin && v.origin[fd] == w.origin[fd]
    && |w.log| <= |v.log| && v.log[..|w.log|] == w.log && v.streams == w.streams && v.data == w.data
  }

  lemma SameTag(w: World, v: World, fd: nat, k: nat)
    requires SameFor(w, v, fd) && k < |w.log|
    ensures v.log[k] == w.log[k]
  {
    assert v.log[..|w.log|][k] == v.log[k];
  }

  lemma StaysExact(w: World, v: World, fd: nat)
    requires SameFor(w, v, fd) && Exact(w, fd) && AllFit(FeedOf(v))
    ensures Exact(v, fd)
  {
    var d := w.fds[fd];
    DeliverStays(FeedOf(w), FeedOf(v), fd, d, d, w.origin[fd], d.cursor);
    if d.written > 0 { SameTag(w, v, fd, d.cursor); }
  }

  lemma StaysInOrder(w: World, v: World, fd: nat)
    requires SameFor(w, v, fd) && InOrder(w, fd) && AllFit(FeedOf(w))
    requires w.fds[fd].registered ==> forall i :: |w.log| <= i < |v.log| ==> !Stale(w.fds[fd], v.log[i])
    ensures InOrder(v, fd)
  {
    forall i | 0 <= i < |w.log| ensures v.log[i] == w.log[i] { SameTag(w, v, fd, i); }
  }

  lemma StaysWoken(w: World, v: World, fd: nat)
    requires SameFor(w, v, fd) && Woken(w, fd) && w.drained <= |w.log|
    requires v.drained <= w.drained && (fd in v.open ==> fd in w.open) && (fd in w.armed && fd in v.open ==> fd in v.armed)
    ensures Woken(v, fd)
  {
    if k: nat :| Owed(v, fd, k) {
      SameTag(w, v, fd, k);
      assert Owed(w, fd, k);
    }
  }

  /** A running client that matches a tag is among those the tag wakes. */
  lemma Hears(w: World, fd: nat, t: Tag)
    requires Indexed(w) && t.fd < 0 && fd in w.fds && w.fds[fd].registered && fd in w.open && Matches(fd, w.fds[fd], t)
    ensures fd in Audience(w, t)
  {
  }

  lemma DrainOneWakes(w: World, fd: nat)
    requires Indexed(w) && Broadcast(w) && w.drained < |w.log| && fd in w.fds && Woken(w, fd)
    ensures Woken(DrainOne(w), fd)
  {
    var v, t := DrainOne(w), w.log[w.drained];
    assert t.fd < 0 && v == w.(armed := w.armed + Audience(w, t), drained := w.drained + 1);
    if fd !in v.armed && w.fds[fd].registered && fd in w.open {
      if k: nat :| Owed(v, fd, k) {
        if k == w.drained { Hears(w, fd, t); } else { assert Owed(w, fd, k); }
      }
    }
  }

  /** A client whose own state did not change stays as it was, if it is woken. */
  lemma ClientStays(w: World, v: World, fd: nat)
    requires SameFor(w, v, fd) && Client(w, fd) && Shaped(w) && AllFit(FeedOf(v)) && Woken(v, fd)
    requires w.fds[fd].registered ==> forall i :: |w.log| <= i < |v.log| ==> !Stale(w.fds[fd], v.log[i])
    ensures Client(v, fd)
  {
    StaysInOrder(w, v, fd);
    StaysExact(w, v, fd);
  }

  /** All that draining changes: the drain position moves on, and more descriptors are armed. */
  ghost predicate Drained(w: World, v: World)
  {
    true == (v == w.(drained := v.drained, armed := v.armed) && w.armed <= v.armed && w.drained <= v.drained)
  }

  lemma DrainedClient(w: World, v: World, fd: nat)
    requires Shaped(w) && fd in w.fds && Client(w, fd) && Drained(w, v) && Woken(v, fd)
    ensures Client(v, fd)
  {
    ClientStays(w, v, fd);
  }

  lemma DrainOneKeeps(w: World)
    requires Steady(w) && w.drained < |w.log|
    ensures Steady(DrainOne(w)) && Drained(w, DrainOne(w)) && DrainOne(w).drained == w.drained + 1
  {
    var v := DrainOne(w);
    DrainOneShaped(w);
    forall fd | fd in v.fds ensures Client(v, fd) {
      DrainOneWakes(w, fd);
      DrainedClient(w, v, fd);
    }
  }

  lemma DrainOneShaped(w: World)
    requires Skeleton(w) && w.drained < |w.log|
    ensures Skeleton(DrainOne(w)) && Drained(w, DrainOne(w))
  {
  }

  /** `n` records of a log were drained, or all that were left. */
  ghost predicate DrainedBy(w: World, n: nat, v: World)
  {
    true == (Steady(v) && Drained(w, v) && v.drained == if w.drained + n <= |w.log| then w.drained + n else |w.log|)
  }

  lemma {:induction false} DrainKeeps(w: World, n: nat)
    requires Steady(w)
    ensures DrainedBy(w, n, Drain(w, n))
    decreases n
  {
    if n > 0 && w.drained < |w.log| {
      DrainOneKeeps(w);
      DrainKeeps(DrainOne(w), n - 1);
      DrainedOne(w, DrainOne(w), n, Drain(DrainOne(w), n - 1));
    } else {
      DrainedNone(w, n);
    }
  }

  lemma DrainedOne(w: World, v: World, n: nat, u: World)
    requires n > 0 && w.drained < |w.log| && Drained(w, v) && v.drained == w.drained + 1 && DrainedBy(v, n - 1, u)
    ensures DrainedBy(w, n, u)
  {
    DrainedOn(w, v, u);
  }

  lemma DrainedNone(w: World, n: nat)
    requires Steady(w) && (n == 0 || w.drained >= |w.log|)
    ensures DrainedBy(w, n, w)
  {
  }

  lemma DrainedOn(w: World, v: World, u: World)
    requires Drained(w, v) && Drained(v, u)
    ensures Drained(w, u) && u.log == w.log
  {
  }

  /** Nothing about the clients depends on the eventfd. */
  ghost predicate SameButEvent(w: World, v: World)
  {
    true == (
      && v == w.(counter := v.counter, armed := v.armed)
      && (forall fd :: fd != w.efd ==> (fd in v.armed <==> fd in w.armed)))
  }

  lemma EventfdShaped(w: World, v: World)
    requires Skeleton(w) && SameButEvent(w, v) && v.armed <= v.open
    ensures Skeleton(v)
  {
  }

  lemma EventfdClient(w: World, v: World, fd: nat)
    requires Shaped(w) && SameButEvent(w, v) && fd in w.fds && Client(w, fd)
    ensures Client(v, fd)
  {
    assert fd != w.efd;
    StaysWoken(w, v, fd);
    ClientStays(w, v, fd);
  }

  lemma EventfdApart(w: World, v: World)
    requires Steady(w) && SameButEvent(w, v) && v.armed <= v.open
    ensures Steady(v)
  {
    EventfdShaped(w, v);
    forall fd | fd in v.fds ensures Client(v, fd) { EventfdClient(w, v, fd); }
  }

  lemma ReadKeeps(w: World)
    requires Inv(w) && w.counter > 0
    ensures var (v, r) := ReadEvent(w); Inv(v) && r == 0 && v.counter == 0
  {
    var u := w.(counter := 0);
    EventfdApart(w, u);
    DrainKeeps(u, Most(w));
    EventArmed(Drain(u, Most(w)));
  }

  lemma EventArmed(w: World)
    requires Steady(w)
    ensures Steady(Arm(w, w.efd)) && w.efd in Arm(w, w.efd).armed
  {
    EventfdApart(w, Arm(w, w.efd));
  }

  lemma WriteKeeps(w: World)
    requires Inv(w)
    ensures Inv(WriteEvent(w)) && (w.log != [] ==> WriteEvent(w).counter > 0)
  {
    EventfdApart(w, WriteEvent(w));
  }

  // StreamWrite

  lemma NoneStaleAhead(w: World, fd: nat)
    requires Shaped(w) && fd in w.fds && Client(w, fd) && w.fds[fd].registered
    ensures Servable(w, fd)
  {
    var d := w.fds[fd];
    forall i: nat | d.cursor <= i ensures !StaleAt(FeedOf(w), d, i) {
      if i < |w.log| { assert !Stale(d, w.log[i]); }
    }
  }

  lemma ServeExact(f: Feed, fd: nat, d: FDData, answers: seq<int>, origin: nat, sent: seq<Byte>)
    requires AllFit(f) && Sound(f, fd, d) && NoStaleAhead(f, d) && origin <= d.cursor <= |f.log|
    requires sent == Deliver(f, fd, d, origin, d.cursor) + Part(f, fd, d)
    ensures var e := Serve(f, fd, d, answers);
            && Follows(d, e.d) && e.d.cursor <= |f.log|
            && sent + e.sent == Deliver(f, fd, e.d, origin, e.d.cursor) + Part(f, fd, e.d)
  {
    var e := Serve(f, fd, d, answers);
    TurnsSend(f, fd, Fresh(d, answers), Enough(Fresh(d, answers)));
    DeliverAdds(f, fd, d, origin, d.cursor, e.d.cursor);
    DeliverSame(f, fd, d, e.d, origin, e.d.cursor);
    RegroupParts(sent, e.sent, Deliver(f, fd, d, origin, d.cursor), Part(f, fd, d), Deliver(f, fd, d, d.cursor, e.d.cursor), Part(f, fd, e.d));
  }

  lemma ServedClient(w: World, fd: nat, answers: seq<int>)
    requires Shaped(w) && fd in w.fds && Client(w, fd) && w.fds[fd].registered && Servable(w, fd) && fd in w.armed
    ensures var v := ServeClient(w, fd, answers).0; Client(v, fd)
  {
    var f, d := FeedOf(w), w.fds[fd];
    ServeExact(f, fd, d, answers, w.origin[fd], w.sent[fd]);
    ServeReturns(f, fd, d, answers);
  }

  lemma ServedOther(w: World, fd: nat, answers: seq<int>, other: nat)
    requires Shaped(w) && Servable(w, fd) && other in w.fds && Client(w, other) && other != fd
    ensures Client(ServeClient(w, fd, answers).0, other)
  {
    var v := ServeClient(w, fd, answers).0;
    StaysWoken(w, v, other);
    ClientStays(w, v, other);
  }

  lemma MovedShaped(w: World, fd: nat, d: FDData, more: seq<Byte>)
    requires Skeleton(w) && DrainPending(w) && fd in w.fds && fd in w.sent && Follows(w.fds[fd], d)
    ensures var v := Move(w, fd, d, more); Skeleton(v) && DrainPending(v)
  {
    IndexStays(w, Move(w, fd, d, more));
  }

  lemma DisarmedShaped(w: World, fd: nat)
    requires Skeleton(w) && DrainPending(w) && fd != w.efd
    ensures var v := Disarm(w, fd); Skeleton(v) && DrainPending(v)
  {
  }

  lemma ServedShaped(w: World, fd: nat, answers: seq<int>)
    requires Skeleton(w) && DrainPending(w) && Servable(w, fd) && w.fds[fd].cursor <= |w.log|
    ensures var v := ServeClient(w, fd, answers).0; Skeleton(v) && DrainPending(v)
  {
    var e := Serve(FeedOf(w), fd, w.fds[fd], answers);
    TurnsSend(FeedOf(w), fd, Fresh(w.fds[fd], answers), Enough(Fresh(w.fds[fd], answers)));
    assert fd != w.efd;
    MovedShaped(w, fd, e.d, e.sent);
    DisarmedShaped(Move(w, fd, e.d, e.sent), fd);
  }

  lemma ServeKeeps(w: World, fd: nat, answers: seq<int>)
    requires Inv(w) && fd in w.armed && fd != w.efd
    ensures Servable(w, fd) && Inv(ServeClient(w, fd, answers).0)
  {
    assert Client(w, fd);
    NoneStaleAhead(w, fd);
    var v := ServeClient(w, fd, answers).0;
    ServedShaped(w, fd, answers);
    ServedClient(w, fd, answers);
    forall other | other in v.fds && other != fd ensures Client(v, other) { ServedOther(w, fd, answers, other); }
  }

  // ----- what the program around the loop does -----

  datatype Action =
    | Connect(fd: nat)
    | Join(fd: nat)
    | Subscribing(fd: nat, tag: nat)
    | Starting(fd: nat, offset: nat)
    | Queueing(record: Tag)

  function Act(w: World, a: Action): World
  {
    match a
    case Connect(fd) => w.(open := w.open + {fd})
    case Join(fd) => Register(w, fd)
    case Subscribing(fd, tag) => if fd in w.fds then Subscribe(w, fd, tag) else w
    case Starting(fd, offset) => Start(w, fd, offset)
    case Queueing(t) => Queue(w, t)
  }

  /** A subscription before any of the client's tags: none from where it was started on. */
  ghost predicate InTime(w: World, fd: nat, tag: nat)
  {
    fd in w.fds && fd in w.origin
    && (w.fds[fd].registered ==> forall k :: w.origin[fd] <= k < |w.log| ==> w.log[k].tagId != tag)
  }

  /**
    What the protocol asks of its users: clients connect under new descriptors, subscribe in time,
    start once, at a record of the log from which no tag is stale for them, and tags are broadcast,
    lie inside their stream and are not stale for anybody who runs.
   */
  ghost predicate Enabled(w: World, a: Action)
  {
    match a
    case Connect(fd) => fd !in w.fds
    case Join(fd) => fd != w.efd
    case Subscribing(fd, tag) => InTime(w, fd, tag)
    case Starting(fd, offset) => fd in w.fds && !w.fds[fd].registered && offset <= |w.log| && NoneStale(w.log, w.fds[fd].(cursor := offset))
    case Queueing(t) => t.fd < 0 && Fits(FeedOf(w), t) && forall fd :: fd in w.fds && w.fds[fd].registered ==> !Stale(w.fds[fd], t)
  }

  // Register and Connect

  lemma JoinShaped(w: World, fd: nat)
    requires Skeleton(w) && DrainPending(w) && fd != w.efd
    ensures Skeleton(Register(w, fd)) && DrainPending(Register(w, fd))
  {
  }

  lemma JoinClient(w: World, fd: nat, other: nat)
    requires Shaped(w) && other in w.fds && Client(w, other)
    ensures Client(Register(w, fd), other)
  {
    var v := Register(w, fd);
    StaysWoken(w, v, other);
    ClientStays(w, v, other);
  }

  lemma JoinNew(w: World, fd: nat)
    requires Shaped(w) && fd !in w.fds
    ensures Client(Register(w, fd), fd)
  {
  }

  lemma JoinKeeps(w: World, fd: nat)
    requires Inv(w) && fd != w.efd
    ensures Inv(Register(w, fd))
  {
    var v := Register(w, fd);
    JoinShaped(w, fd);
    forall other | other in v.fds ensures Client(v, other) {
      if other in w.fds { JoinClient(w, fd, other); } else { JoinNew(w, fd); }
    }
  }

  lemma ConnectClient(w: World, fd: nat, other: nat)
    requires Shaped(w) && other in w.fds && Client(w, other) && other != fd
    ensures Client(Act(w, Connect(fd)), other)
  {
    var v := Act(w, Connect(fd));
    StaysWoken(w, v, other);
    ClientStays(w, v, other);
  }

  lemma ConnectShaped(w: World, fd: nat)
    requires Skeleton(w) && DrainPending(w)
    ensures Skeleton(Act(w, Connect(fd))) && DrainPending(Act(w, Connect(fd)))
  {
  }

  lemma ConnectKeeps(w: World, fd: nat)
    requires Inv(w) && fd !in w.fds
    ensures Inv(Act(w, Connect(fd)))
  {
    ConnectShaped(w, fd);
    forall other | other in w.fds ensures Client(Act(w, Connect(fd)), other) { ConnectClient(w, fd, other); }
  }

  // Subscribe

  lemma SubscribeIndexed(w: World, fd: nat, tag: nat)
    requires Indexed(w) && fd in w.fds
    ensures Indexed(Subscribe(w, fd, tag))
  {
  }

  lemma SubscribeShaped(w: World, fd: nat, tag: nat)
    requires Skeleton(w) && fd in w.fds
    ensures Skeleton(Subscribe(w, fd, tag))
  {
    SubscribeIndexed(w, fd, tag);
  }

  lemma SubscribeOther(w: World, fd: nat, tag: nat, other: nat)
    requires Shaped(w) && fd in w.fds && other in w.fds && other != fd && Client(w, other)
    ensures Client(Subscribe(w, fd, tag), other)
  {
    var v := Subscribe(w, fd, tag);
    StaysWoken(w, v, other);
    ClientStays(w, v, other);
  }

  lemma SubscribeClient(w: World, fd: nat, tag: nat)
    requires Shaped(w) && fd in w.fds && Client(w, fd) && InTime(w, fd, tag)
    ensures Client(Subscribe(w, fd, tag), fd)
  {
    var v := Subscribe(w, fd, tag);
    var d, e := w.fds[fd], v.fds[fd];
    DeliverStays(FeedOf(w), FeedOf(v), fd, d, e, w.origin[fd], d.cursor);
    if k: nat :| Owed(v, fd, k) { assert d.registered ==> Owed(w, fd, k); }
  }

  lemma SubscribeKeeps(w: World, fd: nat, tag: nat)
    requires Inv(w) && InTime(w, fd, tag)
    ensures Inv(Subscribe(w, fd, tag))
  {
    var v := Subscribe(w, fd, tag);
    SubscribeShaped(w, fd, tag);
    SubscribeClient(w, fd, tag);
    forall other | other in v.fds && other != fd ensures Client(v, other) { SubscribeOther(w, fd, tag, other); }
  }

  // Start

  lemma StartShaped(w: World, fd: nat, offset: nat)
    requires Skeleton(w) && DrainPending(w) && fd in w.fds
    ensures Skeleton(Start(w, fd, offset)) && DrainPending(Start(w, fd, offset))
  {
    IndexStays(w, Start(w, fd, offset));
  }

  lemma StartOther(w: World, fd: nat, offset: nat, other: nat)
    requires Shaped(w) && fd in w.fds && other in w.fds && other != fd && Client(w, other)
    ensures Client(Start(w, fd, offset), other)
  {
    var v := Start(w, fd, offset);
    StaysWoken(w, v, other);
    ClientStays(w, v, other);
  }

  lemma StartClient(w: World, fd: nat, offset: nat)
    requires Shaped(w) && fd in w.fds && Client(w, fd) && Enabled(w, Starting(fd, offset))
    ensures Client(Start(w, fd, offset), fd)
  {
    assert w.sent[fd] == [];
  }

  lemma StartKeeps(w: World, fd: nat, offset: nat)
    requires Inv(w) && Enabled(w, Starting(fd, offset))
    ensures Inv(Start(w, fd, offset))
  {
    var v := Start(w, fd, offset);
    StartShaped(w, fd, offset);
    StartClient(w, fd, offset);
    forall other | other in v.fds && other != fd ensures Client(v, other) { StartOther(w, fd, offset, other); }
  }

  // Queue

  lemma QueueShaped(w: World, t: Tag)
    requires Skeleton(w) && t.fd < 0 && Fits(FeedOf(w), t)
    ensures Skeleton(Queue(w, t)) && DrainPending(Queue(w, t))
  {
  }

  lemma QueueClient(w: World, t: Tag, fd: nat)
    requires Shaped(w) && fd in w.fds && Client(w, fd) && AllFit(FeedOf(Queue(w, t)))
    requires w.fds[fd].registered ==> !Stale(w.fds[fd], t)
    ensures Client(Queue(w, t), fd)
  {
    var v := Queue(w, t);
    StaysWoken(w, v, fd);
    ClientStays(w, v, fd);
  }

  lemma QueueKeeps(w: World, t: Tag)
    requires Inv(w) && Enabled(w, Queueing(t))
    ensures Inv(Queue(w, t))
  {
    QueueShaped(w, t);
    forall fd | fd in w.fds ensures Client(Queue(w, t), fd) { QueueClient(w, t, fd); }
  }

  /** Whatever the program does in keeping with the protocol, the invariant stays. */
  lemma ActKeeps(w: World, a: Action)
    requires Inv(w) && Enabled(w, a)
    ensures Inv(Act(w, a))
  {
    match a
    case Connect(fd) => ConnectKeeps(w, fd);
    case Join(fd) => JoinKeeps(w, fd);
    case Subscribing(fd, tag) => SubscribeKeeps(w, fd, tag);
    case Starting(fd, offset) => StartKeeps(w, fd, offset);
    case Queueing(t) => QueueKeeps(w, t);
  }

  // ----- where the protocol would fail -----

  /** A late subscription leaves its client asleep exactly when a drained tag of that name is still ahead of an unarmed client. */
  lemma SubscribeWakesExactlyWhen(w: World, fd: nat, tag: nat)
    requires Shaped(w) && Broadcast(w) && fd in w.fds && Woken(w, fd)
    ensures var d := w.fds[fd];
            Woken(Subscribe(w, fd, tag), fd) <==>
            (d.registered && fd in w.open && fd !in w.armed ==> forall k :: d.cursor <= k < w.drained ==> w.log[k].tagId != tag)
  {
    var d, v := w.fds[fd], Subscribe(w, fd, tag);
    assert forall k: nat :: Owed(v, fd, k) ==> Owed(w, fd, k) || w.log[k].tagId == tag;
    if d.registered && fd in w.open && fd !in w.armed {
      if k :| d.cursor <= k < w.drained && w.log[k].tagId == tag {
        assert Owed(v, fd, k);
      }
    }
  }

  /** A tag for one descriptor re-arms the eventfd instead: draining it leaves that client asleep exactly when nothing else had armed it. */
  lemma DirectTagWakesExactlyWhen(w: World, fd: nat)
    requires Shaped(w) && w.drained < |w.log| && w.log[w.drained].fd == fd > 0 && fd in w.fds && Woken(w, fd)
    ensures Woken(DrainOne(w), fd) <==>
            (w.fds[fd].registered && fd in w.open && w.fds[fd].cursor <= w.drained ==> fd in w.armed)
  {
    var v := DrainOne(w);
    if w.fds[fd].cursor <= w.drained {
      assert Owed(v, fd, w.drained);
    }
  }
}
