/**
  Whole runs of the event loop over a tag stream (`EventManager::Wait`,
  src/main/event/event_mgr.h:119-192): batches of events captured together and handled one
  after the other.
 */
module EventLoop {
  import opened Sequences
  import opened Delivery
  import opened Wakeups

  /**
    One event of a batch, with what its callbacks will do: for a client, `actions` is what its
    read callback makes the program do, `readResult` what it returns, and `answers` what its
    socket says to what `StreamWrite` offers.
   */
  datatype Event = Event(fd: nat, readable: bool, actions: seq<Action>, readResult: int, writable: bool, answers: seq<int>, hangup: bool)

  function Acts(w: World, actions: seq<Action>): World
    decreases |actions|
  {
    if actions == [] then w else Acts(Act(w, actions[0]), actions[1..])
  }

  ghost predicate AllEnabled(w: World, actions: seq<Action>)
    decreases |actions|
  {
    actions == [] || (Enabled(w, actions[0]) && AllEnabled(Act(w, actions[0]), actions[1..]))
  }

  /** One event: its effect, and whether its descriptor is to be closed. */
  ghost function Handle(w: World, e: Event): (World, bool)
  {
    if e.fd == w.efd then
      var (v, r) := if e.readable then ReadEvent(w) else (w, 0);
      (if e.writable then WriteEvent(v) else v, r < 0 || e.hangup)
    else
      var v := if e.readable then Acts(w, e.actions) else w;
      var (u, r) := if e.writable && Servable(v, e.fd) then ServeClient(v, e.fd, e.answers) else (v, 1);
      (u, r < 0 || (e.readable && e.readResult < 0) || e.hangup)
  }

  /** What `epoll_wait` can report. */
  ghost predicate Ready(w: World, e: Event)
  {
    && e.fd in w.open && (e.writable ==> e.fd in w.armed)
    && (e.fd == w.efd ==> !e.hangup && (e.readable ==> w.counter > 0))
  }

  /** A batch reports every descriptor once. */
  ghost predicate Captured(w: World, events: seq<Event>)
  {
    && (forall i :: 0 <= i < |events| ==> Ready(w, events[i]))
    && (forall i, j :: 0 <= i < j < |events| ==> events[i].fd != events[j].fd)
  }

  ghost predicate Lawful(w: World, e: Event) { e.fd != w.efd && e.readable ==> AllEnabled(w, e.actions) }

  ghost predicate AllLawful(w: World, events: seq<Event>)
    decreases |events|
  {
    events == [] || (Lawful(w, events[0]) && AllLawful(Handle(w, events[0]).0, events[1..]))
  }

  /** The batch before the close set is processed. */
  ghost function HandleAll(w: World, events: seq<Event>): (World, set<nat>)
    decreases |events|
  {
    if events == [] then (w, {})
    else
      var (v, closes) := Handle(w, events[0]);
      var (u, closing) := HandleAll(v, events[1..]);
      (u, if closes then closing + {events[0].fd} else closing)
  }

  function CloseAll(w: World, closing: set<nat>): World
  {
    w.(open := w.open - closing, armed := w.armed - closing)
  }

  /** One `Wait`. */
  ghost function Wait(w: World, events: seq<Event>): World
  {
    var (v, closing) := HandleAll(w, events);
    CloseAll(v, closing)
  }

  // ----- the invariant over batches -----

  /** The eventfd, the streams and what they hold are what they were. */
  ghost predicate SameSetting(w: World, v: World) { v.efd == w.efd && v.streams == w.streams && v.data == w.data }

  /** What other events of the batch rely on. */
  ghost predicate Keeps(w: World, v: World, fd: nat)
  {
    true == (
      && SameSetting(w, v) && w.open <= v.open
      && (forall x :: x != fd && x in w.armed ==> x in v.armed)
      && (fd != w.efd ==> v.counter == w.counter))
  }

  lemma ActOnlyAdds(w: World, a: Action)
    ensures var v := Act(w, a); SameSetting(w, v) && w.open <= v.open && w.armed <= v.armed && v.counter == w.counter
  {
  }

  lemma {:induction false} ActsKeep(w: World, actions: seq<Action>)
    requires Inv(w) && AllEnabled(w, actions)
    ensures var v := Acts(w, actions); Inv(v) && SameSetting(w, v) && w.open <= v.open && w.armed <= v.armed && v.counter == w.counter
    decreases |actions|
  {
    if actions != [] {
      ActKeeps(w, actions[0]);
      ActOnlyAdds(w, actions[0]);
      ActsKeep(Act(w, actions[0]), actions[1..]);
    }
  }

  lemma EventfdHandled(w: World, e: Event)
    requires Inv(w) && Ready(w, e) && e.fd == w.efd
    ensures var (v, closes) := Handle(w, e); Inv(v) && Keeps(w, v, e.fd) && !closes
  {
    var v := if e.readable then ReadEvent(w).0 else w;
    if e.readable {
      ReadKeeps(w);
      ReadOnlyArms(w);
    }
    WriteKeeps(v);
  }

  lemma ReadOnlyArms(w: World)
    requires Inv(w) && w.counter > 0
    ensures var v := ReadEvent(w).0; SameSetting(w, v) && v.log == w.log && v.open == w.open && w.armed <= v.armed
  {
    EventfdApart(w, w.(counter := 0));
    DrainKeeps(w.(counter := 0), Most(w));
  }

  lemma ServeOnlyMoves(w: World, fd: nat, answers: seq<int>)
    requires Servable(w, fd)
    ensures var v := ServeClient(w, fd, answers).0;
            SameSetting(w, v) && v.open == w.open && v.counter == w.counter && forall x :: x != fd ==> (x in v.armed <==> x in w.armed)
  {
  }

  lemma ClientHandled(w: World, e: Event)
    requires Inv(w) && Ready(w, e) && Lawful(w, e) && e.fd != w.efd
    ensures var v := Handle(w, e).0; Inv(v) && Keeps(w, v, e.fd)
  {
    if e.readable { ActsKeep(w, e.actions); }
    var v := if e.readable then Acts(w, e.actions) else w;
    if e.writable {
      ServeKeeps(v, e.fd, e.answers);
      ServeOnlyMoves(v, e.fd, e.answers);
    }
  }

  lemma HandleKeeps(w: World, e: Event)
    requires Inv(w) && Ready(w, e) && Lawful(w, e)
    ensures var (v, closes) := Handle(w, e); Inv(v) && Keeps(w, v, e.fd) && (closes ==> e.fd != v.efd)
  {
    if e.fd == w.efd { EventfdHandled(w, e); } else { ClientHandled(w, e); }
  }

  lemma StillCaptured(w: World, events: seq<Event>)
    requires Captured(w, events) && events != [] && Keeps(w, Handle(w, events[0]).0, events[0].fd)
    ensures Captured(Handle(w, events[0]).0, events[1..])
  {
    var v := Handle(w, events[0]).0;
    forall i | 0 <= i < |events| - 1 ensures Ready(v, events[1..][i]) {
      assert events[1..][i] == events[i + 1] && Ready(w, events[i + 1]) && events[0].fd != events[i + 1].fd;
    }
  }

  lemma {:induction false} HandleAllKeeps(w: World, events: seq<Event>)
    requires Inv(w) && Captured(w, events) && AllLawful(w, events)
    ensures var (v, closing) := HandleAll(w, events); Inv(v) && v.efd !in closing
    decreases |events|
  {
    if events != [] {
      HandleKeeps(w, events[0]);
      StillCaptured(w, events);
      HandleAllKeeps(Handle(w, events[0]).0, events[1..]);
      BatchSameSetting(Handle(w, events[0]).0, events[1..]);
    }
  }

  lemma {:induction false} BatchSameSetting(w: World, events: seq<Event>)
    requires Inv(w) && Captured(w, events) && AllLawful(w, events)
    ensures SameSetting(w, HandleAll(w, events).0)
    decreases |events|
  {
    if events != [] {
      HandleKeeps(w, events[0]);
      StillCaptured(w, events);
      BatchSameSetting(Handle(w, events[0]).0, events[1..]);
    }
  }

  lemma CloseShaped(w: World, closing: set<nat>)
    requires Skeleton(w) && DrainPending(w) && w.efd !in closing
    ensures Skeleton(CloseAll(w, closing)) && DrainPending(CloseAll(w, closing))
  {
  }

  lemma CloseClient(w: World, closing: set<nat>, fd: nat)
    requires Shaped(w) && fd in w.fds && Client(w, fd)
    ensures Client(CloseAll(w, closing), fd)
  {
    var v := CloseAll(w, closing);
    StaysWoken(w, v, fd);
    ClientStays(w, v, fd);
  }

  lemma CloseKeeps(w: World, closing: set<nat>)
    requires Inv(w) && w.efd !in closing
    ensures Inv(CloseAll(w, closing))
  {
    CloseShaped(w, closing);
    forall fd | fd in w.fds ensures Client(CloseAll(w, closing), fd) { CloseClient(w, closing, fd); }
  }

  /** One `Wait` keeps the invariant, whatever the batch, the sockets and the read callbacks do. */
  lemma WaitKeeps(w: World, events: seq<Event>)
    requires Inv(w) && Captured(w, events) && AllLawful(w, events)
    ensures Inv(Wait(w, events)) && SameSetting(w, Wait(w, events))
  {
    HandleAllKeeps(w, events);
    BatchSameSetting(w, events);
    CloseKeeps(HandleAll(w, events).0, HandleAll(w, events).1);
  }

  // ----- what a batch closes -----

  /** What `StreamWrite` answers when the event is handled in `w`; 1 when it is not called. */
  ghost function WriteResult(w: World, e: Event): (r: int)
  {
    var v := if e.readable then Acts(w, e.actions) else w;
    if e.fd != w.efd && e.writable && Servable(v, e.fd) then Serve(FeedOf(v), e.fd, v.fds[e.fd], e.answers).status.r else 1
  }

  /** The descriptor hung up, or one of its callbacks answered below zero. */
  ghost predicate Failed(w: World, e: Event)
  {
    e.hangup || (e.fd != w.efd && e.readable && e.readResult < 0) || WriteResult(w, e) < 0
  }

  lemma HandleCloses(w: World, e: Event)
    requires Inv(w) && Ready(w, e) && Lawful(w, e)
    ensures Handle(w, e).1 == Failed(w, e)
  {
  }

  /** The states before, between and after the events of a batch. */
  ghost function Trace(w: World, events: seq<Event>): (trace: seq<World>)
    ensures |trace| == |events| + 1 && trace[0] == w
    decreases |events|
  {
    if events == [] then [w] else [w] + Trace(Handle(w, events[0]).0, events[1..])
  }

  /** The descriptors that failed in a batch. */
  ghost function Failures(trace: seq<World>, events: seq<Event>): (fds: set<nat>)
    requires |trace| == |events| + 1
  {
    set i | 0 <= i < |events| && Failed(trace[i], events[i]) :: events[i].fd
  }

  /** `trace` are the states of a batch that began in `w`, and the failures are what it closes. */
  ghost predicate Ran(w: World, events: seq<Event>, trace: seq<World>)
  {
    && |trace| == |events| + 1 && trace[0] == w && (forall i :: 0 <= i < |events| ==> trace[i + 1] == Handle(trace[i], events[i]).0)
    && HandleAll(w, events) == (trace[|events|], Failures(trace, events)) && w.open <= trace[|events|].open
    && forall i :: 0 <= i < |events| ==> trace[i].efd == w.efd
  }

  lemma {:induction false} BatchRan(w: World, events: seq<Event>)
    requires Inv(w) && Captured(w, events) && AllLawful(w, events)
    ensures Ran(w, events, Trace(w, events))
    decreases |events|
  {
    if events != [] {
      var v := Handle(w, events[0]).0;
      HandleKeeps(w, events[0]);
      HandleCloses(w, events[0]);
      StillCaptured(w, events);
      BatchRan(v, events[1..]);
      RanFirst(w, events, Trace(v, events[1..]));
      assert Trace(w, events) == [w] + Trace(v, events[1..]);
    } else {
      assert Failures([w], events) == {};
    }
  }

  lemma RanFirst(w: World, events: seq<Event>, later: seq<World>)
    requires events != [] && Ran(Handle(w, events[0]).0, events[1..], later) && w.open <= Handle(w, events[0]).0.open
    requires Handle(w, events[0]).1 == Failed(w, events[0]) && Handle(w, events[0]).0.efd == w.efd
    ensures Ran(w, events, [w] + later)
  {
    var trace := [w] + later;
    forall i | 0 <= i < |events| ensures trace[i + 1] == Handle(trace[i], events[i]).0 {
      if i > 0 { assert later[i] == Handle(later[i - 1], events[1..][i - 1]).0; }
    }
    FailuresFirst(w, events, later);
    var (u, closing) := HandleAll(Handle(w, events[0]).0, events[1..]);
    assert u == later[|events| - 1] == trace[|events|] && closing == Failures(later, events[1..]);
    assert HandleAll(w, events).1 == Failures(trace, events);
  }

  lemma FailuresFirst(w: World, events: seq<Event>, later: seq<World>)
    requires events != [] && |later| == |events|
    ensures Failures([w] + later, events) == (if Failed(w, events[0]) then {events[0].fd} else {}) + Failures(later, events[1..])
  {
    var trace := [w] + later;
    var first := if Failed(w, events[0]) then {events[0].fd} else {};
    forall fd | fd in Failures(trace, events) ensures fd in first + Failures(later, events[1..]) {
      var i :| 0 <= i < |events| && Failed(trace[i], events[i]) && events[i].fd == fd;
      if i > 0 { assert Failed(later[i - 1], events[1..][i - 1]); }
    }
    forall fd | fd in Failures(later, events[1..]) ensures fd in Failures(trace, events) {
      var i :| 0 <= i < |events| - 1 && Failed(later[i], events[1..][i]) && events[1..][i].fd == fd;
      assert Failed(trace[i + 1], events[i + 1]) && events[i + 1].fd == fd;
    }
    if Failed(w, events[0]) { assert Failed(trace[0], events[0]); }
  }

  /** Exactly the descriptors that failed are closed: they are neither registered nor armed, and all others still are registered. */
  lemma ClosedExactly(w: World, events: seq<Event>) returns (trace: seq<World>)
    requires Inv(w) && Captured(w, events) && AllLawful(w, events)
    ensures |trace| == |events| + 1 && trace[0] == w && forall i :: 0 <= i < |events| ==> trace[i + 1] == Handle(trace[i], events[i]).0
    ensures var v := Wait(w, events);
            && (forall i :: 0 <= i < |events| ==>
                  if Failed(trace[i], events[i]) then events[i].fd !in v.open && events[i].fd !in v.armed else events[i].fd in v.open)
            && (forall fd :: fd in w.open && (forall i :: 0 <= i < |events| ==> events[i].fd != fd) ==> fd in v.open)
            && (forall i :: 0 <= i < |events| ==> trace[i].efd == w.efd)
            && v == trace[|events|].(open := v.open, armed := v.armed)
  {
    trace := Trace(w, events);
    BatchRan(w, events);
  }

  // ----- whole runs -----

  datatype Step = Do(action: Action) | Batch(events: seq<Event>)

  ghost predicate Possible(w: World, s: Step)
  {
    match s
    case Do(a) => Enabled(w, a)
    case Batch(events) => Captured(w, events) && AllLawful(w, events)
  }

  ghost function Take(w: World, s: Step): World
  {
    match s
    case Do(a) => Act(w, a)
    case Batch(events) => Wait(w, events)
  }

  ghost predicate AllPossible(w: World, steps: seq<Step>)
    decreases |steps|
  {
    steps == [] || (Possible(w, steps[0]) && AllPossible(Take(w, steps[0]), steps[1..]))
  }

  ghost function Run(w: World, steps: seq<Step>): World
    decreases |steps|
  {
    if steps == [] then w else Run(Take(w, steps[0]), steps[1..])
  }

  /** A new tag stream with its eventfd registered, and nothing queued. */
  function Initial(efd: nat, streams: set<nat>, data: nat -> seq<Byte>): World
  {
    World(efd, streams, data, [], 0, map[], map[], 0, {}, {efd}, map[], map[])
  }

  // ----- what a run amounts to -----

  /** The tags queued by some actions, in order. */
  function TagsOf(actions: seq<Action>): (tags: seq<Tag>)
  {
    if actions == [] then []
    else TagsOf(actions[..|actions| - 1]) + if actions[|actions| - 1].Queueing? then [actions[|actions| - 1].record] else []
  }

  /** What the read callbacks of a batch make the program do. */
  function Done(events: seq<Event>, efd: nat): (actions: seq<Action>)
  {
    if events == [] then [] else (if events[0].fd != efd && events[0].readable then events[0].actions else []) + Done(events[1..], efd)
  }

  /** Everything the program does in a run, in order. */
  function Program(steps: seq<Step>, efd: nat): (actions: seq<Action>)
  {
    if steps == [] then [] else (if steps[0].Do? then [steps[0].action] else Done(steps[0].events, efd)) + Program(steps[1..], efd)
  }

  /** The tags a descriptor subscribed to. */
  function Subscriptions(actions: seq<Action>, fd: nat): (tags: set<nat>)
  {
    set a | a in actions && a.Subscribing? && a.fd == fd :: a.tag
  }

  /** Where the tag log ended when the client registered. */
  ghost predicate MarkedAt(actions: seq<Action>, fd: nat, start: nat)
  {
    exists i :: 0 <= i < |actions| && Join(fd) == actions[i] && Join(fd) !in actions[..i] && start == RecordSize * |TagsOf(actions[..i])|
  }

  /** A client is what the actions made of it. */
  ghost predicate ClientReflects(w: World, actions: seq<Action>, fd: nat)
    requires fd in w.fds && fd in w.origin
  {
    true == (
      && w.fds[fd].subs == Subscriptions(actions, fd) && MarkedAt(actions, fd, w.fds[fd].start)
      && (w.fds[fd].registered ==> Starting(fd, w.origin[fd]) in actions)
      && (forall offset :: Starting(fd, offset) in actions ==> w.fds[fd].registered && w.origin[fd] == offset))
  }

  /** The log holds the tags queued, and the clients are those that registered, as they subscribed and started. */
  ghost predicate Reflects(w: World, actions: seq<Action>)
  {
    true == (
      && w.log == TagsOf(actions) && (forall fd :: fd in w.fds <==> Join(fd) in actions)
      && w.fds.Keys == w.origin.Keys
      && (forall a :: a in actions && (a.Subscribing? || a.Starting?) ==> a.fd in w.fds)
      && (forall fd :: fd in w.fds ==> ClientReflects(w, actions, fd)))
  }

  lemma OneMoreAction(actions: seq<Action>, a: Action)
    ensures TagsOf(actions + [a]) == TagsOf(actions) + if a.Queueing? then [a.record] else []
    ensures forall fd :: Subscriptions(actions + [a], fd) == Subscriptions(actions, fd) + if a.Subscribing? && a.fd == fd then {a.tag} else {}
    ensures forall fd, start :: MarkedAt(actions, fd, start) ==> MarkedAt(actions + [a], fd, start)
  {
    assert (actions + [a])[..|actions|] == actions;
    forall fd, start | MarkedAt(actions, fd, start) ensures MarkedAt(actions + [a], fd, start) {
      var i :| 0 <= i < |actions| && Join(fd) == actions[i] && Join(fd) !in actions[..i] && start == RecordSize * |TagsOf(actions[..i])|;
      assert (actions + [a])[..i] == actions[..i] && (actions + [a])[i] == actions[i];
    }
  }

  /** What other clients are is not changed by an action of another one. */
  lemma OtherReflects(w: World, a: Action, actions: seq<Action>, fd: nat)
    requires fd in w.fds && fd in w.origin && ClientReflects(w, actions, fd)
    requires a.Connect? || a.Queueing? || a.fd != fd || (a.Join? && a.fd in w.fds)
    ensures var v := Act(w, a); fd in v.fds && fd in v.origin && ClientReflects(v, actions + [a], fd)
  {
    ActElsewhere(w, a, fd);
    StillMade(w, Act(w, a), a, actions, fd);
  }

  lemma ActElsewhere(w: World, a: Action, fd: nat)
    requires fd in w.fds && fd in w.origin && (a.Connect? || a.Queueing? || a.fd != fd || (a.Join? && a.fd in w.fds))
    ensures var v := Act(w, a); fd in v.fds && fd in v.origin && v.fds[fd] == w.fds[fd] && v.origin[fd] == w.origin[fd]
  {
  }

  lemma StillMade(w: World, v: World, a: Action, actions: seq<Action>, fd: nat)
    requires fd in w.fds && fd in w.origin && ClientReflects(w, actions, fd)
    requires fd in v.fds && fd in v.origin && v.fds[fd] == w.fds[fd] && v.origin[fd] == w.origin[fd]
    requires a.Connect? || a.Queueing? || a.Join? || a.fd != fd
    ensures ClientReflects(v, actions + [a], fd)
  {
    OneMoreAction(actions, a);
  }

  lemma OwnReflects(w: World, a: Action, actions: seq<Action>)
    requires Enabled(w, a) && !a.Connect? && !a.Queueing? && (a.Join? ==> a.fd !in w.fds)
    requires a.fd in w.fds ==> a.fd in w.origin && ClientReflects(w, actions, a.fd)
    requires w.log == TagsOf(actions) && (a.fd in w.fds <==> Join(a.fd) in actions)
    requires a.Join? ==> Subscriptions(actions, a.fd) == {} && forall offset :: Starting(a.fd, offset) !in actions
    ensures var v := Act(w, a); a.fd in v.fds && a.fd in v.origin && ClientReflects(v, actions + [a], a.fd)
  {
    OneMoreAction(actions, a);
    if a.Join? {
      var all := actions + [a];
      assert all[|actions|] == a && all[..|actions|] == actions;
    }
  }

  /** What an action changes: the log when it queues a tag, the clients when one registers. */
  lemma ActChanges(w: World, a: Action)
    requires Enabled(w, a)
    ensures var v := Act(w, a);
            && v.log == w.log + (if a.Queueing? then [a.record] else [])
            && v.fds.Keys == w.fds.Keys + (if a.Join? then {a.fd} else {})
            && (w.fds.Keys == w.origin.Keys ==> v.fds.Keys == v.origin.Keys)
  {
  }

  lemma ActAdds(w: World, a: Action, actions: seq<Action>)
    requires Reflects(w, actions) && Enabled(w, a)
    ensures var v, all := Act(w, a), actions + [a];
            && v.log == TagsOf(all) && (forall fd :: fd in v.fds <==> Join(fd) in all) && v.fds.Keys == v.origin.Keys
            && (forall b :: b in all && (b.Subscribing? || b.Starting?) ==> b.fd in v.fds)
  {
    ActChanges(w, a);
    OneMoreAction(actions, a);
  }

  /** Each action leaves the state that the actions so far make. */
  lemma ActReflects(w: World, a: Action, actions: seq<Action>)
    requires Reflects(w, actions) && Enabled(w, a)
    ensures Reflects(Act(w, a), actions + [a])
  {
    var v := Act(w, a);
    ActAdds(w, a, actions);
    forall fd | fd in v.fds ensures ClientReflects(v, actions + [a], fd) {
      if a.Connect? || a.Queueing? || a.fd != fd || (a.Join? && a.fd in w.fds) {
        OtherReflects(w, a, actions, fd);
      } else {
        OwnReflects(w, a, actions);
      }
    }
  }

  /** Nothing else changes what the actions made. */
  ghost predicate SameClients(w: World, v: World)
  {
    true == (
      && v.log == w.log && v.fds.Keys == w.fds.Keys && v.origin == w.origin
      && forall fd :: fd in w.fds ==> v.fds[fd].subs == w.fds[fd].subs && v.fds[fd].registered == w.fds[fd].registered && v.fds[fd].start == w.fds[fd].start)
  }

  lemma StillReflects(w: World, v: World, actions: seq<Action>)
    requires Reflects(w, actions) && SameClients(w, v)
    ensures Reflects(v, actions)
  {
    forall fd | fd in v.fds ensures ClientReflects(v, actions, fd) { assert ClientReflects(w, actions, fd); }
  }

  lemma {:induction false} ActsReflect(w: World, actions: seq<Action>, before: seq<Action>)
    requires Reflects(w, before) && AllEnabled(w, actions)
    ensures Reflects(Acts(w, actions), before + actions)
    decreases |actions|
  {
    if actions == [] {
      assert before + actions == before;
    } else {
      ActReflects(w, actions[0], before);
      ActsReflect(Act(w, actions[0]), actions[1..], before + [actions[0]]);
      assert before + actions == before + [actions[0]] + actions[1..];
    }
  }

  lemma HandleReflects(w: World, e: Event, actions: seq<Action>)
    requires Reflects(w, actions) && Lawful(w, e)
    ensures Reflects(Handle(w, e).0, actions + if e.fd != w.efd && e.readable then e.actions else [])
  {
    assert actions + [] == actions;
    if e.fd == w.efd {
      EventfdSameClients(w, e);
      StillReflects(w, Handle(w, e).0, actions);
    } else {
      var v, all := if e.readable then Acts(w, e.actions) else w, actions + if e.readable then e.actions else [];
      if e.readable { ActsReflect(w, e.actions, actions); }
      ClientSameClients(w, e, v);
      StillReflects(v, Handle(w, e).0, all);
    }
  }

  lemma EventfdSameClients(w: World, e: Event)
    requires e.fd == w.efd
    ensures SameClients(w, Handle(w, e).0)
  {
    ReadSameClients(w);
  }

  lemma ReadSameClients(w: World)
    ensures var v := ReadEvent(w).0; v.log == w.log && v.fds == w.fds && v.origin == w.origin
  {
    DrainCount(w.(counter := 0), Most(w));
  }

  lemma ClientSameClients(w: World, e: Event, v: World)
    requires e.fd != w.efd && v == if e.readable then Acts(w, e.actions) else w
    ensures SameClients(v, Handle(w, e).0)
  {
    if e.writable && Servable(v, e.fd) { ServeSameClients(v, e.fd, e.answers); }
  }

  lemma ServeSameClients(w: World, fd: nat, answers: seq<int>)
    requires Servable(w, fd)
    ensures SameClients(w, ServeClient(w, fd, answers).0)
  {
    TurnsFollow(FeedOf(w), fd, Fresh(w.fds[fd], answers), Enough(Fresh(w.fds[fd], answers)));
  }

  lemma {:induction false} HandleAllReflects(w: World, events: seq<Event>, actions: seq<Action>)
    requires Inv(w) && Captured(w, events) && AllLawful(w, events) && Reflects(w, actions)
    ensures Reflects(HandleAll(w, events).0, actions + Done(events, w.efd))
    decreases |events|
  {
    if events == [] {
      assert actions + [] == actions;
    } else {
      var e, v := events[0], Handle(w, events[0]).0;
      HandleReflects(w, e, actions);
      HandleKeeps(w, e);
      StillCaptured(w, events);
      var first := if e.fd != w.efd && e.readable then e.actions else [];
      HandleAllReflects(v, events[1..], actions + first);
      Regroup(actions, first, Done(events[1..], w.efd));
    }
  }

  lemma CloseReflects(w: World, closing: set<nat>, actions: seq<Action>)
    requires Reflects(w, actions)
    ensures Reflects(CloseAll(w, closing), actions)
  {
    StillReflects(w, CloseAll(w, closing), actions);
  }

  lemma TakeReflects(w: World, s: Step, actions: seq<Action>)
    requires Inv(w) && Possible(w, s) && Reflects(w, actions)
    ensures Reflects(Take(w, s), actions + if s.Do? then [s.action] else Done(s.events, w.efd)) && Take(w, s).efd == w.efd
  {
    match s
    case Do(a) =>
      ActReflects(w, a, actions);
      ActOnlyAdds(w, a);
    case Batch(events) => BatchReflects(w, events, actions);
  }

  lemma BatchReflects(w: World, events: seq<Event>, actions: seq<Action>)
    requires Inv(w) && Captured(w, events) && AllLawful(w, events) && Reflects(w, actions)
    ensures Reflects(Wait(w, events), actions + Done(events, w.efd)) && Wait(w, events).efd == w.efd
  {
    HandleAllReflects(w, events, actions);
    BatchSameSetting(w, events);
    CloseReflects(HandleAll(w, events).0, HandleAll(w, events).1, actions + Done(events, w.efd));
  }

  /** Every run keeps the invariant, and what it leaves is what the program did in it. */
  lemma {:induction false} RunKeeps(w: World, steps: seq<Step>, actions: seq<Action>)
    requires Inv(w) && AllPossible(w, steps) && Reflects(w, actions)
    ensures Inv(Run(w, steps)) && SameSetting(w, Run(w, steps)) && Reflects(Run(w, steps), actions + Program(steps, w.efd))
    decreases |steps|
  {
    if steps == [] {
      assert actions + [] == actions;
    } else {
      var s, v := steps[0], Take(w, steps[0]);
      TakeReflects(w, s, actions);
      TakeKeeps(w, s);
      var first := if s.Do? then [s.action] else Done(s.events, w.efd);
      RunKeeps(v, steps[1..], actions + first);
      Regroup(actions, first, Program(steps[1..], w.efd));
    }
  }

  lemma TakeKeeps(w: World, s: Step)
    requires Inv(w) && Possible(w, s)
    ensures Inv(Take(w, s)) && SameSetting(w, Take(w, s))
  {
    match s
    case Do(a) =>
      ActKeeps(w, a);
      ActOnlyAdds(w, a);
    case Batch(events) => WaitKeeps(w, events);
  }

  /** Nothing waits for an event. */
  ghost predicate Quiet(w: World) { w.armed == {} && w.counter == 0 }

  /** Every running client got exactly what it was owed, once and in order. */
  ghost predicate AllDelivered(w: World)
  {
    AllFit(FeedOf(w)) && forall fd :: fd in w.fds && w.fds[fd].registered && fd in w.open ==> GotAll(w, fd)
  }

  ghost predicate GotAll(w: World, fd: nat)
    requires fd in w.fds && AllFit(FeedOf(w))
  {
    && fd in w.sent && fd in w.origin && w.origin[fd] <= |w.log|
    && w.sent[fd] == Deliver(FeedOf(w), fd, w.fds[fd], w.origin[fd], |w.log|)
  }

  lemma QuietClient(w: World, fd: nat)
    requires Skeleton(w) && w.drained == |w.log| && fd in w.fds && Client(w, fd)
    requires w.fds[fd].registered && fd in w.open && fd !in w.armed
    ensures GotAll(w, fd)
  {
    var f, d, o := FeedOf(w), w.fds[fd], w.origin[fd];
    forall k | d.cursor <= k < |w.log| ensures !Matches(fd, d, w.log[k]) { assert !Owed(w, fd, k); }
    NothingOwed(f, fd, d, d.cursor, |w.log|);
    DeliverAdds(f, fd, d, o, d.cursor, |w.log|);
    assert w.sent[fd] == Deliver(f, fd, d, o, d.cursor) + [];
  }

  /** No lost wakeup: when the loop has nothing left to do, everything is delivered. */
  lemma QuietMeansDelivered(w: World)
    requires Inv(w) && Quiet(w)
    ensures w.drained == |w.log| && AllDelivered(w)
  {
    forall fd | fd in w.fds && w.fds[fd].registered && fd in w.open ensures GotAll(w, fd) { QuietClient(w, fd); }
  }

  /** A client that started at `offset` got the bytes that the tags it subscribed to point to, from there on. */
  ghost predicate GotExpected(w: World, actions: seq<Action>, fd: nat, offset: nat)
  {
    var tags := TagsOf(actions);
    true == (
      && offset <= |tags| && AllInside(tags[offset..], w.streams, w.data) && fd in w.sent
      && w.sent[fd] == Expected(tags[offset..], Subscriptions(actions, fd), w.streams, w.data))
  }

  lemma ExpectedGot(w: World, actions: seq<Action>, fd: nat, offset: nat)
    requires Inv(w) && Reflects(w, actions) && AllDelivered(w) && Starting(fd, offset) in actions && fd in w.open
    ensures GotExpected(w, actions, fd, offset)
  {
    assert ClientReflects(w, actions, fd) && GotAll(w, fd);
    DeliverIsExpected(FeedOf(w), fd, w.fds[fd], offset);
  }

  /**
    Every run: the invariant holds, the log has the tags that the program queued, in order, and
    wherever the loop comes to rest every client that was started and is still registered got
    exactly the bytes that the tags it subscribed to point to, from where it was started on.
   */
  lemma NoLostWakeup(efd: nat, streams: set<nat>, data: nat -> seq<Byte>, steps: seq<Step>)
    requires AllPossible(Initial(efd, streams, data), steps)
    ensures var w, actions := Run(Initial(efd, streams, data), steps), Program(steps, efd);
            && Inv(w) && w.log == TagsOf(actions) && Reflects(w, actions) && w.streams == streams && w.data == data
            && (Quiet(w) ==>
                  && w.drained == |w.log| && AllDelivered(w)
                  && forall fd, offset :: Starting(fd, offset) in actions && fd in w.open ==> GotExpected(w, actions, fd, offset))
  {
    var first, actions := Initial(efd, streams, data), Program(steps, efd);
    RunKeeps(first, steps, []);
    assert [] + actions == actions;
    var w := Run(first, steps);
    if Quiet(w) {
      QuietMeansDelivered(w);
      forall fd, offset | Starting(fd, offset) in actions && fd in w.open ensures GotExpected(w, actions, fd, offset) {
        ExpectedGot(w, actions, fd, offset);
      }
    }
  }

  // ----- the loop comes to rest -----

  /** How much of the k-th tag a client was sent. */
  function SentOf(d: FDData, k: nat): nat { if k == d.cursor then d.written else 0 }

  /** What clients have ahead of them: each byte of a tag that is still to be sent, and the end of the tag. */
  ghost function Ahead(w: World): set<(nat, nat, nat)>
  {
    set fd: nat, k: nat, b: nat | fd in w.fds && w.fds[fd].cursor <= k < |w.log| && SentOf(w.fds[fd], k) <= b <= w.log[k].len :: (fd, k, b)
  }

  ghost function ArmedClients(w: World): set<nat> { w.armed - {w.efd} }

  /** What is left to do: first to drain, then to send, then to wake. */
  ghost function Undrained(w: World): nat { if w.drained < |w.log| then |w.log| - w.drained else 0 }

  ghost function Unsent(w: World): nat { |Ahead(w)| + |ArmedClients(w)| }

  ghost function Wakes(w: World): nat { (if w.efd in w.armed then 2 else 0) + (if w.counter > 0 then 1 else 0) }

  ghost predicate Less(w: World, v: World)
  {
    || Undrained(w) < Undrained(v)
    || (Undrained(w) == Undrained(v) && Unsent(w) < Unsent(v))
    || (Undrained(w) == Undrained(v) && Unsent(w) == Unsent(v) && Wakes(w) < Wakes(v))
  }

  /** An event the loop will get next: the eventfd or an armed client whose socket takes at least a byte; the program does nothing new. */
  ghost predicate Served(w: World, e: Event)
  {
    && Ready(w, e) && !e.hangup && e.actions == [] && e.readResult >= 0
    && (if e.fd == w.efd then e.readable || e.writable else e.writable && Willing(e.answers))
  }

  lemma FewerUnsent(w: World, v: World)
    requires Ahead(v) <= Ahead(w) && ArmedClients(v) <= ArmedClients(w)
    ensures Unsent(v) <= Unsent(w)
    ensures Ahead(v) < Ahead(w) || ArmedClients(v) < ArmedClients(w) ==> Unsent(v) < Unsent(w)
  {
    Subset(Ahead(v), Ahead(w));
    Subset(ArmedClients(v), ArmedClients(w));
  }

  lemma Subset<T>(a: set<T>, b: set<T>)
    requires a <= b
    ensures |a| <= |b| && (a < b ==> |a| < |b|)
  {
    assert b == a + (b - a);
  }

  lemma ReadProgress(w: World)
    requires Inv(w) && w.counter > 0
    ensures var v := ReadEvent(w).0; Less(v, w) && v.log == w.log && v.open == w.open && v.efd == w.efd && w.armed <= v.armed
  {
    var u := w.(counter := 0);
    EventfdApart(w, u);
    DrainKeeps(u, Most(w));
    var v := ReadEvent(w).0;
    if w.drained == |w.log| {
      assert v == u;
      assert Ahead(v) == Ahead(w) && ArmedClients(v) == ArmedClients(w);
    }
  }

  lemma WriteProgress(w: World)
    requires w.efd in w.armed
    ensures Less(WriteEvent(w), w)
  {
    var v := WriteEvent(w);
    assert Ahead(v) == Ahead(w) && ArmedClients(v) == ArmedClients(w);
  }

  ghost predicate Advances(w: World, outcome: (World, int), fd: nat)
    requires fd in w.fds
  {
    var (v, r) := outcome;
    true == (
      && r >= 0 && fd in v.fds
      && (if w.fds[fd].cursor < |w.log| then Further(w.fds[fd], v.fds[fd]) else v.fds[fd] == w.fds[fd] && r == 0))
  }

  /** A call sends a byte or finishes a tag, or finds that there is none. */
  lemma ServeAdvances(w: World, fd: nat, answers: seq<int>)
    requires Inv(w) && fd in w.armed && fd != w.efd && Servable(w, fd) && Willing(answers)
    ensures Advances(w, ServeClient(w, fd, answers), fd)
  {
    assert Client(w, fd);
    var d := w.fds[fd];
    TurnsMoveOn(FeedOf(w), fd, d, answers, Enough(Fresh(d, answers)));
    ServeReturns(FeedOf(w), fd, d, answers);
  }

  lemma FewerAhead(w: World, v: World, fd: nat)
    requires fd in w.fds && v.log == w.log && v.fds.Keys == w.fds.Keys && v.efd == w.efd && v.armed <= w.armed
    requires v.fds[fd] == w.fds[fd] || Further(w.fds[fd], v.fds[fd])
    requires forall x :: x in w.fds && x != fd ==> v.fds[x] == w.fds[x]
    ensures Ahead(v) <= Ahead(w) && ArmedClients(v) <= ArmedClients(w)
    ensures var d := w.fds[fd];
            Further(d, v.fds[fd]) && d.cursor < |w.log| && d.written <= w.log[d.cursor].len ==> Ahead(v) < Ahead(w)
    ensures fd in w.armed && fd !in v.armed && fd != w.efd ==> ArmedClients(v) < ArmedClients(w)
  {
    var d := w.fds[fd];
    if Further(d, v.fds[fd]) && d.cursor < |w.log| && d.written <= w.log[d.cursor].len {
      assert (fd, d.cursor, d.written) in Ahead(w) && (fd, d.cursor, d.written) !in Ahead(v);
    }
    if fd in w.armed && fd !in v.armed && fd != w.efd { assert fd in ArmedClients(w) && fd !in ArmedClients(v); }
  }

  /** One client moved: it is further on, or it had reached the end and was disarmed. */
  ghost predicate ClientMoved(w: World, v: World, fd: nat)
    requires fd in w.fds
  {
    true == (
      && fd in v.fds && v.log == w.log && v.drained == w.drained && v.fds.Keys == w.fds.Keys && v.efd == w.efd
      && (forall x :: x in w.fds && x != fd ==> v.fds[x] == w.fds[x])
      && v.armed <= w.armed
      && (if w.fds[fd].cursor < |w.log| then Further(w.fds[fd], v.fds[fd]) && w.fds[fd].written <= w.log[w.fds[fd].cursor].len
          else v.fds[fd] == w.fds[fd] && fd !in v.armed))
  }

  lemma MovedLess(w: World, v: World, fd: nat)
    requires fd in w.fds && fd in w.armed && fd != w.efd && ClientMoved(w, v, fd)
    ensures Less(v, w)
  {
    FewerAhead(w, v, fd);
    FewerUnsent(w, v);
  }

  lemma ServeMovesOn(w: World, fd: nat, answers: seq<int>)
    requires Servable(w, fd) && Advances(w, ServeClient(w, fd, answers), fd)
    ensures ClientMoved(w, ServeClient(w, fd, answers).0, fd)
  {
  }

  lemma EventfdProgress(w: World, e: Event)
    requires Inv(w) && Served(w, e) && e.fd == w.efd
    ensures var v := Handle(w, e).0; Less(v, w) && v.log == w.log && v.open == w.open
  {
    var v := if e.readable then ReadEvent(w).0 else w;
    if e.readable { ReadProgress(w); }
    if e.writable { WriteProgress(v); }
  }

  lemma ClientProgress(w: World, e: Event)
    requires Inv(w) && Served(w, e) && e.fd != w.efd
    ensures var (v, closes) := Handle(w, e); !closes && Less(v, w) && v.log == w.log && v.open == w.open
  {
    ServeKeeps(w, e.fd, e.answers);
    ServedIs(w, e);
    ServeAdvances(w, e.fd, e.answers);
    ServeMovesOn(w, e.fd, e.answers);
    MovedLess(w, ServeClient(w, e.fd, e.answers).0, e.fd);
  }

  lemma ServedIs(w: World, e: Event)
    requires Served(w, e) && e.fd != w.efd && Servable(w, e.fd)
    ensures var (v, r) := ServeClient(w, e.fd, e.answers); Handle(w, e) == (v, r < 0) && v.open == w.open
  {
    assert Acts(w, e.actions) == w;
  }

  /** Every event brings the loop closer to rest. */
  lemma Progress(w: World, e: Event)
    requires Inv(w) && Served(w, e)
    ensures var (v, closes) := Handle(w, e); Inv(v) && !closes && Less(v, w) && v.log == w.log && v.open == w.open
  {
    HandleKeeps(w, e);
    if e.fd == w.efd { EventfdProgress(w, e); } else { ClientProgress(w, e); }
  }

  /** A batch of such events. */
  ghost predicate ServedBatch(w: World, events: seq<Event>)
  {
    events != [] && Captured(w, events) && forall i :: 0 <= i < |events| ==> Served(w, events[i])
  }

  lemma StillServed(w: World, events: seq<Event>)
    requires Inv(w) && ServedBatch(w, events) && |events| > 1
    ensures ServedBatch(Handle(w, events[0]).0, events[1..])
  {
    HandleKeeps(w, events[0]);
    StillCaptured(w, events);
    forall i | 0 <= i < |events| - 1 ensures Served(Handle(w, events[0]).0, events[1..][i]) {
      assert events[1..][i] == events[i + 1] && Served(w, events[i + 1]);
    }
  }

  lemma LessAgain(u: World, v: World, w: World)
    requires Less(u, v) && Less(v, w)
    ensures Less(u, w)
  {
  }

  /** A batch that closed nobody and left less to do. */
  ghost predicate Nearer(w: World, outcome: (World, set<nat>))
  {
    var (v, closing) := outcome;
    true == (Inv(v) && closing == {} && Less(v, w) && v.log == w.log && v.open == w.open)
  }

  lemma {:induction false} HandleAllProgress(w: World, events: seq<Event>)
    requires Inv(w) && ServedBatch(w, events)
    ensures AllLawful(w, events) && Nearer(w, HandleAll(w, events))
    decreases |events|
  {
    var v := Handle(w, events[0]).0;
    Progress(w, events[0]);
    if |events| > 1 {
      StillServed(w, events);
      HandleAllProgress(v, events[1..]);
      NearerAgain(w, v, HandleAll(v, events[1..]));
    } else {
      NearerOnce(w, v, events[1..]);
    }
    FirstHandled(w, events, v);
  }

  lemma FirstHandled(w: World, events: seq<Event>, v: World)
    requires events != [] && Handle(w, events[0]) == (v, false) && Served(w, events[0])
    ensures HandleAll(w, events) == HandleAll(v, events[1..])
    ensures AllLawful(v, events[1..]) ==> AllLawful(w, events)
  {
  }

  lemma NearerOnce(w: World, v: World, events: seq<Event>)
    requires Inv(v) && Less(v, w) && v.log == w.log && v.open == w.open && events == []
    ensures Nearer(w, HandleAll(v, events)) && AllLawful(v, events)
  {
  }

  lemma NearerAgain(w: World, v: World, outcome: (World, set<nat>))
    requires Less(v, w) && v.log == w.log && v.open == w.open && Nearer(v, outcome)
    ensures Nearer(w, outcome)
  {
    LessAgain(outcome.0, v, w);
  }

  /** Every batch brings the loop closer to rest. */
  lemma BatchProgress(w: World, events: seq<Event>)
    requires Inv(w) && ServedBatch(w, events)
    ensures var v := Wait(w, events); AllLawful(w, events) && Inv(v) && Less(v, w) && v.log == w.log && v.open == w.open
  {
    HandleAllProgress(w, events);
    NothingClosed(w, events, HandleAll(w, events).0);
  }

  lemma NothingClosed(w: World, events: seq<Event>, v: World)
    requires HandleAll(w, events) == (v, {})
    ensures Wait(w, events) == v
  {
    assert v.open - {} == v.open && v.armed - {} == v.armed;
  }

  /** While the loop is not at rest there is something to serve. */
  lemma SomethingToServe(w: World) returns (e: Event)
    requires Inv(w) && !Quiet(w)
    ensures Served(w, e) && ServedBatch(w, [e])
  {
    if w.counter > 0 {
      e := Event(w.efd, true, [], 0, false, [], false);
    } else {
      var fd :| fd in w.armed;
      e := Event(fd, false, [], 0, true, [1], false);
    }
  }

  /** A choice of the next batch, of whatever size and in whatever order. */
  ghost predicate Scheduler(pick: World -> seq<Event>)
  {
    forall w: World :: Inv(w) && !Quiet(w) ==> ServedBatch(w, pick(w))
  }

  /** Left alone, with sockets that take at least a byte a time, the loop comes to rest after finitely many batches, and then everything is delivered. */
  ghost function Settle(w: World, pick: World -> seq<Event>): (v: World)
    requires Inv(w) && Scheduler(pick)
    ensures Inv(v) && Quiet(v) && v.log == w.log && v.open == w.open && AllDelivered(v)
    decreases Undrained(w), Unsent(w), Wakes(w)
  {
    if Quiet(w) then
      QuietMeansDelivered(w);
      w
    else
      BatchProgress(w, pick(w));
      Settle(Wait(w, pick(w)), pick)
  }
}
