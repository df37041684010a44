/**
  The tag stream (src/main/cache/tagcache.h:246-488) and the event manager
  (src/main/event/event_mgr.h:25-218) as they run, proved against the steps of `Wakeups`
  and `EventLoop`.
 */
module TagStreams {
  import opened Sequences
  import opened Delivery
  import opened Wakeups
  import opened EventLoop

  /** The epoll side: which descriptors are registered, and which of them wait for EPOLLOUT. */
  class EventManager {
    var open: set<nat>
    var armed: set<nat>

    constructor ()
      ensures open == {} && armed == {}
    {
      open, armed := {}, {};
    }

    method Register(fd: nat)
      modifies this
      ensures open == old(open) + {fd} && armed == old(armed)
    {
      open := open + {fd};
    }

    /** Fails for a descriptor that is not registered. */
    method SetWrite(fd: nat) returns (r: int)
      modifies this`armed
      ensures r == 0 <==> fd in open
      ensures armed == if fd in open then old(armed) + {fd} else old(armed)
    {
      r := -1;
      if fd in open {
        armed := armed + {fd};
        r := 0;
      }
    }

    method ClearWrite(fd: nat)
      modifies this`armed
      ensures armed == old(armed) - {fd}
    {
      armed := armed - {fd};
    }

    method Unregister(fd: nat)
      modifies this
      ensures open == old(open) - {fd} && armed == old(armed) - {fd}
    {
      open, armed := open - {fd}, armed - {fd};
    }
  }

  class TagStream {
    const em: EventManager
    const efd: nat
    const streams: set<nat>
    const data: nat -> seq<Byte>
    var log: seq<Tag>
    var drained: nat
    var fds: map<nat, FDData>
    var tag2fd: map<nat, set<nat>>
    var counter: nat
    ghost var sent: map<nat, seq<Byte>>
    ghost var origin: map<nat, nat>

    constructor (em: EventManager, efd: nat, streams: set<nat>, data: nat -> seq<Byte>)
      requires em.open == {efd} && em.armed == {}
      ensures State() == Initial(efd, streams, data) && this.em == em && Inv(State())
    {
      this.em, this.efd, this.streams, this.data := em, efd, streams, data;
      log, drained, fds, tag2fd, counter := [], 0, map[], map[], 0;
      sent, origin := map[], map[];
    }

    ghost function State(): (w: World)
      reads this, em
    {
      World(efd, streams, data, log, drained, fds, tag2fd, counter, em.armed, em.open, sent, origin)
    }

    /** The callback of a stream: offers `len` bytes from `offset` on to the socket. */
    method Callback(streamId: nat, offset: nat, len: nat, answers: seq<int>) returns (x: int, rest: seq<int>, ghost offered: seq<Byte>)
      requires streamId in streams && offset + len <= |data(streamId)|
      ensures x == Answer(answers, len) && rest == Rest(answers)
      ensures offered == data(streamId)[offset..offset + len]
    {
      offered := data(streamId)[offset..offset + len];
      x, rest := 0, [];
      if answers != [] {
        x, rest := if answers[0] < len then answers[0] else len, answers[1..];
      }
    }

    /** Offers the rest of the current tag; goes on only when the socket took all of it. */
    method SendRest(fd: nat, data0: FDData, count: nat, answers: seq<int>, ghost bytes: seq<Byte>, ghost taken: seq<Byte>)
      returns (d: FDData, rest: seq<int>, going: bool, r: int, ghost more: seq<Byte>)
      requires data0.written <= data0.current.len && data0.current.streamId in streams
      requires data0.current.offset + data0.current.len <= |data(data0.current.streamId)|
      requires bytes == data(data0.current.streamId)[data0.current.offset + data0.written..data0.current.offset + data0.current.len]
      ensures Call(d, if going then count + 1 else count, rest, more, if going then Going else Ended(r))
              == Offer(Call(data0, count, answers, taken, Going), data0, bytes)
    {
      var x;
      d := data0;
      ghost var offered;
      x, rest, offered := Callback(d.current.streamId, d.current.offset + d.written, d.current.len - d.written, answers);
      going, r, more := false, 1, taken;
      if x < 0 {
        r := -1;
      } else {
        more := taken + offered[..x];
        if d.written + x == d.current.len {
          d := d.(cursor := d.cursor + 1, written := 0);
          going := true;
        } else {
          d := d.(written := d.written + x);
        }
      }
    }

    /** Looks at the tag under the cursor, or goes on with the one the client is in the middle of. */
    method Pass(fd: nat, data0: FDData, count: nat, answers: seq<int>, ghost w: Feed, ghost taken: seq<Byte>)
      returns (d: FDData, n: nat, rest: seq<int>, going: bool, r: int, ghost more: seq<Byte>)
      requires w == FeedOf(State()) && AllFit(w) && Sound(w, fd, data0) && count < MaxFDCount && data0.cursor < |log|
      requires !Stuck(w, Call(data0, count, answers, taken, Going))
      ensures Call(d, n, rest, more, if going then Going else Ended(r)) == Turn(w, fd, Call(data0, count, answers, taken, Going))
    {
      d, n, rest, going, r, more := data0, count, answers, true, 1, taken;
      if d.written > 0 {
        d, rest, going, r, more := SendRest(fd, d, count, answers, Slice(w, d.current)[d.written..], taken);
      } else {
        d := d.(current := log[d.cursor]);
        if (d.current.fd == fd || d.current.tagId in d.subs) && d.current.streamId in streams {
          d, rest, going, r, more := SendRest(fd, d, count, answers, Slice(w, d.current), taken);
        } else {
          d := d.(cursor := d.cursor + 1, written := 0);
        }
      }
      if going { n := n + 1; }
    }

    /** One turn of the loop of `StreamWrite`. */
    method OnePass(fd: nat, data0: FDData, count: nat, answers: seq<int>, ghost w: Feed, ghost taken: seq<Byte>, ghost start: Call)
      returns (d: FDData, n: nat, rest: seq<int>, going: bool, r: int, ghost more: seq<Byte>)
      requires w == FeedOf(State()) && CallOk(w, fd, start) && count < MaxFDCount && data0.cursor < |log|
      requires At(w, fd, start, count, Call(data0, count, answers, taken, Going))
      ensures At(w, fd, start, count + 1, Call(d, n, rest, more, if going then Going else Ended(r))) && (going ==> n == count + 1)
    {
      NextTurn(w, fd, start, count);
      d, n, rest, going, r, more := Pass(fd, data0, count, answers, w, taken);
    }

    /** The loop of `StreamWrite`, on the client's record. */
    method Passes(fd: nat, data0: FDData, answers: seq<int>, ghost w: Feed)
      returns (d: FDData, r: int, ghost e: Call, ghost n: nat)
      requires w == FeedOf(State()) && CallOk(w, fd, Fresh(data0, answers))
      ensures At(w, fd, Fresh(data0, answers), n, e) && e.d == d && e.status == Ended(r)
    {
      var count: nat, rest, going := 0, answers, true;
      d, r, n := data0, 1, 0;
      ghost var start, taken: seq<Byte> := Fresh(data0, answers), [];
      while going && count < MaxFDCount && d.cursor < |log|
        invariant At(w, fd, start, n, Call(d, count, rest, taken, if going then Going else Ended(r)))
        invariant going ==> count == n
        decreases going, MaxFDCount - count
      {
        d, count, rest, going, r, taken := OnePass(fd, d, count, rest, w, taken, start);
        n := n + 1;
      }
      if going {
        r := if d.cursor == |log| then 0 else 1;
        LastTurn(w, fd, start, n);
        n := n + 1;
      }
      e := Call(d, count, rest, taken, Ended(r));
    }

    /** Sends the tags the client matches from its cursor on, until 16 are done, the log ends or the socket is full. */
    method StreamWrite(fd: nat, answers: seq<int>) returns (r: int)
      requires Servable(State(), fd)
      modifies this`fds, this`sent
      ensures var e := Serve(FeedOf(old(State())), fd, old(fds)[fd], answers);
              State() == Move(old(State()), fd, e.d, e.sent) && r == e.status.r
    {
      var d;
      ghost var e, n;
      d, r, e, n := Passes(fd, fds[fd], answers, FeedOf(State()));
      CallIs(FeedOf(State()), fd, fds[fd], answers, n, e);
      fds := fds[fd := d];
      sent := sent[fd := sent[fd] + e.sent];
    }
  
    /** Fails, with -1, for a descriptor that is registered already. */
    method Register(fd: nat) returns (r: int)
      modifies this`fds, this`sent, this`origin
      ensures State() == Wakeups.Register(old(State()), fd) && (r == 0 <==> fd !in old(fds))
      ensures r == 0 ==>
                && fd in fds && fds == old(fds)[fd := fds[fd]] && fds[fd].start == RecordSize * |log|
                && fds[fd].subs == {} && !fds[fd].registered && fd in sent && sent == old(sent)[fd := []]
      ensures r != 0 ==> r == -1 && fds == old(fds) && sent == old(sent) && origin == old(origin)
    {
      r := -1;
      if fd !in fds {
        fds := fds[fd := FDData({}, NoTag, false, 0, 0, RecordSize * |log|)];
        sent, origin := sent[fd := []], origin[fd := 0];
        r := 0;
      }
    }

    method Start(fd: nat, offset: nat) returns (r: int)
      modifies this`fds, this`origin, em`armed
      ensures State() == Wakeups.Start(old(State()), fd, offset) && (r == 0 <==> fd in old(fds))
      ensures r == 0 ==>
                && fds == old(fds)[fd := old(fds)[fd].(registered := true, cursor := offset)] && origin == old(origin)[fd := offset]
                && em.armed == if fd in em.open then old(em.armed) + {fd} else old(em.armed)
      ensures r != 0 ==> r == -1 && fds == old(fds) && origin == old(origin) && em.armed == old(em.armed)
    {
      r := -1;
      if fd in fds {
        fds, origin := fds[fd := fds[fd].(registered := true, cursor := offset)], origin[fd := offset];
        var _ := em.SetWrite(fd);
        r := 0;
      }
    }

    method Subscribe(fd: nat, tag: nat)
      requires fd in fds
      modifies this`fds, this`tag2fd
      ensures State() == Wakeups.Subscribe(old(State()), fd, tag)
      ensures fds == old(fds)[fd := old(fds)[fd].(subs := old(fds)[fd].subs + {tag})]
      ensures tag in tag2fd && fd in tag2fd[tag] && tag2fd == old(tag2fd)[tag := tag2fd[tag]]
      ensures tag2fd[tag] - {fd} == (if tag in old(tag2fd) then old(tag2fd)[tag] else {}) - {fd}
    {
      if tag !in tag2fd { tag2fd := tag2fd[tag := {}]; }
      tag2fd := tag2fd[tag := tag2fd[tag] + {fd}];
      fds := fds[fd := fds[fd].(subs := fds[fd].subs + {tag})];
    }

    method Queue(t: Tag)
      modifies this`log, this`tag2fd, em`armed
      ensures State() == Wakeups.Queue(old(State()), t)
      ensures log == old(log) + [t] && drained == old(drained) && fds == old(fds) && counter == old(counter) && sent == old(sent) && origin == old(origin)
      ensures em.armed == if efd in em.open then old(em.armed) + {efd} else old(em.armed)
    {
      if t.tagId !in tag2fd { tag2fd := tag2fd[t.tagId := {}]; }
      log := log + [t];
      var _ := em.SetWrite(efd);
    }

    /** Arms the subscribers of a tag. */
    method Wake(t: Tag)
      requires t.tagId in tag2fd
      modifies em`armed
      ensures em.armed == old(em.armed) + Audience(old(State()), t)
      ensures forall fd :: fd in em.armed <==>
                fd in old(em.armed) || (fd in tag2fd[t.tagId] && fd in fds && fds[fd].registered && fd in em.open)
    {
      var rest := tag2fd[t.tagId];
      ghost var all := rest;
      ghost var w := State();
      while rest != {}
        invariant rest <= all
        invariant em.armed == old(em.armed) + set fd | fd in all - rest && fd in fds && fds[fd].registered && fd in em.open
        decreases |rest|
      {
        var fd :| fd in rest;
        if fd in fds && fds[fd].registered { var _ := em.SetWrite(fd); }
        rest := rest - {fd};
      }
    }

    /** One record of `Read`. */
    method DrainRecord()
      requires drained < |log| && log[drained].tagId in tag2fd
      modifies this`drained, em`armed
      ensures State() == DrainOne(old(State()))
    {
      var tag := log[drained];
      drained := drained + 1;
      if tag.fd > 0 {
        var _ := em.SetWrite(efd);
      } else {
        Wake(tag);
      }
    }

    /** The loop over records. */
    method DrainRecords(most: nat)
      requires forall i :: 0 <= i < |log| ==> log[i].tagId in tag2fd
      modifies this`drained, em`armed
      ensures State() == Drain(old(State()), most)
    {
      var recordCount: nat := 0;
      while drained < |log| && recordCount < most
        invariant recordCount <= most && Drain(State(), most - recordCount) == Drain(old(State()), most)
      {
        DrainRecord();
        recordCount := recordCount + 1;
      }
    }

    /** Drains at most 128 tags and wakes their audience; re-arms the eventfd when some are left. */
    method Read() returns (r: int)
      requires forall i :: 0 <= i < |log| ==> log[i].tagId in tag2fd
      modifies this`drained, this`counter, em`armed
      ensures (State(), r) == ReadEvent(old(State()))
      ensures r == if old(counter) > 0 then 0 else -1
      ensures r == 0 ==> counter == 0 && drained == Max(old(drained), Min(old(drained) + 128, |log|)) && old(em.armed) <= em.armed
      ensures r == 0 && drained < |log| && efd in em.open ==> efd in em.armed
    {
      r := -1;
      if counter > 0 {
        counter := 0;
        DrainCount(State(), MaxRecordCount);
        DrainRecords(MaxRecordCount);
        if drained < |log| { var _ := em.SetWrite(efd); }
        r := 0;
      }
    }

    /** Adds the size of the tag log to the eventfd's counter. */
    method Write() returns (r: int)
      modifies this`counter
      ensures counter == old(counter) + RecordSize * |log| && r == 0
    {
      counter := counter + RecordSize * |log|;
      r := 0;
    }
  }

  /** `EventManager::Wait` with the callbacks of a tag stream and its clients. */
  class Loop {
    const em: EventManager
    const ts: TagStream
    var closeSet: set<nat>

    constructor (em: EventManager, ts: TagStream)
      requires ts.em == em
      ensures this.em == em && this.ts == ts && closeSet == {} && Valid()
    {
      this.em, this.ts, closeSet := em, ts, {};
    }

    ghost predicate Valid()
      reads this
    {
      ts.em == em && closeSet == {}
    }

    /** What the program does in a read callback. */
    method Perform(actions: seq<Action>)
      requires ts.em == em && Inv(ts.State()) && AllEnabled(ts.State(), actions)
      modifies ts, em
      ensures ts.State() == Acts(old(ts.State()), actions)
    {
      var i := 0;
      while i < |actions|
        invariant i <= |actions| && Inv(ts.State()) && AllEnabled(ts.State(), actions[i..])
        invariant Acts(ts.State(), actions[i..]) == Acts(old(ts.State()), actions)
      {
        ActKeeps(ts.State(), actions[i]);
        PerformOne(actions[i]);
        i := i + 1;
      }
    }

    method PerformOne(a: Action)
      requires ts.em == em && Enabled(ts.State(), a)
      modifies ts, em
      ensures ts.State() == Act(old(ts.State()), a)
    {
      match a
      case Connect(fd) => em.Register(fd);
      case Join(fd) => var _ := ts.Register(fd);
      case Subscribing(fd, tag) => ts.Subscribe(fd, tag);
      case Starting(fd, offset) => var _ := ts.Start(fd, offset);
      case Queueing(t) => ts.Queue(t);
    }

    /** The callbacks of one event, for reading and then for writing. */
    method Dispatch(e: Event)
      requires ts.em == em && Inv(ts.State()) && Ready(ts.State(), e) && Lawful(ts.State(), e)
      modifies ts, em, this`closeSet
      ensures var (v, closes) := Handle(old(ts.State()), e);
              ts.State() == v && closeSet == if closes then old(closeSet) + {e.fd} else old(closeSet)
    {
      if e.fd == ts.efd { DispatchEventfd(e); } else { DispatchClient(e); }
    }

    method DispatchEventfd(e: Event)
      requires ts.em == em && Inv(ts.State()) && e.fd == ts.efd
      modifies ts, em, this`closeSet
      ensures var (v, closes) := Handle(old(ts.State()), e);
              ts.State() == v && closeSet == if closes then old(closeSet) + {e.fd} else old(closeSet)
    {
      var close := e.hangup;
      if e.readable {
        var r := ts.Read();
        close := close || r < 0;
      }
      if e.writable { WriteEventfd(); }
      Note(e.fd, close);
    }

    /** The write callback of the eventfd and the reaction to its result 0. */
    method WriteEventfd()
      requires ts.em == em
      modifies ts, em
      ensures ts.State() == WriteEvent(old(ts.State()))
    {
      var _ := ts.Write();
      em.ClearWrite(ts.efd);
    }

    method DispatchClient(e: Event)
      requires ts.em == em && Inv(ts.State()) && Ready(ts.State(), e) && Lawful(ts.State(), e) && e.fd != ts.efd
      modifies ts, em, this`closeSet
      ensures var (v, closes) := Handle(old(ts.State()), e);
              ts.State() == v && closeSet == if closes then old(closeSet) + {e.fd} else old(closeSet)
    {
      ReadClient(e);
      var r := WriteClient(e);
      Note(e.fd, r < 0 || (e.readable && e.readResult < 0) || e.hangup);
    }

    /** A descriptor is to be closed, if it is. */
    method Note(fd: nat, close: bool)
      modifies this`closeSet
      ensures closeSet == if close then old(closeSet) + {fd} else old(closeSet)
    {
      if close { closeSet := closeSet + {fd}; }
    }

    /** The read callback of a client. */
    method ReadClient(e: Event)
      requires ts.em == em && Inv(ts.State()) && Ready(ts.State(), e) && Lawful(ts.State(), e) && e.fd != ts.efd
      modifies ts, em
      ensures ts.State() == if e.readable then Acts(old(ts.State()), e.actions) else old(ts.State())
      ensures Inv(ts.State()) && (e.writable ==> e.fd in em.armed)
    {
      if e.readable {
        ActsKeep(ts.State(), e.actions);
        Perform(e.actions);
      }
    }

    method WriteClient(e: Event) returns (r: int)
      requires ts.em == em && Inv(ts.State()) && (e.writable ==> e.fd in em.armed) && e.fd != ts.efd
      modifies ts, em`armed
      ensures (ts.State(), r) == if e.writable && Servable(old(ts.State()), e.fd) then ServeClient(old(ts.State()), e.fd, e.answers) else (old(ts.State()), 1)
    {
      r := 1;
      if e.writable { r := ServeEvent(e.fd, e.answers); }
    }

    /** The write callback of a client and the reaction to its result. */
    method ServeEvent(fd: nat, answers: seq<int>) returns (r: int)
      requires ts.em == em && Inv(ts.State()) && fd in em.armed && fd != ts.efd
      modifies ts, em`armed
      ensures Servable(old(ts.State()), fd) && (ts.State(), r) == ServeClient(old(ts.State()), fd, answers)
    {
      ServeKeeps(ts.State(), fd, answers);
      r := ts.StreamWrite(fd, answers);
      if r == 0 { em.ClearWrite(fd); }
    }

    /** Unregisters what is to be closed. */
    method CloseThem()
      requires ts.em == em
      modifies em, this`closeSet
      ensures closeSet == {} && ts.State() == CloseAll(old(ts.State()), old(closeSet))
      ensures em.open == old(em.open) - old(closeSet) && em.armed == old(em.armed) - old(closeSet)
    {
      ghost var open, armed := em.open, em.armed;
      while closeSet != {}
        invariant ts.em == em && closeSet <= old(closeSet)
        invariant em.open == open - (old(closeSet) - closeSet) && em.armed == armed - (old(closeSet) - closeSet)
        decreases |closeSet|
      {
        var fd :| fd in closeSet;
        em.Unregister(fd);
        closeSet := closeSet - {fd};
      }
      assert old(closeSet) - closeSet == old(closeSet);
    }

    /**
      One batch.  `trace` are the states between its events; what hung up, or had a callback that
      answered below zero, is closed, and nothing else.
     */
    method Wait(events: seq<Event>) returns (ghost trace: seq<World>)
      requires Valid() && Inv(ts.State()) && Captured(ts.State(), events) && AllLawful(ts.State(), events)
      modifies ts, em, this`closeSet
      ensures Valid() && Inv(ts.State()) && ts.State() == EventLoop.Wait(old(ts.State()), events)
      ensures |trace| == |events| + 1 && trace[0] == old(ts.State()) && forall i :: 0 <= i < |events| ==> trace[i + 1] == Handle(trace[i], events[i]).0
      ensures ts.State() == trace[|events|].(open := em.open, armed := em.armed)
      ensures forall i :: 0 <= i < |events| ==>
                (if events[i].hangup || (events[i].fd != ts.efd && events[i].readable && events[i].readResult < 0) || WriteResult(trace[i], events[i]) < 0
                 then events[i].fd !in em.open && events[i].fd !in em.armed else events[i].fd in em.open)
      ensures forall fd :: fd in old(em.open) && (forall i :: 0 <= i < |events| ==> events[i].fd != fd) ==> fd in em.open
    {
      WaitKeeps(ts.State(), events);
      trace := ClosedExactly(ts.State(), events);
      var i := 0;
      ghost var (v, closing) := HandleAll(ts.State(), events);
      while i < |events|
        invariant i <= |events| && ts.em == em
        invariant Inv(ts.State()) && Captured(ts.State(), events[i..]) && AllLawful(ts.State(), events[i..])
        invariant HandleAll(ts.State(), events[i..]).0 == v && HandleAll(ts.State(), events[i..]).1 + closeSet == closing
      {
        HandleFirst(events[i..]);
        assert events[i..][1..] == events[i + 1..];
        i := i + 1;
      }
      CloseThem();
    }

    /** The first event of what is left of a batch. */
    method HandleFirst(events: seq<Event>)
      requires ts.em == em && events != [] && Inv(ts.State()) && Captured(ts.State(), events) && AllLawful(ts.State(), events)
      modifies ts, em, this`closeSet
      ensures Inv(ts.State()) && Captured(ts.State(), events[1..]) && AllLawful(ts.State(), events[1..])
      ensures HandleAll(ts.State(), events[1..]).0 == HandleAll(old(ts.State()), events).0
      ensures HandleAll(ts.State(), events[1..]).1 + closeSet == HandleAll(old(ts.State()), events).1 + old(closeSet)
    {
      HandleKeeps(ts.State(), events[0]);
      StillCaptured(ts.State(), events);
      Dispatch(events[0]);
    }
  }
}
