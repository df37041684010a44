/** Frames from one end of a connection to the other. */
module WebSocketRuns {
  import opened Framing
  import opened FrameQueue
  import opened WebSocket

  /**
    A new connection that is fed written frames, cut into reads anyhow, dispatches those messages
    up to the first close; with read-only pages it faults at the first masked one with a payload.
   */
  method Talk(con: Connection, fs: seq<Frame>, cut: nat -> nat, full: nat -> bool) returns (fault: bool)
    requires con.Valid() && con.Settled() && con.base == |con.raw|
    requires AllReadable(fs) && Wire(fs) != []
    modifies con.Parts()
    ensures if fault then con.Lost() else con.Valid() && con.Settled()
    ensures fault || old(con.PageCounts()) || con.Countable(0) ==>
              Got(con.dispatched) == Sent(Reached(fs, con.ReadOnly())) && (fault <==> Got(con.dispatched) != Sent(fs))
    ensures fault || old(con.PageCounts()) || con.Countable(0) ==> AreTheFrames(con.dispatched, fs, con.ReadOnly(), fault)
    ensures InLog(con.dispatched, con.stream.stream.Log(), con.stream.curOffset)
    ensures old(con.PageCounts()) && !fault ==> con.PageCounts() && con.Resting()
    ensures !fault ==> con.stream.Available() <= old(con.stream.Available()) + |Wire(fs)|
  {
    ghost var before := con.raw;
    fault := Feed(con, Wire(fs), cut, full);
    WireRoundTrip(before, fs);
    SparedAreReached(Messages(before + Wire(fs), con.base), fs, con.ReadOnly());
    GotAll(con.dispatched);
    if Got(con.dispatched) == Sent(Reached(fs, con.ReadOnly())) && (fault <==> Got(con.dispatched) != Sent(fs)) {
      AllAreTheFrames(con.dispatched, fs, con.ReadOnly(), fault);
    }
    GotAll(Messages(before + Wire(fs), con.base));
  }
}
