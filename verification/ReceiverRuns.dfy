/** The receiver over whole runs of segments interleaved with reads: first any segments at all, then
    segments of one connection, reordered, repeated or lost. */
module ReceiverRuns {
  import opened FixedWidth
  import opened WrappingIntegers
  import opened OrderedMaps
  import opened Segments
  import opened Reassembly
  import opened ReassemblyRefinement
  import opened ByteStreams
  import opened Connections
  import opened Receivers
  import opened ReceiverInvariants

  datatype Event = Hear(seg: TCPSegment) | ReadEvent(len: nat)

  function Step(r: Receiver, e: Event): (t: Receiver)
    requires Sorted(r.reassembler.pieces)
    ensures Sorted(t.reassembler.pieces) && t.reassembler.capacity == r.reassembler.capacity
  {
    match e
    case Hear(seg) => SegmentReceived(r, seg)
    case ReadEvent(len) => ReadOut(r, len)
  }

  function Run(r: Receiver, events: seq<Event>): (u: Receiver)
    requires Sorted(r.reassembler.pieces)
    ensures Sorted(u.reassembler.pieces) && u.reassembler.capacity == r.reassembler.capacity
    decreases events
  {
    if events == [] then r else Run(Step(r, events[0]), events[1..])
  }

  // ---- any segments at all ----

  lemma StepEdge(r: Receiver, e: Event)
    requires Sorted(r.reassembler.pieces)
    ensures RightEdge(r.reassembler) <= RightEdge(Step(r, e).reassembler)
    ensures e.Hear? ==> RightEdge(r.reassembler) == RightEdge(Step(r, e).reassembler)
  {
    if e.Hear? {
      PushKeepsEdge(r.reassembler, e.seg.payload, Index(Addressed(r, e.seg.header)), e.seg.header.fin);
    }
  }

  /** The right edge never moves back, and only reads move it. */
  lemma {:induction false} RunEdge(r: Receiver, events: seq<Event>)
    requires Sorted(r.reassembler.pieces)
    ensures RightEdge(r.reassembler) <= RightEdge(Run(r, events).reassembler)
    ensures (forall i :: 0 <= i < |events| ==> events[i].Hear?) ==>
              RightEdge(r.reassembler) == RightEdge(Run(r, events).reassembler)
    decreases events
  {
    if events != [] {
      StepEdge(r, events[0]);
      RunEdge(Step(r, events[0]), events[1..]);
    }
  }

  lemma StepGuarded(r: Receiver, e: Event)
    requires Guarded(r) && RightEdge(Step(r, e).reassembler) < TWO64
    ensures var t := Step(r, e);
            && Guarded(t) && StreamOut(r).written <= StreamOut(t).written && (StreamOut(r).ended ==> StreamOut(t).ended)
            && StreamOut(r).error == StreamOut(t).error && (r.ack.Some? ==> t.ack.Some?)
  {
    match e
    case Hear(seg) => SegmentGuarded(r, seg);
    case ReadEvent(len) => ReadOutGuarded(r, len);
  }

  lemma {:induction false} RunGuarded(r: Receiver, events: seq<Event>)
    requires Guarded(r) && RightEdge(Run(r, events).reassembler) < TWO64
    ensures Guarded(Run(r, events))
    ensures StreamOut(r).written <= StreamOut(Run(r, events)).written
    ensures StreamOut(r).ended ==> StreamOut(Run(r, events)).ended
    ensures StreamOut(r).error == StreamOut(Run(r, events)).error
    ensures r.ack.Some? ==> Run(r, events).ack.Some?
    decreases events
  {
    if events != [] {
      var t := Step(r, events[0]);
      RunEdge(t, events[1..]);
      StepGuarded(r, events[0]);
      RunGuarded(t, events[1..]);
    }
  }

  /** After any run of any segments, forged ones included, and reads, while the right edge fits 64 bits:
      the checkpoint is the number of bytes written until the input ends, then zero; whatever is heard
      next, a push starts inside the window; nothing is kept at or beyond the right edge, which is the
      advertised one; and what is buffered and what waits fit the capacity together. */
  lemma AnyRunGuarded(capacity: nat, events: seq<Event>, next: TCPSegment)
    requires RightEdge(Run(Listening(capacity), events).reassembler) < TWO64
    ensures var u := Run(Listening(capacity), events);
            var right, q := RightEdge(u.reassembler), Addressed(u, next.header);
            && u.checkp == (if StreamOut(u).ended then 0 else |StreamOut(u).written|)
            && (InReach(q, |next.payload|) ==> Index(q) < right)
            && (forall i: nat :: Accepted(u.reassembler, i) ==> i < right)
            && |StreamOut(u).written| + WindowSize(u) == right
            && Size(StreamOut(u)) + Unassembled(u.reassembler) <= capacity
  {
    var u := Run(Listening(capacity), events);
    RunEdge(Listening(capacity), events);
    RunGuarded(Listening(capacity), events);
    PushesInsideWindow(u, next);
    AdvertisedEdge(u);
    WithinCapacity(u.reassembler);
  }

  // ---- segments of one connection ----

  /** A segment of the connection that cannot be mistaken for another. */
  ghost predicate Plausible(r: Receiver, c: Conn, e: Event) {
    e.Hear? ==> exists a: nat :: Genuine(e.seg, a, c) && Unmistakable(r, e.seg, a)
  }

  ghost predicate AllPlausible(r: Receiver, c: Conn, events: seq<Event>)
    requires Sorted(r.reassembler.pieces)
    decreases events
  {
    events == [] || (Plausible(r, c, events[0]) && AllPlausible(Step(r, events[0]), c, events[1..]))
  }

  predicate HeardSyn(r: Receiver) { r.syn || r.ack.Some? }

  ghost predicate SynAmong(events: seq<Event>) {
    exists e :: e in events && e.Hear? && e.seg.header.syn
  }

  lemma StepTracks(r: Receiver, c: Conn, e: Event)
    requires Tracks(r, c) && Plausible(r, c, e)
    ensures var t := Step(r, e);
            && Tracks(t, c) && AbsoluteAck(r) <= AbsoluteAck(t)
            && StreamOut(r).written <= StreamOut(t).written
            && (HeardSyn(t) <==> HeardSyn(r) || (e.Hear? && e.seg.header.syn))
  {
    match e
    case Hear(seg) =>
      var a: nat :| Genuine(seg, a, c) && Unmistakable(r, seg, a);
      SegmentTracks(r, c, seg, a);
    case ReadEvent(len) => ReadOutTracks(r, c, len);
  }

  /** Over any run of segments of one connection the receiver keeps track of it, and output and
      acknowledgment only advance. */
  lemma {:induction false} RunTracks(r: Receiver, c: Conn, events: seq<Event>)
    requires Tracks(r, c) && AllPlausible(r, c, events)
    ensures var u := Run(r, events);
            && Tracks(u, c) && AbsoluteAck(r) <= AbsoluteAck(u)
            && StreamOut(r).written <= StreamOut(u).written
            && (HeardSyn(u) <==> HeardSyn(r) || SynAmong(events))
    decreases events
  {
    if events != [] {
      StepTracks(r, c, events[0]);
      RunTracks(Step(r, events[0]), c, events[1..]);
      assert forall e :: e in events <==> e == events[0] || e in events[1..];
    }
  }

  /** Some FIN of the run fitted the window of its moment. */
  ghost predicate FinHeard(r: Receiver, c: Conn, events: seq<Event>)
    requires Sorted(r.reassembler.pieces)
    decreases events
  {
    events != []
    && ((events[0].Hear? && FinFits(r, c, events[0].seg)) || FinHeard(Step(r, events[0]), c, events[1..]))
  }

  lemma SegmentMarks(r: Receiver, c: Conn, seg: TCPSegment, a: nat)
    requires Tracks(r, c) && Genuine(seg, a, c) && Unmistakable(r, seg, a)
    ensures SegmentReceived(r, seg).reassembler.eofFlag <==> r.reassembler.eofFlag || FinFits(r, c, seg)
  {
    if seg.header.syn == r.syn || !seg.header.fin {
      SegmentExact(r, seg, 0);
    } else if seg.header.syn || Recognisable(r, seg, a) {
      SegmentEnds(r, c, seg, a);
    } else {
      OldIsBeyond(r, c, seg, a);
    }
  }

  lemma {:induction false} RunMarks(r: Receiver, c: Conn, events: seq<Event>)
    requires Tracks(r, c) && AllPlausible(r, c, events)
    ensures Run(r, events).reassembler.eofFlag <==> r.reassembler.eofFlag || FinHeard(r, c, events)
    decreases events
  {
    if events != [] {
      if events[0].Hear? {
        var a: nat :| Genuine(events[0].seg, a, c) && Unmistakable(r, events[0].seg, a);
        SegmentMarks(r, c, events[0].seg, a);
      }
      StepTracks(r, c, events[0]);
      RunMarks(Step(r, events[0]), c, events[1..]);
    }
  }

  /** Over any run of segments of one connection, reordered, repeated or lost, interleaved with reads:
      a present ackno is the wrapped number of the first byte missing, past the FIN once the input has
      ended; all bytes before it are the bytes sent; the input has ended exactly when some FIN fitted the
      window of its moment and every byte is there; and the ackno is present exactly when a SYN was
      heard, as documented, if the receiver has any capacity, and never if it has none. */
  lemma AcknoExact(capacity: nat, c: Conn, events: seq<Event>)
    requires capacity + |c.sent| + 2 < TWO64
    requires AllPlausible(Listening(capacity), c, events)
    ensures var u := Run(Listening(capacity), events);
            var gap := u.reassembler.writePtr;
            && (u.ack.Some? <==> SynAmong(events) && capacity > 0)
            && (u.ack.Some? ==> u.ack.value == Wrap(1 + gap + AsNat(StreamOut(u).ended), c.isn))
            && !Accepted(u.reassembler, gap)
            && gap <= |c.sent| && StreamOut(u).written == c.sent[..gap]
            && (StreamOut(u).ended <==> FinHeard(Listening(capacity), c, events) && gap == |c.sent|)
            && (StreamOut(u).ended ==> c.closed)
  {
    ListeningTracks(capacity, c);
    RunTracks(Listening(capacity), c, events);
    RunMarks(Listening(capacity), c, events);
    ReadOff(Run(Listening(capacity), events), c);
  }

  lemma ReadOff(u: Receiver, c: Conn)
    requires Tracks(u, c)
    ensures var gap := u.reassembler.writePtr;
            && (u.ack.Some? <==> HeardSyn(u) && u.reassembler.capacity > 0)
            && (u.ack.Some? ==> u.ack.value == Wrap(1 + gap + AsNat(StreamOut(u).ended), c.isn))
            && !Accepted(u.reassembler, gap)
            && gap <= |c.sent| && StreamOut(u).written == c.sent[..gap]
            && (StreamOut(u).ended <==> u.reassembler.eofFlag && gap == |c.sent|)
            && (StreamOut(u).ended ==> c.closed)
  {
    WritePtrIsFirstGap(u.reassembler);
  }

  /** Without capacity a SYN is heard, and no ackno is given. */
  lemma SynWithoutCapacity(seg: TCPSegment)
    requires seg.header.syn
    ensures var u := SegmentReceived(Listening(0), seg); u.syn && u.ack == None
  {
  }
}
