/** No reachable state is a dead end: whatever was lost, the transfer can still be completed. */
module Recovery {
  import opened FixedWidth
  import opened WrappingIntegers
  import opened OrderedMaps
  import opened ByteStreams
  import opened Segments
  import opened ReassemblyRefinement
  import opened Connections
  import opened Senders
  import opened SenderInvariants
  import opened Receivers
  import opened ReceiverInvariants
  import opened Network

  // ---- the receiver moves on whenever it hears what it is missing ----

  lemma HeardAdvances(r: Receiver, c: Conn, seg: TCPSegment, a: nat)
    requires Tracks(r, c) && Genuine(seg, a, c) && Recognisable(r, seg, a)
    requires r.reassembler.capacity > 0 && Size(StreamOut(r)) == 0
    requires a <= Confirmed(r) < a + seg.Length()
    requires seg.header.syn ==> r.ack.None?
    ensures Confirmed(SegmentReceived(r, seg)) > Confirmed(r)
  {
    SegmentTracks(r, c, seg, a);
    WrapZero(c.isn);
    if r.ack.Some? {
      IndexIsTrue(r, c, seg, a);
      var q := Addressed(r, seg.header);
      assert InReach(q, |seg.payload|);
      if r.reassembler.writePtr < a - 1 + |seg.payload| {
        PushFillsGap(r.reassembler, seg.payload, Index(q), seg.header.fin);
      } else {
        PushEnds(r.reassembler, seg.payload, Index(q), c.sent);
      }
    }
  }

  /** A segment of the connection that holds the first missing number moves the acknowledgment, if the
      reader has made room, exactly when it is recognised; only a repeated SYN is ignored. */
  lemma SegmentAdvances(r: Receiver, c: Conn, seg: TCPSegment, a: nat)
    requires Tracks(r, c) && Genuine(seg, a, c) && Unmistakable(r, seg, a)
    requires r.reassembler.capacity > 0 && Size(StreamOut(r)) == 0
    requires a <= Confirmed(r) < a + seg.Length()
    requires seg.header.syn ==> r.ack.None?
    ensures Confirmed(SegmentReceived(r, seg)) > Confirmed(r) <==> Recognisable(r, seg, a)
  {
    if Recognisable(r, seg, a) { HeardAdvances(r, c, seg, a); } else { OldIsBeyond(r, c, seg, a); }
  }

  // ---- a SYN never carries more than the receiver takes with it ----

  // every SYN segment is m bytes and its flag long
  ghost predicate Loaded(seg: TCPSegment, m: nat) {
    seg.header.syn ==> seg.Length() == 1 + m && !seg.header.fin
  }

  ghost predicate SenderLoaded(s: Sender, m: nat) {
    && (forall i :: 0 <= i < |s.segmentsOut| ==> Loaded(s.segmentsOut[i], m))
    && (forall i :: 0 <= i < |s.outstanding| ==> Loaded(s.outstanding[i].value, m))
    && (s.nextSeqno == 0 ==> s.window == 1)
  }

  /** Every SYN in the system is the same m <= 1 bytes long, because none is made before the initial
      window of one is replaced; and a receiver that heard the SYN has those bytes. */
  ghost predicate SynFits(w: World, m: nat) {
    && m <= 1
    && SenderLoaded(w.sender, m)
    && (forall seg :: seg in w.wire ==> Loaded(seg, m))
    && (w.receiver.ack.Some? ==> AbsoluteAck(w.receiver) >= 1 + m)
    && (w.acks != {} ==> w.receiver.ack.Some?)
  }

  lemma NothingLoadedYet(s: Sender, m: nat)
    requires Good(s) && s.nextSeqno == 0 && s.window == 1
    ensures SenderLoaded(s, m)
  {
    forall i | 0 <= i < |s.segmentsOut| ensures Loaded(s.segmentsOut[i], m) {
      assert SomeGenuine(s.segmentsOut[i], ConnOf(s));
    }
  }

  lemma {:induction false} FillLoopLoaded(s: Sender, end: nat, m: nat)
    requires Good(s) && s.nextSeqno > 0 && end <= s.acked + 65535 && SenderLoaded(s, m)
    ensures SenderLoaded(FillLoop(s, end), m)
    decreases end - s.nextSeqno
  {
    if s.nextSeqno < end && NextSegment(s, end).Length() > 0 {
      SendNextGood(s, end);
      FillLoopLoaded(SendNext(s, end), end, m);
    }
  }

  /** Filling makes at most one SYN, and with a window of one it carries at most one byte. */
  lemma FillLoaded(s: Sender, m: nat) returns (n: nat)
    requires Good(s) && SenderLoaded(s, m) && m <= 1
    ensures n <= 1 && SenderLoaded(FillWindow(s), n)
    ensures s.nextSeqno > 0 ==> n == m
  {
    n := m;
    if !s.finSent {
      var end := s.acked + s.window;
      if s.nextSeqno == 0 {
        n := |NextSegment(s, end).payload|;
        NothingLoadedYet(s, n);
        SendNextGood(s, end);
        FillLoopLoaded(SendNext(s, end), end, n);
      } else {
        FillLoopLoaded(s, end, m);
      }
    }
  }

  lemma SenderStepFits(w: World, s: Sender, m: nat, n: nat)
    requires Sane(w) && SynFits(w, m) && Extends(ConnOf(w.sender), ConnOf(s))
    requires SenderLoaded(s, n) && n <= 1 && (w.sender.nextSeqno > 0 ==> n == m)
    ensures SynFits(w.(sender := s), n)
  {
    ConfirmedIsSent(w);
    forall seg | seg in w.wire ensures Loaded(seg, n) {
      assert SomeGenuine(seg, ConnOf(w.sender)) && Loaded(seg, m);
    }
  }

  lemma TransmitFits(w: World, dress: TCPHeader, m: nat)
    requires Sane(w) && SynFits(w, m) && Possible(w, Transmit(dress))
    ensures SynFits(Next(w, Transmit(dress)), m)
  {
    OutsideGood(w.sender, []);
    SenderStepFits(w, Dequeue(w.sender), m, m);
    WireAdds(w.(sender := Dequeue(w.sender)), Dressed(w.sender.segmentsOut[0], dress), m);
  }

  lemma WireAdds(w: World, seg: TCPSegment, m: nat)
    requires SynFits(w, m) && Loaded(seg, m)
    ensures SynFits(w.(wire := w.wire + {seg}), m)
  {
  }

  lemma AckFits(w: World, ack: Ack, m: nat)
    requires Sane(w) && SynFits(w, m) && ack in w.acks
    ensures SynFits(Next(w, DeliverAck(ack)), m)
  {
    var s := w.sender;
    ConfirmedIsSent(w);
    AckGood(s, ack.ackno, ack.window);
    AckLoaded(s, ack.ackno, ack.window, m);
    SenderStepFits(w, AckReceived(s, ack.ackno, ack.window), m, m);
  }

  lemma AckLoaded(s: Sender, ackno: uint32, window: uint16, m: nat)
    requires Good(s) && SenderLoaded(s, m) && s.nextSeqno > 0
    ensures SenderLoaded(AckReceived(s, ackno, window), m)
  {
    var k := DropAckedSuffix(s.outstanding, Unwrap(ackno, s.isn, s.nextSeqno));
  }

  lemma TickLoaded(s: Sender, ms: nat, m: nat)
    requires Good(s) && SenderLoaded(s, m)
    ensures SenderLoaded(Senders.Tick(s, ms), m)
  {
  }

  /** The receiver that takes the SYN takes its byte with it. */
  lemma SynTaken(r: Receiver, c: Conn, seg: TCPSegment, a: nat, m: nat)
    requires Tracks(r, c) && Genuine(seg, a, c)
    requires r.ack.None? && Loaded(seg, m) && m <= 1
    ensures var t := SegmentReceived(r, seg); t.ack.Some? ==> AbsoluteAck(t) >= 1 + m
  {
    WrapZero(c.isn);
    if seg.header.syn && !r.syn && m == 1 && r.reassembler.capacity > 0 {
      IndexIsTrue(r, c, seg, a);
      PushFillsGap(r.reassembler, seg.payload, 0, seg.header.fin);
    }
  }

  lemma DeliverFits(w: World, seg: TCPSegment, m: nat)
    requires Sane(w) && SynFits(w, m) && seg in w.wire
    ensures SynFits(Next(w, Deliver(seg)), m)
  {
    var c := ConnOf(w.sender);
    var a: nat :| Genuine(seg, a, c);
    var got := ArriveIsReceive(w, seg, c, a);
    AllUnmistakable(w, got, a);
    SegmentTracks(w.receiver, c, got, a);
    if w.receiver.ack.None? { SynTaken(w.receiver, c, got, a, m); }
  }

  lemma SenderActionFits(w: World, a: Action, m: nat) returns (n: nat)
    requires Sane(w) && SynFits(w, m) && Possible(w, a)
    requires a.AppWrite? || a.AppEnd? || a.Fill? || a.SendAck? || a.Tick?
    ensures SynFits(Next(w, a), n)
  {
    var s := w.sender;
    n := m;
    match a
    case AppWrite(data) => OutsideGood(s, data); SenderStepFits(w, WriteIn(s, data), m, m);
    case AppEnd => OutsideGood(s, []); SenderStepFits(w, EndIn(s), m, m);
    case Fill =>
      n := FillLoaded(s, m);
      FillWindowGood(s);
      SenderStepFits(w, FillWindow(s), m, n);
    case SendAck => SendEmptyGood(s); SenderStepFits(w, SendEmpty(s), m, m);
    case Tick(ms) => TickGood(s, ms); TickLoaded(s, ms, m); SenderStepFits(w, Senders.Tick(s, ms), m, m);
  }

  lemma NextFits(w: World, a: Action, m: nat) returns (n: nat)
    requires Sane(w) && SynFits(w, m) && Possible(w, a)
    ensures SynFits(Next(w, a), n)
  {
    n := m;
    match a
    case Transmit(dress) => TransmitFits(w, dress, m);
    case Deliver(seg) => DeliverFits(w, seg, m);
    case DeliverDamaged(seg, at, value) => DamagedIsDropped(w, seg, at, value);
    case AppRead(_) =>
    case Acknowledge(_) =>
    case DeliverAck(ack) => AckFits(w, ack, m);
    case _ => n := SenderActionFits(w, a, m);
  }

  // ---- one round of recovery ----

  /** A state from which the transfer goes on: sane, with a receiver that can hold something. */
  ghost predicate Live(w: World) {
    Sane(w) && (exists m :: SynFits(w, m)) && w.receiver.reassembler.capacity > 0
  }

  lemma LiveNext(w: World, a: Action)
    requires Live(w) && Possible(w, a)
    ensures Live(Next(w, a))
  {
    var m :| SynFits(w, m);
    NextSane(w, a);
    var n := NextFits(w, a, m);
  }

  lemma {:induction false} LiveRun(w: World, actions: seq<Action>, w': World)
    requires Live(w) && Reaches(w, actions, w')
    ensures Live(w')
    decreases actions
  {
    if actions != [] {
      LiveNext(w, actions[0]);
      LiveRun(Next(w, actions[0]), actions[1..], w');
    }
  }

  /** An action in which the receiver gives no other ackno and window than its own of the moment, and the
      sender hears no other. */
  predicate OwnPossible(w: World, a: Action) {
    && Possible(w, a)
    && (a.Acknowledge? ==> a.window == Advertised(w.receiver))
    && (a.DeliverAck? ==> w.receiver.ack == Some(a.ack.ackno) && a.ack.window == Advertised(w.receiver))
  }

  /** w' is the state after a run from w in which every acknowledgment is the receiver's own. */
  ghost predicate Recovers(w: World, actions: seq<Action>, w': World)
    requires Sorted(w.receiver.reassembler.pieces)
    decreases actions
  {
    if actions == [] then w == w'
    else OwnPossible(w, actions[0]) && Recovers(Next(w, actions[0]), actions[1..], w')
  }

  lemma {:induction false} RecoversReaches(w: World, actions: seq<Action>, w': World)
    requires Sorted(w.receiver.reassembler.pieces) && Recovers(w, actions, w')
    ensures Reaches(w, actions, w')
    decreases actions
  {
    if actions != [] { RecoversReaches(Next(w, actions[0]), actions[1..], w'); }
  }

  lemma {:induction false} RecoversThen(w: World, actions: seq<Action>, v: World, a: Action)
    requires Sorted(w.receiver.reassembler.pieces) && Sorted(v.receiver.reassembler.pieces)
    requires Recovers(w, actions, v) && OwnPossible(v, a)
    ensures Recovers(w, actions + [a], Next(v, a))
    decreases actions
  {
    if actions == [] {
      assert ([] + [a])[1..] == [];
    } else {
      RecoversThen(Next(w, actions[0]), actions[1..], v, a);
      assert (actions + [a])[1..] == actions[1..] + [a];
    }
  }

  // some such run leads from w to w', where the transfer goes on
  ghost predicate Leads(w: World, w': World) {
    && Sorted(w.receiver.reassembler.pieces) && Live(w')
    && exists actions :: Recovers(w, actions, w')
  }

  lemma LeadsNext(w: World, v: World, a: Action)
    requires Leads(w, v) && OwnPossible(v, a)
    ensures Leads(w, Next(v, a))
  {
    var actions :| Recovers(w, actions, v);
    RecoversThen(w, actions, v, a);
    LiveNext(v, a);
  }

  /** Everything queued can be put on the wire. */
  lemma {:induction false} Drain(start: World, w: World, dress: TCPHeader) returns (w': World)
    requires Leads(start, w)
    ensures Leads(start, w')
    ensures w' == w.(wire := w'.wire, sender := w.sender.(segmentsOut := []))
    ensures w.wire <= w'.wire
    ensures forall i :: 0 <= i < |w.sender.segmentsOut| ==> Dressed(w.sender.segmentsOut[i], dress) in w'.wire
    decreases |w.sender.segmentsOut|
  {
    if w.sender.segmentsOut == [] {
      w' := w;
    } else {
      var v := Next(w, Transmit(dress));
      LeadsNext(start, w, Transmit(dress));
      w' := Drain(start, v, dress);
      forall i | 0 < i < |w.sender.segmentsOut| ensures Dressed(w.sender.segmentsOut[i], dress) in w'.wire {
        assert w.sender.segmentsOut[i] == v.sender.segmentsOut[i - 1];
      }
    }
  }

  /** After filling, something is in flight, or everything including the FIN is acknowledged. */
  lemma FillMoves(w: World)
    requires Live(w) && w.sender.stream.ended
    ensures var s := Next(w, Fill).sender;
            && s.acked == w.sender.acked && s.stream.ended && s.stream.written == w.sender.stream.written
            && (s.acked < s.nextSeqno || s.finSent)
  {
    FillWindowFills(w.sender);
  }

  /** A timeout queues the segment that holds the first unacknowledged number. */
  lemma TimeoutQueues(s: Sender)
    requires Good(s) && s.acked < s.nextSeqno
    ensures var t := Senders.Tick(s, s.rto);
            && t.segmentsOut != [] && t.outstanding != []
            && t.segmentsOut[|t.segmentsOut| - 1] == t.outstanding[0].value
            && t.acked == s.acked && t.stream == s.stream && t.nextSeqno == s.nextSeqno
  {
    TickGood(s, s.rto);
  }

  // the oldest segment in flight, as it is transmitted
  function Oldest(w: World, dress: TCPHeader): TCPSegment
    requires w.sender.outstanding != []
  {
    Dressed(w.sender.outstanding[0].value, dress)
  }

  // ---- completion ----

  /** Everything written is delivered, its end is known, and the sender knows it. */
  ghost predicate Complete(w: World) {
    && w.sender.finSent && w.sender.acked == w.sender.nextSeqno
    && StreamOut(w.receiver).ended && StreamOut(w.receiver).written == w.sender.stream.written
  }

  lemma AllAcknowledged(w: World)
    requires Sane(w) && w.sender.finSent && w.sender.acked == w.sender.nextSeqno
    ensures Complete(w)
  {
    ConfirmedIsSent(w);
    var sent := w.sender.stream.written;
    assert sent[..|sent|] == sent;
  }

  // the oldest segment in flight is on the wire and the receiver has room for it
  ghost predicate Ready(w: World, dress: TCPHeader) {
    Live(w) && OldestOnWire(w, dress) && Size(StreamOut(w.receiver)) == 0
  }

  // nothing new was written, and nothing known was forgotten
  ghost predicate SameTask(w: World, w': World) {
    && w'.sender.stream.written == w.sender.stream.written && w'.sender.stream.ended == w.sender.stream.ended
    && w'.sender.acked >= w.sender.acked
  }

  // the oldest segment in flight is on the wire
  ghost predicate OldestOnWire(w: World, dress: TCPHeader) {
    w.sender.outstanding != [] && Oldest(w, dress) in w.wire
  }

  lemma DrainOldest(start: World, w: World, dress: TCPHeader) returns (w': World)
    requires Leads(start, w) && w.sender.segmentsOut != [] && w.sender.outstanding != []
    requires w.sender.segmentsOut[|w.sender.segmentsOut| - 1] == w.sender.outstanding[0].value
    ensures Leads(start, w') && SameTask(w, w') && OldestOnWire(w', dress)
  {
    w' := Drain(start, w, dress);
    assert Dressed(w.sender.segmentsOut[|w.sender.segmentsOut| - 1], dress) in w'.wire;
  }

  lemma Retransmit(start: World, w: World, dress: TCPHeader) returns (w': World)
    requires Leads(start, w) && w.sender.acked < w.sender.nextSeqno
    ensures Leads(start, w') && SameTask(w, w') && OldestOnWire(w', dress)
  {
    var tick := Action.Tick(w.sender.rto);
    TimeoutQueues(w.sender);
    LeadsNext(start, w, tick);
    w' := DrainOldest(start, Next(w, tick), dress);
  }

  lemma Prepare(start: World, w: World, dress: TCPHeader) returns (w': World)
    requires Leads(start, w) && w.sender.acked < w.sender.nextSeqno
    ensures Leads(start, w') && Ready(w', dress) && SameTask(w, w')
  {
    var u := Retransmit(start, w, dress);
    var read := AppRead(Size(StreamOut(u.receiver)));
    LeadsNext(start, u, read);
    w' := Next(u, read);
  }

  /** The receiver's own acknowledgment, heard at once, tells the sender all that is confirmed. */
  lemma Confirm(start: World, w: World) returns (w': World)
    requires Leads(start, w) && Confirmed(w.receiver) > 0
    ensures Leads(start, w') && SameTask(w, w') && w'.sender.acked == Confirmed(w.receiver)
  {
    var ack := Ack(w.receiver.ack.value, Advertised(w.receiver));
    var v := Next(w, Acknowledge(ack.window));
    LeadsNext(start, w, Acknowledge(ack.window));
    LeadsNext(start, v, DeliverAck(ack));
    w' := Next(v, DeliverAck(ack));
    ConfirmSender(w, ack.window);
  }

  lemma ConfirmSender(w: World, window: uint16)
    requires Sane(w) && Confirmed(w.receiver) > 0
    ensures var t := AckReceived(w.sender, w.receiver.ack.value, window);
            t.acked == Confirmed(w.receiver) >= w.sender.acked && t.stream == w.sender.stream
  {
    ConfirmedIsSent(w);
    UnwrapNear(AbsoluteAck(w.receiver), w.sender.isn, w.sender.nextSeqno);
    AckGood(w.sender, w.receiver.ack.value, window);
  }

  lemma OldestIsGenuine(w: World, dress: TCPHeader, m: nat)
    requires Good(w.sender) && SenderLoaded(w.sender, m) && w.sender.outstanding != []
    ensures var seg, a := Oldest(w, dress), StartOf(w.sender.outstanding[0]);
            && 0 <= a <= w.sender.acked < a + seg.Length()
            && Genuine(seg, a, ConnOf(w.sender)) && Loaded(seg, m) && Shaped(seg)
  {
    assert GenuineEntry(w.sender.outstanding[0], ConnOf(w.sender));
  }

  /** Heard by a receiver with room, a segment that holds number x moves the acknowledgment past x. */
  lemma HeardPast(r: Receiver, c: Conn, seg: TCPSegment, a: nat, x: nat, m: nat)
    requires Tracks(r, c) && Genuine(seg, a, c) && Unmistakable(r, seg, a) && Loaded(seg, m) && Shaped(seg)
    requires r.reassembler.capacity > 0 && Size(StreamOut(r)) == 0
    requires a <= x < a + seg.Length() && x <= Confirmed(r)
    requires r.ack.Some? ==> AbsoluteAck(r) >= 1 + m
    ensures Confirmed(SegmentReceived(r, seg)) > x
  {
    SegmentTracks(r, c, seg, a);
    if Confirmed(r) == x { SegmentAdvances(r, c, seg, a); }
  }

  /** Delivered to a receiver with room, the oldest segment in flight moves the acknowledgment past
      what the sender knows. */
  lemma OldestArrives(w: World, dress: TCPHeader)
    requires Ready(w, dress)
    ensures Confirmed(Arrive(w, Image(Oldest(w, dress), w.pseudo)).receiver) > w.sender.acked
  {
    var m :| SynFits(w, m);
    var c, a := ConnOf(w.sender), StartOf(w.sender.outstanding[0]);
    OldestIsGenuine(w, dress, m);
    var got := ArriveIsReceive(w, Oldest(w, dress), c, a);
    AllUnmistakable(w, got, a);
    HeardPast(w.receiver, c, got, a, w.sender.acked, m);
  }

  lemma Advancing(start: World, w: World, dress: TCPHeader) returns (w': World)
    requires Leads(start, w) && Ready(w, dress)
    ensures Leads(start, w') && SameTask(w, w') && w'.sender.acked > w.sender.acked
  {
    var deliver := Deliver(Oldest(w, dress));
    OldestArrives(w, dress);
    LeadsNext(start, w, deliver);
    w' := Confirm(start, Next(w, deliver));
  }

  /** Fill, time out, transmit, make room, deliver, acknowledge: a round completes the transfer or
      gets strictly more of it acknowledged. */
  lemma Round(start: World, w: World, dress: TCPHeader) returns (w': World)
    requires Leads(start, w) && w.sender.stream.ended
    ensures Leads(start, w') && SameTask(w, w')
    ensures Complete(w') || w'.sender.acked > w.sender.acked
  {
    w' := Next(w, Fill);
    LeadsNext(start, w, Fill);
    FillMoves(w);
    if w'.sender.acked == w'.sender.nextSeqno {
      AllAcknowledged(w');
    } else {
      w' := Prepare(start, w', dress);
      w' := Advancing(start, w', dress);
    }
  }

  lemma {:induction false} Finish(start: World, w: World, dress: TCPHeader) returns (w': World)
    requires Leads(start, w) && w.sender.stream.ended
    ensures Leads(start, w') && SameTask(w, w') && Complete(w')
    decreases |w.sender.stream.written| + 2 - w.sender.acked
  {
    w' := Round(start, w, dress);
    if !Complete(w') { w' := Finish(start, w', dress); }
  }

  /** From every reachable state, whatever the network did, the transfer of what was written can be
      completed: delivered whole, ended, and acknowledged, by acknowledgments that carry the receiver's
      own ackno and window and no other. The receiver must be able to hold a byte; `dress` is whatever
      the owner of the sender fills into the remaining header fields. */
  lemma NoDeadEnd(sendCapacity: nat, receiveCapacity: nat, retxTimeout: uint16, isn: uint32, pseudo: uint32,
                  past: seq<Action>, w: World, dress: TCPHeader)
    returns (future: seq<Action>, w': World)
    requires 0 < receiveCapacity < TWO64 - TWO32
    requires Reaches(Begin(sendCapacity, receiveCapacity, retxTimeout, isn, pseudo), past, w)
    ensures Sorted(w.receiver.reassembler.pieces) && Recovers(w, future, w') && Reaches(w, future, w')
    ensures w'.sender.stream.written == w.sender.stream.written
    ensures Complete(w')
  {
    var start := Begin(sendCapacity, receiveCapacity, retxTimeout, isn, pseudo);
    BeginSane(sendCapacity, receiveCapacity, retxTimeout, isn, pseudo);
    assert SynFits(start, 0);
    LiveRun(start, past, w);
    assert Recovers(w, [], w);
    LeadsNext(w, w, AppEnd);
    w' := Finish(w, Next(w, AppEnd), dress);
    future :| Recovers(w, future, w');
    RecoversReaches(w, future, w');
  }
}
