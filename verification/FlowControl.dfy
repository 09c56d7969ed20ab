/** Flow control across the network: what the sender sends, the receiver has room for. */
module FlowControl {
  import opened FixedWidth
  import opened WrappingIntegers
  import opened OrderedMaps
  import opened ByteStreams
  import opened Segments
  import opened Reassembly
  import opened Connections
  import opened Senders
  import opened SenderInvariants
  import opened Receivers
  import opened ReceiverInvariants
  import opened Network
  import Recovery

  // the receiver gives no window larger than its own
  predicate Honest(w: World, a: Action) {
    a.Acknowledge? ==> a.window <= WindowSize(w.receiver)
  }

  // the sender hears no acknowledgment after a later one
  predicate InOrder(w: World, a: Action) {
    a.DeliverAck? ==> Unwrap(a.ack.ackno, w.sender.isn, w.sender.nextSeqno) >= w.sender.acked
  }

  /** w' is the state after a run from w with honest windows and, if `ordered`, with no acknowledgment
      delivered after a later one; segments are lost, repeated and reordered as ever. */
  ghost predicate Runs(w: World, actions: seq<Action>, w': World, ordered: bool)
    requires Sorted(w.receiver.reassembler.pieces)
    decreases actions
  {
    if actions == [] then w == w'
    else
      && Possible(w, actions[0]) && Honest(w, actions[0]) && (ordered ==> InOrder(w, actions[0]))
      && Runs(Next(w, actions[0]), actions[1..], w', ordered)
  }

  // the receiver's right edge in absolute sequence numbers: past the SYN, and past the FIN once heard
  function Edge(r: Receiver): nat {
    RightEdge(r.reassembler) + 1 + AsNat(StreamOut(r).ended)
  }

  // a zero window was heard and everything up to the edge is acknowledged, so the window is zero still
  predicate Shut(w: World) {
    w.sender.windowZero && w.sender.acked == Edge(w.receiver)
  }

  // the acknowledgment was once the receiver's, and what it allows is still allowed
  ghost predicate Promised(ack: Ack, isn: uint32, limit: nat, edge: nat) {
    exists v: nat :: v <= limit && ack.ackno == Wrap(v, isn) && v + ack.window <= edge
  }

  ghost predicate AllPromised(w: World) {
    && (forall ack :: ack in w.acks ==> Promised(ack, w.sender.isn, Confirmed(w.receiver), Edge(w.receiver)))
    && (w.acks != {} ==> w.receiver.ack.Some?)
  }

  /** What the sender's window lets it send is within the receiver's right edge, but for one number past
      a window that is shut. */
  predicate MaySend(w: World) {
    w.sender.acked + w.sender.window <= Edge(w.receiver) || (w.sender.window == 1 && Shut(w))
  }

  /** So is what it has sent; a receiver without capacity is sent a byte with the SYN. */
  predicate HasSent(w: World) {
    || w.sender.nextSeqno <= Edge(w.receiver)
    || (w.sender.nextSeqno == Edge(w.receiver) + 1 && (Shut(w) || w.receiver.reassembler.capacity == 0))
  }

  predicate Bounded(w: World) { MaySend(w) && HasSent(w) }

  ghost predicate Flows(w: World) {
    && AllPromised(w) && Bounded(w)
    && (w.sender.nextSeqno == 0 ==> w.sender.window == 1)
  }

  // ---- the sender's side ----

  lemma SenderFlows(w: World, s: Sender)
    requires Flows(w) && s.isn == w.sender.isn && s.acked == w.sender.acked && s.window == w.sender.window
    requires s.windowZero == w.sender.windowZero && w.sender.nextSeqno <= s.nextSeqno
    requires HasSent(w.(sender := s))
    ensures Flows(w.(sender := s))
  {
  }

  lemma FillKeeps(s: Sender)
    ensures var t := FillWindow(s);
            && t.isn == s.isn && t.acked == s.acked && t.window == s.window && t.windowZero == s.windowZero
            && t.stream == s.stream.(read := t.stream.read)
  {
    FillLoopFrame(s, s.acked + s.window);
  }

  /** Filling goes to the end of the window, and for the SYN one past it, where there is room for a byte. */
  lemma FillFlows(w: World)
    requires Sane(w) && Flows(w)
    ensures Flows(Next(w, Fill))
  {
    FillWindowFills(w.sender);
    FillKeeps(w.sender);
    SenderFlows(w, FillWindow(w.sender));
  }

  lemma SenderActionFlows(w: World, a: Action)
    requires Sane(w) && Flows(w) && Possible(w, a)
    requires a.AppWrite? || a.AppEnd? || a.SendAck? || a.Tick? || a.Transmit?
    ensures Flows(Next(w, a))
  {
    SenderFlows(w, Next(w, a).sender);
  }

  /** The number that an acknowledgment of the receiver stands for; too old a one is ignored. */
  lemma AckMeans(w: World, ack: Ack, v: nat)
    requires Sane(w) && v <= Confirmed(w.receiver) && ack.ackno == Wrap(v, w.sender.isn)
    ensures var u := Unwrap(ack.ackno, w.sender.isn, w.sender.nextSeqno); u == v || u > w.sender.nextSeqno
  {
    var s := w.sender;
    ConfirmedIsSent(w);
    if v >= s.nextSeqno - TWO31 { UnwrapNear(v, s.isn, s.nextSeqno); } else { UnwrapOld(v, s.isn, s.nextSeqno); }
  }

  // what the sender makes of an acknowledgment that is not ignored
  lemma AckOpens(s: Sender, ack: Ack)
    requires Good(s) && Unwrap(ack.ackno, s.isn, s.nextSeqno) <= s.nextSeqno
    ensures var t, u := AckReceived(s, ack.ackno, ack.window), Unwrap(ack.ackno, s.isn, s.nextSeqno);
            && t.acked == (if u > s.acked then u else s.acked) && t.nextSeqno == s.nextSeqno && t.isn == s.isn
            && t.window == (if ack.window == 0 then 1 else ack.window)
            && t.windowZero == (s.windowZero || ack.window == 0)
  {
  }

  /** Exactly when an acknowledgment keeps the sender within the edge: if it is not overtaken by a later
      one, or opens the window no further than the edge, or by the one number of a shut window. */
  lemma AckBoundedExact(w: World, ack: Ack)
    requires Sane(w) && Flows(w) && ack in w.acks
    ensures Bounded(Next(w, DeliverAck(ack))) <==>
            || InOrder(w, DeliverAck(ack))
            || w.sender.acked + ack.window <= Edge(w.receiver)
            || (ack.window == 1 && Shut(w))
  {
    ConfirmedIsSent(w);
    if Unwrap(ack.ackno, w.sender.isn, w.sender.nextSeqno) <= w.sender.nextSeqno {
      HeededBounded(w, ack);
    }
  }

  lemma HeededBounded(w: World, ack: Ack)
    requires Sane(w) && Flows(w) && ack in w.acks
    requires Unwrap(ack.ackno, w.sender.isn, w.sender.nextSeqno) <= w.sender.nextSeqno
    ensures Bounded(Next(w, DeliverAck(ack))) <==>
            || InOrder(w, DeliverAck(ack))
            || w.sender.acked + ack.window <= Edge(w.receiver)
            || (ack.window == 1 && Shut(w))
  {
    var limit, edge := Confirmed(w.receiver), Edge(w.receiver);
    var v: nat :| v <= limit && ack.ackno == Wrap(v, w.sender.isn) && v + ack.window <= edge;
    AckMeans(w, ack, v);
    AckOpens(w.sender, ack);
    WithinEdge(w);
  }

  lemma WithinEdge(w: World)
    requires Sane(w)
    ensures w.sender.acked <= Confirmed(w.receiver) <= Edge(w.receiver)
  {
  }

  lemma DeliverAckFlows(w: World, ack: Ack)
    requires Sane(w) && Flows(w) && ack in w.acks && InOrder(w, DeliverAck(ack))
    ensures Flows(Next(w, DeliverAck(ack)))
  {
    ConfirmedIsSent(w);
    AckBoundedExact(w, ack);
    if Unwrap(ack.ackno, w.sender.isn, w.sender.nextSeqno) <= w.sender.nextSeqno { AckOpens(w.sender, ack); }
  }

  // ---- the receiver's side ----

  lemma ReceiverFlows(w: World, r: Receiver)
    requires Flows(w) && r.reassembler.capacity == w.receiver.reassembler.capacity
    requires Confirmed(w.receiver) <= Confirmed(r) && Edge(w.receiver) <= Edge(r)
    requires w.receiver.ack.Some? ==> r.ack.Some?
    ensures Flows(w.(receiver := r))
  {
    forall ack | ack in w.acks ensures Promised(ack, w.sender.isn, Confirmed(r), Edge(r)) {
      var limit, edge := Confirmed(w.receiver), Edge(w.receiver);
      var v: nat :| v <= limit && ack.ackno == Wrap(v, w.sender.isn) && v + ack.window <= edge;
    }
  }

  lemma HeardFlows(w: World, seg: TCPSegment, a: nat)
    requires Sane(w) && Flows(w) && Genuine(seg, a, ConnOf(w.sender))
    ensures Flows(w.(receiver := SegmentReceived(w.receiver, seg)))
  {
    HeardSane(w, seg, a);
    ReceiverFlows(w, SegmentReceived(w.receiver, seg));
  }

  lemma DeliverFlows(w: World, seg: TCPSegment)
    requires Sane(w) && Flows(w) && seg in w.wire
    ensures Flows(Next(w, Deliver(seg)))
  {
    var a: nat :| Genuine(seg, a, ConnOf(w.sender));
    var got := ArriveIsReceive(w, seg, ConnOf(w.sender), a);
    HeardFlows(w, got, a);
  }

  lemma ReadFlows(w: World, len: nat)
    requires Sane(w) && Flows(w)
    ensures Flows(Next(w, AppRead(len)))
  {
    ReceiverFlows(w, ReadOut(w.receiver, len));
  }

  lemma AcknowledgeFlows(w: World, window: uint16)
    requires Sane(w) && Flows(w) && w.receiver.ack.Some? && window <= WindowSize(w.receiver)
    ensures Flows(Next(w, Acknowledge(window)))
  {
    AdvertisedEdge(w.receiver);
    assert Promised(Ack(w.receiver.ack.value, window), w.sender.isn, Confirmed(w.receiver), Edge(w.receiver));
  }

  // ---- all runs ----

  lemma NextFlows(w: World, a: Action)
    requires Sane(w) && Flows(w) && Possible(w, a) && Honest(w, a) && InOrder(w, a)
    ensures Flows(Next(w, a))
  {
    match a
    case Fill => FillFlows(w);
    case Deliver(seg) => DeliverFlows(w, seg);
    case DeliverDamaged(seg, at, value) => DamagedIsDropped(w, seg, at, value);
    case AppRead(len) => ReadFlows(w, len);
    case Acknowledge(window) => AcknowledgeFlows(w, window);
    case DeliverAck(ack) => DeliverAckFlows(w, ack);
    case _ => SenderActionFlows(w, a);
  }

  lemma {:induction false} RunFlows(w: World, actions: seq<Action>, w': World)
    requires Sane(w) && Flows(w) && Runs(w, actions, w', true)
    ensures Sane(w') && Flows(w')
    decreases actions
  {
    if actions != [] {
      NextSane(w, actions[0]);
      NextFlows(w, actions[0]);
      RunFlows(Next(w, actions[0]), actions[1..], w');
    }
  }

  lemma BeginFlows(sendCapacity: nat, receiveCapacity: nat, retxTimeout: uint16, isn: uint32, pseudo: uint32)
    ensures Flows(Begin(sendCapacity, receiveCapacity, retxTimeout, isn, pseudo))
  {
  }

  lemma SentWithin(w: World)
    requires Sane(w) && Flows(w)
    ensures var right := RightEdge(w.receiver.reassembler);
            || w.sender.stream.read <= right
            || (&& w.sender.stream.read == right + 1
                && ((w.sender.windowZero && w.sender.acked == right + 1) || w.receiver.reassembler.capacity == 0))
  {
    assert |ConnOf(w.sender).sent| == w.sender.stream.read;
  }

  /** Over every run with honest windows in which no acknowledgment is overtaken, whatever happens to the
      segments: no byte is sent at or beyond the receiver's right edge, so none is cut off there, but for
      the single byte that probes a zero window, which is sent when everything before it has been
      acknowledged and stays alone in flight; or a byte that goes with the SYN to a receiver without any
      capacity. */
  lemma NoOverrun(sendCapacity: nat, receiveCapacity: nat, retxTimeout: uint16, isn: uint32, pseudo: uint32,
                  actions: seq<Action>, w: World)
    requires receiveCapacity < TWO64 - TWO32
    requires Runs(Begin(sendCapacity, receiveCapacity, retxTimeout, isn, pseudo), actions, w, true)
    ensures var right := RightEdge(w.receiver.reassembler);
            || w.sender.stream.read <= right
            || (&& w.sender.stream.read == right + 1
                && ((w.sender.windowZero && w.sender.acked == right + 1) || receiveCapacity == 0))
    ensures w.sender.nextSeqno > Edge(w.receiver) && receiveCapacity > 0 ==>
              w.sender.windowZero && w.sender.acked == Edge(w.receiver) && BytesInFlight(w.sender) == 1
    ensures w.sender.acked + w.sender.window > Edge(w.receiver) ==>
              w.sender.windowZero && w.sender.acked == Edge(w.receiver) && w.sender.window == 1
  {
    var start := BeginReady(sendCapacity, receiveCapacity, retxTimeout, isn, pseudo);
    NoOverrunFrom(start, actions, w);
  }

  lemma BeginReady(sendCapacity: nat, receiveCapacity: nat, retxTimeout: uint16, isn: uint32, pseudo: uint32)
    returns (start: World)
    requires receiveCapacity < TWO64 - TWO32
    ensures start == Begin(sendCapacity, receiveCapacity, retxTimeout, isn, pseudo)
    ensures Sane(start) && Flows(start) && start.receiver.reassembler.capacity == receiveCapacity
  {
    start := Begin(sendCapacity, receiveCapacity, retxTimeout, isn, pseudo);
    BeginSane(sendCapacity, receiveCapacity, retxTimeout, isn, pseudo);
    BeginFlows(sendCapacity, receiveCapacity, retxTimeout, isn, pseudo);
  }

  lemma NoOverrunFrom(start: World, actions: seq<Action>, w: World)
    requires Sane(start) && Flows(start) && Runs(start, actions, w, true)
    ensures var right := RightEdge(w.receiver.reassembler);
            || w.sender.stream.read <= right
            || (&& w.sender.stream.read == right + 1
                && ((w.sender.windowZero && w.sender.acked == right + 1) || start.receiver.reassembler.capacity == 0))
    ensures w.sender.nextSeqno > Edge(w.receiver) && start.receiver.reassembler.capacity > 0 ==>
              w.sender.windowZero && w.sender.acked == Edge(w.receiver) && BytesInFlight(w.sender) == 1
    ensures w.sender.acked + w.sender.window > Edge(w.receiver) ==>
              w.sender.windowZero && w.sender.acked == Edge(w.receiver) && w.sender.window == 1
  {
    RunFlows(start, actions, w);
    RunCapacity(start, actions, w);
    SentWithin(w);
  }

  lemma {:induction false} RunCapacity(w: World, actions: seq<Action>, w': World)
    requires Sorted(w.receiver.reassembler.pieces) && Runs(w, actions, w', true)
    ensures w'.receiver.reassembler.capacity == w.receiver.reassembler.capacity
    decreases actions
  {
    if actions != [] { RunCapacity(Next(w, actions[0]), actions[1..], w'); }
  }

  // ---- the overrun ----

  lemma {:induction false} RunsThen(w: World, actions: seq<Action>, v: World, a: Action)
    requires Sorted(w.receiver.reassembler.pieces) && Sorted(v.receiver.reassembler.pieces)
    requires Runs(w, actions, v, false) && Possible(v, a) && Honest(v, a)
    ensures Runs(w, actions + [a], Next(v, a), false)
    decreases actions
  {
    if actions == [] {
      assert ([] + [a])[1..] == [];
    } else {
      RunsThen(Next(w, actions[0]), actions[1..], v, a);
      assert (actions + [a])[1..] == actions[1..] + [a];
    }
  }

  // some run with honest windows leads from one state to the other
  ghost predicate Gets(w: World, w': World) {
    && Sorted(w.receiver.reassembler.pieces) && Sorted(w'.receiver.reassembler.pieces)
    && exists actions :: Runs(w, actions, w', false)
  }

  lemma GetsSelf(w: World)
    requires Sorted(w.receiver.reassembler.pieces)
    ensures Gets(w, w)
  {
    assert Runs(w, [], w, false);
  }

  lemma GetsNext(w: World, v: World, a: Action)
    requires Gets(w, v) && Possible(v, a) && Honest(v, a)
    ensures Gets(w, Next(v, a))
  {
    var actions :| Runs(w, actions, v, false);
    RunsThen(w, actions, v, a);
  }

  // nothing has been read, no window was zero, and the writer goes on
  ghost predicate Unread(w: World) {
    && Sane(w) && !w.sender.stream.ended && !w.sender.windowZero && w.sender.stream.capacity == 2
    && w.receiver.reassembler.capacity == 2 && w.receiver.reassembler.output.read == 0
  }

  // all sent is acknowledged, up to number n
  ghost predicate Quiet(w: World, n: nat) {
    && Unread(w) && w.sender.segmentsOut == []
    && w.sender.acked == w.sender.nextSeqno == Confirmed(w.receiver) == n
  }

  // one number is sent and not acknowledged
  ghost predicate Waiting(w: World, n: nat) {
    && Unread(w) && Size(w.sender.stream) == 0
    && w.sender.acked == n && w.sender.nextSeqno == n + 1
  }

  // the segment holds number n and nothing else
  ghost predicate Single(seg: TCPSegment, n: nat, c: Conn) {
    && seg.Length() == 1 && Genuine(seg, n, c) && (seg.header.syn <==> n == 0) && 5 <= seg.header.doff <= 15
  }

  /** A fill with one number to send queues its segment. */
  lemma FillSingle(s: Sender)
    requires Good(s) && !s.stream.ended && s.segmentsOut == [] && s.acked == s.nextSeqno
    requires Size(s.stream) == AsNat(s.nextSeqno > 0) && (s.nextSeqno == 0 ==> s.window == 1)
    ensures var t := FillWindow(s);
            && t.nextSeqno == s.nextSeqno + 1 && Size(t.stream) == 0
            && |t.segmentsOut| == 1 && Single(t.segmentsOut[0], s.nextSeqno, ConnOf(t))
  {
    var end := s.acked + s.window;
    assert |ReadBytes(s.stream, PayloadRoom(s, end))| == AsNat(s.nextSeqno > 0);
    assert NextSegment(s, end).Length() == 1;
    NextSegmentGenuine(s, end);
    SendNextGood(s, end);
    var t := SendNext(s, end);
    if t.nextSeqno < end { DrainedStops(t, end); }
    assert FillLoop(t, end) == t;
  }

  lemma FillStep(w: World, n: nat)
    requires Quiet(w, n) && Size(w.sender.stream) == AsNat(n > 0) && (n == 0 ==> w.sender.window == 1)
    ensures var v := Next(w, Fill);
            && Waiting(v, n) && v == w.(sender := v.sender) && v.sender.isn == w.sender.isn
            && |v.sender.segmentsOut| == 1 && Single(v.sender.segmentsOut[0], n, ConnOf(v.sender))
  {
    FillSingle(w.sender);
    FillKeeps(w.sender);
    NextSane(w, Fill);
  }

  lemma TransmitStep(w: World, n: nat, dress: TCPHeader)
    requires Waiting(w, n) && |w.sender.segmentsOut| == 1
    requires Single(w.sender.segmentsOut[0], n, ConnOf(w.sender))
    ensures var v, seg := Next(w, Transmit(dress)), Dressed(w.sender.segmentsOut[0], dress);
            && Waiting(v, n) && v == w.(sender := v.sender, wire := v.wire) && v.sender.isn == w.sender.isn
            && v.sender.segmentsOut == [] && seg in v.wire && Single(seg, n, ConnOf(v.sender))
  {
    NextSane(w, Transmit(dress));
    OutsideGood(w.sender, []);
  }

  /** Heard by a receiver that lacks just that number, it is taken. */
  lemma HeardSingle(w: World, n: nat, seg: TCPSegment)
    requires Waiting(w, n) && n <= 1 && Confirmed(w.receiver) == n && Single(seg, n, ConnOf(w.sender))
    ensures var v := w.(receiver := SegmentReceived(w.receiver, seg));
            Waiting(v, n) && Confirmed(v.receiver) == n + 1
  {
    HeardSane(w, seg, n);
    Recovery.HeardAdvances(w.receiver, ConnOf(w.sender), seg, n);
    ConfirmedIsSent(w.(receiver := SegmentReceived(w.receiver, seg)));
  }

  lemma OwnWindow(w: World, n: nat)
    requires Waiting(w, n) && Confirmed(w.receiver) == n + 1
    ensures w.receiver.ack == Some(Wrap(n + 1, w.sender.isn)) && WindowSize(w.receiver) == 2 - n
  {
    assert !StreamOut(w.receiver).ended;
  }

  /** The receiver answers with its own window, two bytes less what it holds. */
  lemma GiveStep(w: World, n: nat)
    requires Waiting(w, n) && n <= 1 && Confirmed(w.receiver) == n + 1
    ensures var give := Acknowledge(2 - n);
            && Possible(w, give) && Honest(w, give) && Sane(Next(w, give))
            && Next(w, give) == w.(acks := w.acks + {Ack(Wrap(n + 1, w.sender.isn), 2 - n)})
  {
    OwnWindow(w, n);
    Answered(w, 2 - n, w.receiver.ack.value);
  }

  lemma Answered(w: World, window: uint16, ackno: uint32)
    requires Sane(w) && w.receiver.ack == Some(ackno)
    ensures Sane(Next(w, Acknowledge(window)))
    ensures Next(w, Acknowledge(window)) == w.(acks := w.acks + {Ack(ackno, window)})
  {
    AcknowledgeSane(w, window);
  }

  lemma TakeSender(s: Sender, ack: Ack)
    requires Good(s) && s.acked < s.nextSeqno && ack.ackno == Wrap(s.nextSeqno, s.isn) && ack.window > 0
    requires s.nextSeqno < TWO32
    ensures var t := AckReceived(s, ack.ackno, ack.window);
            && t.acked == t.nextSeqno == s.nextSeqno && t.window == ack.window && t.windowZero == s.windowZero
            && t.stream == s.stream && t.segmentsOut == s.segmentsOut && t.isn == s.isn
  {
    UnwrapNear(s.nextSeqno, s.isn, s.nextSeqno);
    AckOpens(s, ack);
  }

  /** The answer brings the sender up to date. */
  lemma TakeStep(w: World, n: nat, ack: Ack)
    requires Waiting(w, n) && Confirmed(w.receiver) == n + 1 && w.sender.segmentsOut == []
    requires ack in w.acks && ack.ackno == Wrap(n + 1, w.sender.isn) && ack.window > 0
    ensures var v := Next(w, DeliverAck(ack));
            && Quiet(v, n + 1) && v == w.(sender := v.sender) && v.sender.isn == w.sender.isn
            && Size(v.sender.stream) == 0 && v.sender.window == ack.window
  {
    ConfirmedIsSent(w);
    DeliverAckSane(w, ack);
    TakeSender(w.sender, ack);
  }

  /** One number is sent: fill, transmit. */
  lemma Send(start: World, w: World, n: nat, dress: TCPHeader) returns (w': World, seg: TCPSegment)
    requires Gets(start, w) && Quiet(w, n)
    requires Size(w.sender.stream) == AsNat(n > 0) && (n == 0 ==> w.sender.window == 1)
    ensures Gets(start, w') && Waiting(w', n) && w'.receiver == w.receiver
    ensures w'.sender.segmentsOut == [] && w'.sender.isn == w.sender.isn && w'.acks == w.acks
    ensures seg in w'.wire && Single(seg, n, ConnOf(w'.sender))
  {
    FillStep(w, n);
    var v := Next(w, Fill);
    GetsNext(start, w, Fill);
    TransmitStep(v, n, dress);
    GetsNext(start, v, Transmit(dress));
    w', seg := Next(v, Transmit(dress)), Dressed(v.sender.segmentsOut[0], dress);
  }

  /** It is acknowledged, and the acknowledgment heard. */
  lemma Answer(start: World, w: World, n: nat) returns (w': World)
    requires Gets(start, w) && Waiting(w, n) && n <= 1 && Confirmed(w.receiver) == n + 1 && w.sender.segmentsOut == []
    ensures Gets(start, w') && Quiet(w', n + 1) && Size(w'.sender.stream) == 0
    ensures w'.sender.isn == w.sender.isn && w'.acks == w.acks + {Ack(Wrap(n + 1, w.sender.isn), 2 - n)}
  {
    var give, ack := Acknowledge(2 - n), Ack(Wrap(n + 1, w.sender.isn), 2 - n);
    GiveStep(w, n);
    var v := Next(w, give);
    GetsNext(start, w, give);
    TakeStep(v, n, ack);
    GetsNext(start, v, DeliverAck(ack));
    w' := Next(v, DeliverAck(ack));
  }

  lemma Delivered(start: World, w: World, seg: TCPSegment, a: nat, c: Conn) returns (got: TCPSegment)
    requires Gets(start, w) && seg in w.wire && Genuine(seg, a, c) && 5 <= seg.header.doff <= 15
    ensures got.payload == seg.payload && got.header == seg.header.(cksum := got.header.cksum)
    ensures Genuine(got, a, c) && Gets(start, w.(receiver := SegmentReceived(w.receiver, got)))
  {
    got := ArriveIsReceive(w, seg, c, a);
    GetsNext(start, w, Deliver(seg));
  }

  /** One number goes across and is acknowledged. */
  lemma Exchange(start: World, w: World, n: nat) returns (w': World)
    requires Gets(start, w) && Quiet(w, n) && n <= 1
    requires Size(w.sender.stream) == AsNat(n > 0) && (n == 0 ==> w.sender.window == 1)
    ensures Gets(start, w') && Quiet(w', n + 1) && Size(w'.sender.stream) == 0
    ensures w'.sender.isn == w.sender.isn && w'.acks == w.acks + {Ack(Wrap(n + 1, w.sender.isn), 2 - n)}
  {
    var v, seg := Send(start, w, n, DefaultHeader());
    var got := Delivered(start, v, seg, n, ConnOf(v.sender));
    HeardSingle(v, n, got);
    w' := Answer(start, v.(receiver := SegmentReceived(v.receiver, got)), n);
  }

  /** The writer hands over a byte. */
  lemma WriteStep(w: World, n: nat, data: seq<byte>)
    requires Quiet(w, n) && n <= 2 && Size(w.sender.stream) == 0 && |data| <= 2
    ensures Possible(w, AppWrite(data))
    ensures var v := Next(w, AppWrite(data));
            && Quiet(v, n) && v == w.(sender := v.sender) && v.sender.isn == w.sender.isn
            && Size(v.sender.stream) == |data| && v.sender.window == w.sender.window
  {
    NextSane(w, AppWrite(data));
  }

  /** An overtaken acknowledgment opens the window past the edge, and the next fill goes there. */
  lemma OldAckOpens(w: World, ack: Ack)
    requires Quiet(w, 2) && Size(w.sender.stream) == 0
    requires ack in w.acks && ack == Ack(Wrap(1, w.sender.isn), 2)
    ensures var v := Next(w, DeliverAck(ack));
            && Quiet(v, 2) && v == w.(sender := v.sender) && v.sender.isn == w.sender.isn
            && v.sender.window == 2 && v.sender.stream == w.sender.stream
  {
    DeliverAckSane(w, ack);
    UnwrapNear(1, w.sender.isn, 2);
    AckOpens(w.sender, ack);
  }

  lemma FillPast(w: World)
    requires Quiet(w, 2) && w.sender.window == 2 && Size(w.sender.stream) == 2
    ensures Next(w, Fill).sender.stream.read == 3 && Next(w, Fill).receiver == w.receiver
    ensures Next(w, Fill).sender.windowZero == w.sender.windowZero
  {
    FillWindowGood(w.sender);
    FillWindowFills(w.sender);
    FillLoopFrame(w.sender, 4);
  }

  lemma BeginQuiet(isn: uint32, pseudo: uint32)
    ensures var w := Begin(2, 2, 1000, isn, pseudo);
            Quiet(w, 0) && Size(w.sender.stream) == 0 && w.sender.window == 1 && w.sender.isn == isn
  {
    BeginSane(2, 2, 1000, isn, pseudo);
  }

  lemma WriteThen(start: World, w: World, n: nat, data: seq<byte>) returns (w': World)
    requires Gets(start, w) && Quiet(w, n) && n <= 2 && Size(w.sender.stream) == 0 && |data| <= 2
    ensures Gets(start, w') && Quiet(w', n) && Size(w'.sender.stream) == |data|
    ensures w'.sender.isn == w.sender.isn && w'.acks == w.acks && w'.sender.window == w.sender.window
  {
    WriteStep(w, n, data);
    GetsNext(start, w, AppWrite(data));
    w' := Next(w, AppWrite(data));
  }

  // the SYN goes across and is acknowledged
  lemma FirstExchange(start: World) returns (w: World)
    requires Quiet(start, 0) && Size(start.sender.stream) == 0 && start.sender.window == 1
    ensures Gets(start, w) && Quiet(w, 1) && Size(w.sender.stream) == 0
    ensures w.sender.isn == start.sender.isn && Ack(Wrap(1, start.sender.isn), 2) in w.acks
  {
    GetsSelf(start);
    w := Exchange(start, start, 0);
  }

  // then a byte
  lemma SecondExchange(start: World, v: World, data: seq<byte>) returns (w: World)
    requires Gets(start, v) && Quiet(v, 1) && Size(v.sender.stream) == 0 && |data| == 1
    ensures Gets(start, w) && Quiet(w, 2) && Size(w.sender.stream) == 0
    ensures w.sender.isn == v.sender.isn && v.acks <= w.acks
  {
    var u := WriteThen(start, v, 1, data);
    w := Exchange(start, u, 1);
  }

  lemma OverrunFrom(start: World) returns (w: World)
    requires Quiet(start, 0) && Size(start.sender.stream) == 0 && start.sender.window == 1
    ensures Gets(start, w)
    ensures w.sender.stream.read == 3 && RightEdge(w.receiver.reassembler) == 2 && !w.sender.windowZero
  {
    var ack := Ack(Wrap(1, start.sender.isn), 2);
    var first := FirstExchange(start);
    var v := SecondExchange(start, first, [7]);
    OldAckOpens(v, ack);
    GetsNext(start, v, DeliverAck(ack));
    var u := WriteThen(start, Next(v, DeliverAck(ack)), 2, [8, 9]);
    FillPast(u);
    GetsNext(start, u, Fill);
    w := Next(u, Fill);
  }

  /** The guard is needed: with honest windows throughout, an acknowledgment heard after a later one makes
      the sender send a byte that lies beyond the right edge of the receiver. */
  lemma OvertakenAckOverruns(isn: uint32, pseudo: uint32) returns (actions: seq<Action>, w: World)
    ensures Runs(Begin(2, 2, 1000, isn, pseudo), actions, w, false)
    ensures w.sender.stream.read > RightEdge(w.receiver.reassembler) && !w.sender.windowZero
  {
    BeginQuiet(isn, pseudo);
    w := OverrunFrom(Begin(2, 2, 1000, isn, pseudo));
    actions :| Runs(Begin(2, 2, 1000, isn, pseudo), actions, w, false);
  }
}
