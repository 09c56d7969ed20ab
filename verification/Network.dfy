/** A sender and a receiver joined by a network that may lose, repeat, reorder and damage datagrams:
    every segment ever transmitted and every acknowledgment ever given stays available for delivery,
    any number of times, at any later moment, or never. What is delivered of a segment is its wire
    image, which the receiving side parses. */
module Network {
  import opened FixedWidth
  import opened WrappingIntegers
  import opened OrderedMaps
  import opened ByteStreams
  import opened Segments
  import opened SegmentCodec
  import opened Reassembly
  import opened ReassemblyRefinement
  import opened Connections
  import opened Senders
  import opened SenderInvariants
  import opened Receivers
  import opened ReceiverInvariants

  datatype Ack = Ack(ackno: uint32, window: uint16)

  datatype World = World(
    sender: Sender,
    receiver: Receiver,
    wire: set<TCPSegment>,
    acks: set<Ack>,
    pseudo: uint32)

  datatype Action =
    | AppWrite(data: seq<byte>)
    | AppEnd
    | Fill
    | SendAck
    | Tick(ms: nat)
    | Transmit(dress: TCPHeader)
    | Deliver(seg: TCPSegment)
    | DeliverDamaged(seg: TCPSegment, at: nat, value: byte)
    | AppRead(len: nat)
    | Acknowledge(window: uint16)
    | DeliverAck(ack: Ack)

  function Begin(sendCapacity: nat, receiveCapacity: nat, retxTimeout: uint16, isn: uint32, pseudo: uint32): World {
    World(Senders.Initial(sendCapacity, retxTimeout, isn), Listening(receiveCapacity), {}, {}, pseudo)
  }

  // the fields that the owner of the sender fills in before a segment leaves
  function Dressed(seg: TCPSegment, dress: TCPHeader): TCPSegment {
    var h := seg.header;
    seg.(header := dress.(seqno := h.seqno, doff := h.doff, syn := h.syn, fin := h.fin))
  }

  // the bytes that travel; serializing a header that is too short throws, and nothing travels
  function Image(seg: TCPSegment, pseudo: uint32): seq<byte> {
    match Serialize(seg, pseudo) case Some(bytes) => bytes case None => []
  }

  // what the receiver has to advertise, in the sixteen bits of the header
  function Advertised(r: Receiver): uint16 { Min(0xffff, WindowSize(r)) }

  function Arrive(w: World, bytes: seq<byte>): (w': World)
    requires Sorted(w.receiver.reassembler.pieces)
    ensures w' == w.(receiver := w'.receiver)
    ensures Sorted(w'.receiver.reassembler.pieces)
    ensures w'.receiver.reassembler.capacity == w.receiver.reassembler.capacity
  {
    var parsed := ParseSegment(TCPSegment(DefaultHeader(), []), bytes, w.pseudo);
    if parsed.result.NoError? then w.(receiver := SegmentReceived(w.receiver, parsed.segment)) else w
  }

  /** How long a stream may get while a copy of any of its segments may still turn up: less than one
      turn of the sequence numbers, window included, or half a turn whatever the window. */
  predicate Unambiguous(length: nat, capacity: nat) {
    length + 2 < TWO32 && (length < TWO31 || length + capacity <= TWO32)
  }

  /** The writer stops at the end of its input, and the stream stays short enough for sequence numbers
      to be unambiguous; everything else is up to the applications and the network. */
  predicate Possible(w: World, a: Action) {
    match a
    case AppWrite(data) =>
      && !w.sender.stream.ended
      && Unambiguous(|WriteIn(w.sender, data).stream.written|, w.receiver.reassembler.capacity)
    case Transmit(_) => w.sender.segmentsOut != []
    case Deliver(seg) => seg in w.wire
    case DeliverDamaged(seg, at, value) =>
      seg in w.wire && at < |Image(seg, w.pseudo)| && Image(seg, w.pseudo)[at] != value
    case Acknowledge(_) => w.receiver.ack.Some?
    case DeliverAck(ack) => ack in w.acks
    case _ => true
  }

  function Next(w: World, a: Action): (w': World)
    requires Sorted(w.receiver.reassembler.pieces) && Possible(w, a)
    ensures Sorted(w'.receiver.reassembler.pieces)
    ensures w'.receiver.reassembler.capacity == w.receiver.reassembler.capacity
  {
    match a
    case AppWrite(data) => w.(sender := WriteIn(w.sender, data))
    case AppEnd => w.(sender := EndIn(w.sender))
    case Fill => w.(sender := FillWindow(w.sender))
    case SendAck => w.(sender := SendEmpty(w.sender))
    case Tick(ms) => w.(sender := Senders.Tick(w.sender, ms))
    case Transmit(dress) =>
      w.(wire := w.wire + {Dressed(w.sender.segmentsOut[0], dress)}, sender := Dequeue(w.sender))
    case Deliver(seg) => Arrive(w, Image(seg, w.pseudo))
    case DeliverDamaged(seg, at, value) => Arrive(w, Image(seg, w.pseudo)[at := value])
    case AppRead(len) => w.(receiver := ReadOut(w.receiver, len))
    case Acknowledge(window) => w.(acks := w.acks + {Ack(w.receiver.ack.value, window)})
    case DeliverAck(ack) => w.(sender := AckReceived(w.sender, ack.ackno, ack.window))
  }

  // ---- the invariant ----

  ghost predicate WireTrue(w: World) {
    forall seg :: seg in w.wire ==> SomeGenuine(seg, ConnOf(w.sender)) && Shaped(seg)
  }

  // the acknowledgment was once the receiver's
  ghost predicate GivenAck(ackno: uint32, isn: uint32, limit: nat) {
    exists v: nat :: v <= limit && ackno == Wrap(v, isn)
  }

  // how far the receiver has acknowledged anything, in absolute numbers
  function Confirmed(r: Receiver): nat {
    if r.ack.Some? then AbsoluteAck(r) else 0
  }

  ghost predicate AcksTrue(w: World) {
    forall ack :: ack in w.acks ==> GivenAck(ack.ackno, w.sender.isn, Confirmed(w.receiver))
  }

  ghost predicate Sane(w: World) {
    && Good(w.sender)
    && Tracks(w.receiver, ConnOf(w.sender))
    && Unambiguous(|w.sender.stream.written|, w.receiver.reassembler.capacity)
    && w.receiver.reassembler.capacity < TWO64 - TWO32
    && WireTrue(w) && AcksTrue(w)
    && w.sender.acked <= Confirmed(w.receiver)
  }

  lemma BeginSane(sendCapacity: nat, receiveCapacity: nat, retxTimeout: uint16, isn: uint32, pseudo: uint32)
    requires receiveCapacity < TWO64 - TWO32
    ensures Sane(Begin(sendCapacity, receiveCapacity, retxTimeout, isn, pseudo))
  {
    InitialGood(sendCapacity, retxTimeout, isn);
    ListeningTracks(receiveCapacity, ConnOf(Senders.Initial(sendCapacity, retxTimeout, isn)));
  }

  /** The receiver never acknowledges what was not sent. */
  lemma ConfirmedIsSent(w: World)
    requires Sane(w)
    ensures Confirmed(w.receiver) <= w.sender.nextSeqno < TWO32
  {
  }

  // ---- steps of the sender's side ----

  lemma SenderStepSane(w: World, s: Sender)
    requires Sane(w) && Good(s) && Extends(ConnOf(w.sender), ConnOf(s))
    requires Unambiguous(|s.stream.written|, w.receiver.reassembler.capacity) && s.acked <= Confirmed(w.receiver)
    ensures Sane(w.(sender := s))
  {
    var c, d := ConnOf(w.sender), ConnOf(s);
    TracksExtends(w.receiver, c, d);
    forall seg | seg in w.wire ensures SomeGenuine(seg, d) {
      var a: nat :| Genuine(seg, a, c);
      GenuineExtends(seg, a, c, d);
    }
  }

  lemma QueuedIsGenuine(s: Sender, dress: TCPHeader, c: Conn)
    requires AllGenuine(s.outstanding, s.segmentsOut, c) && s.segmentsOut != []
    ensures SomeGenuine(Dressed(s.segmentsOut[0], dress), c) && Shaped(Dressed(s.segmentsOut[0], dress))
  {
    assert SomeGenuine(s.segmentsOut[0], c);
    var a: nat :| Genuine(s.segmentsOut[0], a, c);
    assert Genuine(Dressed(s.segmentsOut[0], dress), a, c);
  }

  lemma TransmitSane(w: World, dress: TCPHeader)
    requires Sane(w) && Possible(w, Transmit(dress))
    ensures Sane(Next(w, Transmit(dress)))
  {
    OutsideGood(w.sender, []);
    SenderStepSane(w, Dequeue(w.sender));
    QueuedIsGenuine(w.sender, dress, ConnOf(w.sender));
  }

  lemma DeliverAckSane(w: World, ack: Ack)
    requires Sane(w) && ack in w.acks
    ensures Sane(Next(w, DeliverAck(ack)))
  {
    var s := w.sender;
    var v: nat :| v <= Confirmed(w.receiver) && ack.ackno == Wrap(v, s.isn);
    ConfirmedIsSent(w);
    if v >= s.nextSeqno - TWO31 { UnwrapNear(v, s.isn, s.nextSeqno); } else { UnwrapOld(v, s.isn, s.nextSeqno); }
    AckGood(s, ack.ackno, ack.window);
    SenderStepSane(w, AckReceived(s, ack.ackno, ack.window));
  }

  // ---- steps of the receiver's side ----

  lemma ReceiverStepSane(w: World, r: Receiver)
    requires Sane(w) && Tracks(r, ConnOf(w.sender)) && r.reassembler.capacity == w.receiver.reassembler.capacity
    requires Confirmed(w.receiver) <= Confirmed(r)
    ensures Sane(w.(receiver := r))
  {
    forall ack | ack in w.acks ensures GivenAck(ack.ackno, w.sender.isn, Confirmed(r)) {
      var v: nat :| v <= Confirmed(w.receiver) && ack.ackno == Wrap(v, w.sender.isn);
    }
  }

  /** The image of a genuine segment arrives as that segment, with its checksum filled in. */
  lemma ArriveIsReceive(w: World, seg: TCPSegment, c: Conn, a: nat) returns (got: TCPSegment)
    requires Sorted(w.receiver.reassembler.pieces) && Genuine(seg, a, c) && 5 <= seg.header.doff <= 15
    ensures got.payload == seg.payload && got.header == seg.header.(cksum := got.header.cksum)
    ensures Genuine(got, a, c)
    ensures Arrive(w, Image(seg, w.pseudo)) == w.(receiver := SegmentReceived(w.receiver, got))
  {
    got := Checksummed(seg, w.pseudo);
    SegmentRoundTrip(seg, TCPSegment(DefaultHeader(), []), w.pseudo);
  }

  /** An unambiguous stream has only unmistakable segments. */
  lemma AllUnmistakable(w: World, seg: TCPSegment, a: nat)
    requires Sane(w) && Genuine(seg, a, ConnOf(w.sender))
    ensures Unmistakable(w.receiver, seg, a)
  {
    ConfirmedIsSent(w);
  }

  lemma HeardSane(w: World, seg: TCPSegment, a: nat)
    requires Sane(w) && Genuine(seg, a, ConnOf(w.sender))
    ensures var r := SegmentReceived(w.receiver, seg); Sane(w.(receiver := r)) && Progress(w.receiver, r)
  {
    AllUnmistakable(w, seg, a);
    SegmentTracks(w.receiver, ConnOf(w.sender), seg, a);
    ReceiverStepSane(w, SegmentReceived(w.receiver, seg));
  }

  lemma DeliverSane(w: World, seg: TCPSegment)
    requires Sane(w) && seg in w.wire
    ensures Sane(Next(w, Deliver(seg))) && Progress(w.receiver, Next(w, Deliver(seg)).receiver)
  {
    var a: nat :| Genuine(seg, a, ConnOf(w.sender));
    var got := ArriveIsReceive(w, seg, ConnOf(w.sender), a);
    HeardSane(w, got, a);
  }

  /** A datagram with one damaged byte is dropped. */
  lemma DamagedIsDropped(w: World, seg: TCPSegment, at: nat, value: byte)
    requires Sorted(w.receiver.reassembler.pieces) && WireTrue(w) && Possible(w, DeliverDamaged(seg, at, value))
    ensures Next(w, DeliverDamaged(seg, at, value)) == w
  {
    var a: nat :| Genuine(seg, a, ConnOf(w.sender));
    CorruptionRejected(seg, TCPSegment(DefaultHeader(), []), w.pseudo, at, value);
  }

  lemma AcknowledgeSane(w: World, window: uint16)
    requires Sane(w) && w.receiver.ack.Some?
    ensures Sane(Next(w, Acknowledge(window)))
  {
    assert GivenAck(w.receiver.ack.value, w.sender.isn, Confirmed(w.receiver));
  }

  lemma SenderActionSane(w: World, a: Action)
    requires Sane(w) && Possible(w, a)
    requires a.AppWrite? || a.AppEnd? || a.Fill? || a.SendAck? || a.Tick?
    ensures Sane(Next(w, a))
  {
    var s := w.sender;
    match a
    case AppWrite(data) => OutsideGood(s, data); SenderStepSane(w, WriteIn(s, data));
    case AppEnd => OutsideGood(s, []); SenderStepSane(w, EndIn(s));
    case Fill => FillWindowGood(s); FillWindowFills(s); SenderStepSane(w, FillWindow(s));
    case SendAck => SendEmptyGood(s); SenderStepSane(w, SendEmpty(s));
    case Tick(ms) => TickGood(s, ms); SenderStepSane(w, Senders.Tick(s, ms));
  }

  lemma ReadSane(w: World, len: nat)
    requires Sane(w)
    ensures Sane(Next(w, AppRead(len)))
  {
    ReadOutTracks(w.receiver, ConnOf(w.sender), len);
    ReceiverStepSane(w, ReadOut(w.receiver, len));
  }

  /** Every action keeps the invariant. */
  lemma NextSane(w: World, a: Action)
    requires Sane(w) && Possible(w, a)
    ensures Sane(Next(w, a))
  {
    match a
    case Transmit(dress) => TransmitSane(w, dress);
    case Deliver(seg) => DeliverSane(w, seg);
    case DeliverDamaged(seg, at, value) => DamagedIsDropped(w, seg, at, value);
    case AppRead(len) => ReadSane(w, len);
    case Acknowledge(window) => AcknowledgeSane(w, window);
    case DeliverAck(ack) => DeliverAckSane(w, ack);
    case _ => SenderActionSane(w, a);
  }

  ghost predicate Grows(w: World, w': World) {
    && Extends(ConnOf(w.sender), ConnOf(w'.sender)) && w.sender.acked <= w'.sender.acked
    && w.sender.stream.written <= w'.sender.stream.written
    && StreamOut(w.receiver).written <= StreamOut(w'.receiver).written
  }

  lemma TickGrows(w: World, ms: nat)
    requires Good(w.sender) && Sorted(w.receiver.reassembler.pieces)
    ensures Grows(w, Next(w, Tick(ms)))
  {
    TickGood(w.sender, ms);
  }

  lemma AckGrows(w: World, ack: Ack)
    requires Good(w.sender) && Sorted(w.receiver.reassembler.pieces) && ack in w.acks
    ensures Grows(w, Next(w, DeliverAck(ack)))
  {
    AckGood(w.sender, ack.ackno, ack.window);
  }

  lemma FillGrows(w: World)
    requires Good(w.sender) && Sorted(w.receiver.reassembler.pieces)
    ensures Grows(w, Next(w, Fill))
  {
    FillWindowGood(w.sender);
    FillWindowFills(w.sender);
  }

  lemma SenderGrows(w: World, a: Action)
    requires Good(w.sender) && Sorted(w.receiver.reassembler.pieces) && Possible(w, a)
    requires !a.Deliver? && !a.DeliverDamaged?
    ensures Grows(w, Next(w, a))
  {
    match a
    case AppWrite(data) => OutsideGood(w.sender, data);
    case Fill => FillGrows(w);
    case Tick(ms) => TickGrows(w, ms);
    case DeliverAck(ack) => AckGrows(w, ack);
    case _ =>
  }

  /** What was written, sent, delivered and acknowledged only grows. */
  lemma NextGrows(w: World, a: Action)
    requires Sane(w) && Possible(w, a)
    ensures Grows(w, Next(w, a))
  {
    match a
    case Deliver(seg) => DeliverSane(w, seg);
    case DeliverDamaged(seg, at, value) => DamagedIsDropped(w, seg, at, value);
    case _ => SenderGrows(w, a);
  }

  /** w' is the state after a run of possible actions from w. */
  ghost predicate Reaches(w: World, actions: seq<Action>, w': World)
    requires Sorted(w.receiver.reassembler.pieces)
    decreases actions
  {
    if actions == [] then w == w'
    else Possible(w, actions[0]) && Reaches(Next(w, actions[0]), actions[1..], w')
  }

  lemma {:induction false} RunSane(w: World, actions: seq<Action>, w': World)
    requires Sane(w) && Reaches(w, actions, w')
    ensures Sane(w') && Grows(w, w')
    decreases actions
  {
    if actions != [] {
      NextSane(w, actions[0]);
      NextGrows(w, actions[0]);
      RunSane(Next(w, actions[0]), actions[1..], w');
      ExtendsTrans(ConnOf(w.sender), ConnOf(Next(w, actions[0]).sender), ConnOf(w'.sender));
    }
  }

  // ---- what the invariant says ----

  /** Every number between the acknowledged mark and the next one lies in a segment in flight. */
  lemma {:induction false} TilesCover(m: seq<Entry<TCPSegment>>, x: nat) returns (k: nat)
    requires m != [] && Abut(m)
    requires StartOf(m[0]) <= x < m[|m| - 1].key
    ensures k < |m| && StartOf(m[k]) <= x < m[k].key
    decreases m
  {
    if x < m[0].key {
      k := 0;
    } else {
      assert StartOf(m[1]) == m[0].key;
      var rest := m[1..];
      forall i, j | 0 <= i < j < |rest| && j == i + 1 ensures StartOf(rest[j]) == rest[i].key {
        assert StartOf(m[j + 1]) == m[i + 1].key;
      }
      k := TilesCover(rest, x);
      k := k + 1;
    }
  }

  // the segment carries stream byte i
  ghost predicate Carries(e: Entry<TCPSegment>, i: nat, b: byte) {
    exists j :: 0 <= j < |e.value.payload| && StartOf(e) >= 0
                && StreamIndex(e.value, StartOf(e)) + j == i && e.value.payload[j] == b
  }

  ghost predicate Carried(m: seq<Entry<TCPSegment>>, i: nat, b: byte) {
    exists k :: 0 <= k < |m| && Carries(m[k], i, b)
  }

  lemma EntryCarries(e: Entry<TCPSegment>, c: Conn, i: nat)
    requires GenuineEntry(e, c) && StartOf(e) <= i + 1 < e.key && i < |c.sent|
    ensures Carries(e, i, c.sent[i])
  {
    var at := StreamIndex(e.value, StartOf(e));
    assert at <= i < at + |e.value.payload|;
    assert e.value.payload[i - at] == c.sent[i];
  }

  /** In a sane state no byte is forgotten: what was taken from the sender's stream is assembled at the
      receiver, or still inside a segment that the sender will retransmit. */
  lemma NothingForgotten(w: World, i: nat)
    requires Sane(w) && i < w.sender.stream.read
    ensures var m, b := w.sender.outstanding, w.sender.stream.written[i];
            || (i < |StreamOut(w.receiver).written| && StreamOut(w.receiver).written[i] == b)
            || Carried(m, i, b)
  {
    var s, c := w.sender, ConnOf(w.sender);
    if i >= w.receiver.reassembler.writePtr {
      assert s.acked <= i + 1 < s.nextSeqno;
      var k := TilesCover(s.outstanding, i + 1);
      EntryCarries(s.outstanding[k], c, i);
    }
  }

  /** End to end. In every state of every run, over a network that loses, repeats, reorders and damages:
      the bytes delivered are a prefix of the bytes written; if the receiver's input has ended they are
      all of them, and the writer had ended; the sender never counts as acknowledged what the receiver
      does not have, and the receiver never has what was not sent. */
  lemma EndToEnd(sendCapacity: nat, receiveCapacity: nat, retxTimeout: uint16, isn: uint32, pseudo: uint32,
                 actions: seq<Action>, w: World)
    requires receiveCapacity < TWO64 - TWO32
    requires Reaches(Begin(sendCapacity, receiveCapacity, retxTimeout, isn, pseudo), actions, w)
    ensures StreamOut(w.receiver).written <= w.sender.stream.written
    ensures StreamOut(w.receiver).ended ==>
              StreamOut(w.receiver).written == w.sender.stream.written && w.sender.stream.ended
    ensures w.sender.acked <= Confirmed(w.receiver) <= w.sender.nextSeqno
    ensures Size(StreamOut(w.receiver)) + Unassembled(w.receiver.reassembler) <= w.receiver.reassembler.capacity
    ensures 0 <= BytesInFlight(w.sender) <= MAX_IN_FLIGHT
    ensures forall i: nat :: i < w.sender.stream.read ==>
                               || i < |StreamOut(w.receiver).written|
                               || Carried(w.sender.outstanding, i, w.sender.stream.written[i])
  {
    BeginSane(sendCapacity, receiveCapacity, retxTimeout, isn, pseudo);
    RunSane(Begin(sendCapacity, receiveCapacity, retxTimeout, isn, pseudo), actions, w);
    ConfirmedIsSent(w);
    WithinCapacity(w.receiver.reassembler);
    forall i: nat | i < w.sender.stream.read
      ensures || i < |StreamOut(w.receiver).written|
              || Carried(w.sender.outstanding, i, w.sender.stream.written[i])
    {
      NothingForgotten(w, i);
    }
  }
}
