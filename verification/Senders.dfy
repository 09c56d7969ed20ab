/** The sliding-window sender with its retransmission timer (libsponge/tcp_sender.cc). */
module Senders {
  import opened FixedWidth
  import opened WrappingIntegers
  import opened OrderedMaps
  import opened ByteStreams
  import opened Segments

  datatype Sender = Sender(
    isn: uint32,
    initialRto: uint16,
    rtoBase: uint32,
    rto: uint32,
    stream: Stream,
    nextSeqno: nat,
    acked: nat,
    window: uint16,
    windowZero: bool,
    finSent: bool,
    running: bool,
    retransmissions: uint32,
    segmentsOut: seq<TCPSegment>,
    outstanding: seq<Entry<TCPSegment>>)  // keyed by the absolute number just past the segment

  function Initial(capacity: nat, retxTimeout: uint16, isn: uint32): Sender {
    Sender(isn, retxTimeout, retxTimeout, retxTimeout, ByteStreams.New(capacity),
           0, 0, 1, false, false, false, 0, [], [])
  }

  function BytesInFlight(s: Sender): int { s.nextSeqno - s.acked }

  // ---- fill_window ----

  function PayloadRoom(s: Sender, end: nat): nat
    requires s.nextSeqno <= end
  {
    Min(MAX_PAYLOAD_SIZE, end - s.nextSeqno)
  }

  // the segment of one iteration before the FIN is considered
  function DataSegment(s: Sender, end: nat): TCPSegment
    requires s.nextSeqno <= end
  {
    TCPSegment(DefaultHeader().(syn := s.nextSeqno == 0, seqno := Wrap(s.nextSeqno, s.isn)),
               ReadBytes(s.stream, PayloadRoom(s, end)))
  }

  predicate TakesFin(s: Sender, end: nat)
    requires s.nextSeqno <= end
  {
    && !s.finSent
    && Eof(Read(s.stream, PayloadRoom(s, end)))
    && s.nextSeqno + DataSegment(s, end).Length() < end
  }

  function NextSegment(s: Sender, end: nat): TCPSegment
    requires s.nextSeqno <= end
  {
    var seg := DataSegment(s, end);
    if TakesFin(s, end) then seg.(header := seg.header.(fin := true)) else seg
  }

  // one iteration that produces a segment
  function SendNext(s: Sender, end: nat): Sender
    requires s.nextSeqno <= end
  {
    var seg := NextSegment(s, end);
    var next := s.nextSeqno + seg.Length();
    s.(stream := Read(s.stream, PayloadRoom(s, end)), finSent := s.finSent || seg.header.fin,
       nextSeqno := next, segmentsOut := s.segmentsOut + [seg], running := true,
       outstanding := Insert(s.outstanding, next, seg))
  }

  function FillLoop(s: Sender, end: nat): Sender
    decreases end - s.nextSeqno
  {
    if s.nextSeqno >= end || NextSegment(s, end).Length() == 0 then s
    else FillLoop(SendNext(s, end), end)
  }

  function FillWindow(s: Sender): Sender {
    if s.finSent then s else FillLoop(s, s.acked + s.window)
  }

  // ---- ack_received ----

  function DropAcked(m: seq<Entry<TCPSegment>>, acked: nat): seq<Entry<TCPSegment>> {
    if m == [] then []
    else (if m[0].key <= acked then [] else [m[0]]) + DropAcked(m[1..], acked)
  }

  // the part that runs only for an acknowledgment of something new
  function Advance(s: Sender, newAck: nat): Sender {
    if newAck > s.acked then
      s.(rto := s.initialRto, retransmissions := 0, acked := newAck, outstanding := DropAcked(s.outstanding, newAck))
    else s
  }

  function AckReceived(s: Sender, ackno: uint32, windowSize: uint16): Sender {
    var newAck := Unwrap(ackno, s.isn, s.nextSeqno);
    if newAck > s.nextSeqno then s
    else
      var t := Advance(s, newAck);
      t.(window := if windowSize != 0 then windowSize else 1,
         windowZero := t.windowZero || windowSize == 0,
         running := t.running && t.acked != t.nextSeqno)
  }

  // ---- tick ----

  predicate TimesOut(s: Sender, ms: nat) { s.running && s.rto <= ms }

  function Backoff(s: Sender): uint32 {
    (if s.retransmissions == 0 then s.initialRto else s.rtoBase) * 2 % 0x1_0000_0000
  }

  function Tick(s: Sender, ms: nat): Sender {
    if !s.running then s
    else if s.rto <= ms then
      s.(rtoBase := Backoff(s),
         rto := if s.windowZero then s.initialRto else Backoff(s),
         retransmissions := (s.retransmissions + 1) % 0x1_0000_0000,
         segmentsOut := s.segmentsOut + (if s.outstanding != [] then [s.outstanding[0].value] else []))
    else s.(rto := s.rto - ms)
  }

  // ---- send_empty_segment ----

  function SendEmpty(s: Sender): Sender {
    s.(segmentsOut := s.segmentsOut + [TCPSegment(DefaultHeader().(seqno := Wrap(s.nextSeqno, s.isn)), [])])
  }

  /** Nothing is lost by stopping at an empty segment: the read took nothing. */
  lemma EmptySegmentReadsNothing(s: Sender, end: nat)
    requires s.nextSeqno < end && NextSegment(s, end).Length() == 0
    ensures Read(s.stream, PayloadRoom(s, end)) == s.stream
    ensures s.nextSeqno > 0 && !TakesFin(s, end)
  {
  }

  class TCPSender {
    const isn: uint32
    const initialRetransmissionTimeout: uint16
    const stream: ByteStream
    var rtoBase: uint32
    var rto: uint32
    var nextSeqno: nat
    var ackS: nat
    var window: uint16
    var windowZero: bool
    var finSend: bool
    var start: bool
    var retransnum: uint32
    var segmentsOut: seq<TCPSegment>
    var segmentsNoack: seq<Entry<TCPSegment>>

    ghost predicate Valid()
      reads this, stream
    {
      stream.Valid()
    }

    ghost function View(): Sender
      reads this, stream
      requires Valid()
    {
      Sender(isn, initialRetransmissionTimeout, rtoBase, rto, stream.View(), nextSeqno, ackS, window, windowZero,
             finSend, start, retransnum, segmentsOut, segmentsNoack)
    }

    constructor (capacity: nat, retxTimeout: uint16, fixedIsn: uint32)
      ensures Valid() && fresh(stream) && View() == Initial(capacity, retxTimeout, fixedIsn)
    {
      isn, initialRetransmissionTimeout := fixedIsn, retxTimeout;
      stream := new ByteStream(capacity);
      rtoBase, rto, nextSeqno, ackS, window := retxTimeout, retxTimeout, 0, 0, 1;
      windowZero, finSend, start, retransnum := false, false, false, 0;
      segmentsOut, segmentsNoack := [], [];
    }

    method Fill()
      requires Valid()
      modifies this, stream
      ensures Valid() && View() == FillWindow(old(View()))
    {
      if finSend { return; }
      var end := ackS + window;
      while nextSeqno < end
        invariant Valid() && FillLoop(View(), end) == FillLoop(old(View()), end)
        decreases end - nextSeqno
      {
        var more := SendOne(end);
        if !more { break; }
      }
    }

    method SendOne(end: nat) returns (more: bool)
      requires Valid() && nextSeqno < end
      modifies this, stream
      ensures Valid() && more == (NextSegment(old(View()), end).Length() > 0)
      ensures View() == if more then SendNext(old(View()), end) else old(View())
    {
      ghost var s := View();
      if NextSegment(s, end).Length() == 0 { EmptySegmentReadsNothing(s, end); }
      var seg := BuildSegment(end);
      more := seg.Length() > 0;
      if more {
        nextSeqno := nextSeqno + seg.Length();
        segmentsOut := segmentsOut + [seg];
        start := true;
        segmentsNoack := Insert(segmentsNoack, nextSeqno, seg);
      }
    }

    method BuildSegment(end: nat) returns (seg: TCPSegment)
      requires Valid() && nextSeqno < end
      modifies this`finSend, stream
      ensures Valid() && seg == NextSegment(old(View()), end)
      ensures View() == old(View()).(
                          stream := Read(old(stream.View()), PayloadRoom(old(View()), end)),
                          finSent := old(finSend) || seg.header.fin)
    {
      var header := DefaultHeader();
      if nextSeqno == 0 { header := header.(syn := true); }
      header := header.(seqno := Wrap(nextSeqno, isn));
      var wSize := end - nextSeqno;
      var dataSize := if MAX_PAYLOAD_SIZE <= wSize then MAX_PAYLOAD_SIZE else wSize;
      var payload := stream.ReadString(dataSize);
      seg := TCPSegment(header, payload);
      assert seg == DataSegment(old(View()), end);
      var eof := stream.AtEof();
      if !finSend && eof && nextSeqno + seg.Length() < end {
        seg := seg.(header := seg.header.(fin := true));
        finSend := true;
      }
    }

    method Acknowledge(ackno: uint32, windowSize: uint16)
      requires Valid()
      modifies this
      ensures Valid() && View() == AckReceived(old(View()), ackno, windowSize)
    {
      var newAck := Unwrap(ackno, isn, nextSeqno);
      if newAck > nextSeqno { return; }
      AdvanceTo(newAck);
      if windowSize != 0 {
        window := windowSize;
      } else {
        windowZero := true;
        window := 1;
      }
      if ackS == nextSeqno { start := false; }
    }

    method AdvanceTo(newAck: nat)
      requires Valid()
      modifies this
      ensures Valid() && View() == Advance(old(View()), newAck)
    {
      if newAck > ackS {
        rto := initialRetransmissionTimeout;
        retransnum := 0;
        ackS := newAck;
        EraseAcked();
      }
    }

    method EraseAcked()
      modifies this`segmentsNoack
      ensures segmentsNoack == DropAcked(old(segmentsNoack), ackS)
    {
      var i := 0;
      ghost var goal := DropAcked(segmentsNoack, ackS);
      assert segmentsNoack[0..] == segmentsNoack;
      while i < |segmentsNoack|
        invariant i <= |segmentsNoack|
        invariant goal == segmentsNoack[..i] + DropAcked(segmentsNoack[i..], ackS)
        decreases |segmentsNoack| - i
      {
        ghost var before, rest := segmentsNoack[..i], segmentsNoack[i..];
        if segmentsNoack[i].key <= ackS {
          segmentsNoack := Erase(segmentsNoack, i);
          assert segmentsNoack[..i] == before && segmentsNoack[i..] == rest[1..];
        } else {
          assert segmentsNoack[..i + 1] == before + [rest[0]] && segmentsNoack[i + 1..] == rest[1..];
          i := i + 1;
        }
      }
      assert segmentsNoack[..i] == segmentsNoack;
    }

    method TickTimer(msSinceLastTick: nat)
      requires Valid()
      modifies this
      ensures Valid() && View() == Tick(old(View()), msSinceLastTick)
    {
      if !start { return; }
      if rto <= msSinceLastTick {
        if retransnum == 0 {
          rtoBase := initialRetransmissionTimeout * 2 % 0x1_0000_0000;
        } else {
          rtoBase := rtoBase * 2 % 0x1_0000_0000;
        }
        rto := if windowZero then initialRetransmissionTimeout else rtoBase;
        retransnum := (retransnum + 1) % 0x1_0000_0000;
        if segmentsNoack != [] {
          segmentsOut := segmentsOut + [segmentsNoack[0].value];
          start := true;
        }
      } else {
        rto := rto - msSinceLastTick;
      }
    }

    method SendEmptySegment()
      requires Valid()
      modifies this
      ensures Valid() && View() == SendEmpty(old(View()))
    {
      segmentsOut := segmentsOut + [TCPSegment(DefaultHeader().(seqno := Wrap(nextSeqno, isn)), [])];
    }
  }
}
