/** The receiver (libsponge/tcp_receiver.cc): sequence numbers to stream indices, and back. */
module Receivers {
  import opened FixedWidth
  import opened WrappingIntegers
  import opened OrderedMaps
  import opened ByteStreams
  import opened Segments
  import opened Reassembly

  datatype Receiver = Receiver(
    reassembler: Reassembler,
    syn: bool,
    isn: uint32,
    begin: uint32,
    checkp: nat,
    ack: Option<uint32>)

  function Listening(capacity: nat): Receiver {
    Receiver(Reassembly.Initial(capacity), false, 0, 0, 0, None)
  }

  function StreamOut(r: Receiver): Stream { r.reassembler.output }

  function WindowSize(r: Receiver): nat { Remaining(StreamOut(r)) }

  // what the header alone changes; a second SYN has been dropped before
  function Addressed(r: Receiver, h: TCPHeader): Receiver {
    if h.syn then r.(syn := true, isn := h.seqno, begin := h.seqno)
    else r.(begin := (h.seqno - 1) % 0x1_0000_0000)
  }

  function Index(r: Receiver): nat { Unwrap(r.begin, r.isn, r.checkp) }

  // the segment reaches neither below nor above what the window wants
  predicate InReach(r: Receiver, len: nat) {
    Index(r) + len >= r.checkp && Index(r) < r.checkp + WindowSize(r)
  }

  // what follows the push: checkpoint and acknowledgment, and the reset when the input has ended
  function Pushed(r: Receiver, re: Reassembler): Receiver {
    var written := |re.output.written|;
    if re.output.ended then
      r.(reassembler := re, ack := Some(Wrap(written + 2, r.isn)), syn := false, checkp := 0, begin := 0)
    else
      r.(reassembler := re, ack := Some(Wrap(written + 1, r.isn)), checkp := written)
  }

  function TakeIn(r: Receiver, data: seq<byte>, index: nat, fin: bool): Receiver
    requires Sorted(r.reassembler.pieces)
  {
    Pushed(r, Push(r.reassembler, data, index, fin))
  }

  function SegmentReceived(r: Receiver, seg: TCPSegment): (t: Receiver)
    requires Sorted(r.reassembler.pieces)
    ensures Sorted(t.reassembler.pieces) && t.reassembler.capacity == r.reassembler.capacity
  {
    if seg.header.syn && r.syn then r
    else
      var q := Addressed(r, seg.header);
      if !q.syn || !InReach(q, |seg.payload|) then q
      else TakeIn(q, seg.payload, Index(q), seg.header.fin)
  }

  function ReadOut(r: Receiver, len: nat): Receiver {
    r.(reassembler := r.reassembler.(output := Read(StreamOut(r), len)))
  }

  class TCPReceiver {
    const reassembler: StreamReassembler
    var syn: bool
    var isn: uint32
    var begin: uint32
    var checkp: nat
    var ack: Option<uint32>

    ghost predicate Valid()
      reads this, reassembler, reassembler.output
    {
      reassembler.Valid()
    }

    ghost function View(): Receiver
      reads this, reassembler, reassembler.output
      requires Valid()
    {
      Receiver(reassembler.View(), syn, isn, begin, checkp, ack)
    }

    constructor (capacity: nat)
      ensures Valid() && fresh(reassembler) && fresh(reassembler.output) && View() == Listening(capacity)
    {
      reassembler := new StreamReassembler(capacity);
      syn, isn, begin, checkp, ack := false, 0, 0, 0, None;
    }

    method Receive(seg: TCPSegment)
      requires Valid()
      modifies this, reassembler, reassembler.output
      ensures Valid() && View() == SegmentReceived(old(View()), seg)
    {
      if seg.header.syn {
        if syn { return; }
        syn := true;
        isn := seg.header.seqno;
        begin := seg.header.seqno;
      } else {
        begin := (seg.header.seqno - 1) % 0x1_0000_0000;
      }
      if !syn { return; }
      ghost var q := View();
      assert q == Addressed(old(View()), seg.header);
      var len := seg.Length() - AsNat(seg.header.syn) - AsNat(seg.header.fin);
      var index := Unwrap(begin, isn, checkp);
      var window := Window();
      if index + len < checkp || index >= checkp + window { return; }
      AcceptPayload(seg.payload, index, seg.header.fin);
    }

    method AcceptPayload(data: seq<byte>, index: nat, fin: bool)
      requires Valid()
      modifies this, reassembler, reassembler.output
      ensures Valid() && View() == TakeIn(old(View()), data, index, fin)
    {
      reassembler.PushSubstring(data, index, fin);
      checkp := reassembler.output.writeCount;
      if reassembler.output.endFlag {
        ack := Some(Wrap(checkp + 2, isn));
        syn := false;
        checkp := 0;
        begin := 0;
      } else {
        ack := Some(Wrap(checkp + 1, isn));
      }
    }

    method Window() returns (n: nat)
      requires Valid()
      ensures n == WindowSize(View())
    {
      n := reassembler.output.RemainingCapacity();
    }
  }
}
