/** What the receiver keeps while it hears the segments of one connection, in any order. */
module ReceiverInvariants {
  import opened FixedWidth
  import opened WrappingIntegers
  import opened OrderedMaps
  import opened ByteStreams
  import opened Segments
  import opened Reassembly
  import opened ReassemblyRefinement
  import opened Connections
  import opened Receivers

  // the absolute number of the first thing still missing: SYN, bytes, then FIN
  function AbsoluteAck(r: Receiver): nat {
    r.reassembler.writePtr + 1 + AsNat(StreamOut(r).ended)
  }

  // ---- whatever arrives ----

  /** What the receiver keeps whatever it hears, forged segments included: a sound reassembler, and a
      checkpoint that is the number of assembled bytes until the input ends, then zero. */
  ghost predicate Guarded(r: Receiver) {
    && Sound(r.reassembler) && RightEdge(r.reassembler) < TWO64
    && r.checkp == (if StreamOut(r).ended then 0 else r.reassembler.writePtr)
  }

  /** A push, if there is one, starts strictly inside the reassembler's window. */
  lemma PushesInsideWindow(r: Receiver, seg: TCPSegment)
    requires Guarded(r)
    ensures var q := Addressed(r, seg.header);
            InReach(q, |seg.payload|) ==> Index(q) < RightEdge(r.reassembler)
  {
  }

  /** The advertised right edge is the reassembler's, so it moves only when the reader reads. */
  lemma AdvertisedEdge(r: Receiver)
    requires Guarded(r)
    ensures r.reassembler.writePtr + WindowSize(r) == RightEdge(r.reassembler)
  {
  }

  ghost predicate Advances(s: Stream, t: Stream) {
    && s.written <= t.written && (s.ended ==> t.ended)
    && t == s.(written := t.written, ended := t.ended)
  }

  /** Any segment at all keeps the guard, unwrites nothing and leaves the right edge alone. */
  lemma SegmentGuarded(r: Receiver, seg: TCPSegment)
    requires Guarded(r)
    ensures Guarded(SegmentReceived(r, seg))
    ensures Advances(StreamOut(r), StreamOut(SegmentReceived(r, seg)))
    ensures RightEdge(SegmentReceived(r, seg).reassembler) == RightEdge(r.reassembler)
  {
    var q := Addressed(r, seg.header);
    PushesInsideWindow(r, seg);
    if !(seg.header.syn && r.syn) && q.syn && InReach(q, |seg.payload|) {
      PushRefines(r.reassembler, seg.payload, Index(q), seg.header.fin);
    }
  }

  // the first SYN is heard, and after it whatever is no SYN
  predicate Heard(r: Receiver, h: TCPHeader) { h.syn != r.syn }

  function HeardIsn(r: Receiver, h: TCPHeader): uint32 { if h.syn then h.seqno else r.isn }

  // the stream index of the payload: the number nearest to the checkpoint
  function HeardIndex(r: Receiver, h: TCPHeader): nat {
    Unwrap(if h.syn then h.seqno else (h.seqno - 1) % 0x1_0000_0000, HeardIsn(r, h), r.checkp)
  }

  // heard, and in reach of the window
  predicate Reached(r: Receiver, seg: TCPSegment) {
    var index := HeardIndex(r, seg.header);
    Heard(r, seg.header) && r.checkp <= index + |seg.payload| && index < r.checkp + WindowSize(r)
  }

  // what follows from the push
  lemma ReachedTakes(r: Receiver, seg: TCPSegment)
    requires Sorted(r.reassembler.pieces) && Reached(r, seg)
    ensures var t, index := SegmentReceived(r, seg), HeardIndex(r, seg.header);
            && t.reassembler == Push(r.reassembler, seg.payload, index, seg.header.fin)
            && t.isn == HeardIsn(r, seg.header) && (t.syn <==> !StreamOut(t).ended)
            && t.ack == Some(Wrap(|StreamOut(t).written| + 1 + AsNat(StreamOut(t).ended), t.isn))
  {
    var q, index := Addressed(r, seg.header), HeardIndex(r, seg.header);
    assert Index(q) == index && q.syn && InReach(q, |seg.payload|);
    PushedExact(q, Push(r.reassembler, seg.payload, index, seg.header.fin));
  }

  lemma PushedExact(q: Receiver, re: Reassembler)
    requires q.syn
    ensures var t := Pushed(q, re);
            && t.reassembler == re && t.isn == q.isn && (t.syn <==> !re.output.ended)
            && t.ack == Some(Wrap(|re.output.written| + 1 + AsNat(re.output.ended), q.isn))
  {
  }

  lemma UnreachedKeeps(r: Receiver, seg: TCPSegment)
    requires Sorted(r.reassembler.pieces) && !Reached(r, seg)
    ensures var t := SegmentReceived(r, seg);
            && t.reassembler == r.reassembler && t.ack == r.ack && t.checkp == r.checkp
            && (t.syn <==> r.syn || seg.header.syn)
            && t.isn == if Heard(r, seg.header) then HeardIsn(r, seg.header) else r.isn
  {
  }

  /** All that any segment does, forged or not: if it is heard and in reach of the window, its bytes below the
      right edge are accepted, its FIN counts if it fits, and the ackno is the number of the first missing
      byte, past the FIN once the input has ended; if not, no byte, FIN or ackno changes. */
  lemma SegmentExact(r: Receiver, seg: TCPSegment, i: nat)
    requires Guarded(r)
    ensures var t, h, len, right := SegmentReceived(r, seg), seg.header, |seg.payload|, RightEdge(r.reassembler);
            var reached, index := Reached(r, seg), HeardIndex(r, h);
            var fits := reached && h.fin && index + len <= right;
            && (Accepted(t.reassembler, i) <==>
                Accepted(r.reassembler, i) || (reached && index <= i < index + len && i < right))
            && (t.reassembler.eofFlag <==> r.reassembler.eofFlag || fits)
            && t.reassembler.eofIndex == (if fits then index + len else r.reassembler.eofIndex)
            && (StreamOut(t).ended <==>
                || StreamOut(r).ended
                || (reached && t.reassembler.eofFlag && |StreamOut(t).written| == t.reassembler.eofIndex))
            && (reached ==> t.ack == Some(Wrap(|StreamOut(t).written| + 1 + AsNat(StreamOut(t).ended), t.isn)))
            && (!reached ==> t.ack == r.ack)
            && t.isn == (if Heard(r, h) then HeardIsn(r, h) else r.isn)
            && (t.syn <==> (r.syn || h.syn) && !(reached && StreamOut(t).ended))
  {
    if Reached(r, seg) {
      var index := HeardIndex(r, seg.header);
      ReachedTakes(r, seg);
      PushRefines(r.reassembler, seg.payload, index, seg.header.fin);
      PushMarks(r.reassembler, seg.payload, index, seg.header.fin);
    } else {
      UnreachedKeeps(r, seg);
    }
  }

  lemma ReadOutGuarded(r: Receiver, len: nat)
    requires Guarded(r) && RightEdge(ReadOut(r, len).reassembler) < TWO64
    ensures Guarded(ReadOut(r, len))
    ensures RightEdge(r.reassembler) <= RightEdge(ReadOut(r, len).reassembler)
  {
  }

  // ---- segments of one connection ----

  /** A present ackno is exactly the wrapped number of the first missing byte, plus one when the input
      has ended; the checkpoint is the number of assembled bytes until the input ends, then zero. */
  ghost predicate Exact(r: Receiver, c: Conn) {
    && r.checkp == (if StreamOut(r).ended then 0 else r.reassembler.writePtr)
    && (r.ack.Some? ==> r.ack.value == Wrap(AbsoluteAck(r), c.isn))
    && (r.syn || r.ack.Some? ==> r.isn == c.isn && c.begun)
    && (r.ack.None? ==> r.reassembler.writePtr == 0 && !StreamOut(r).ended)
    && (r.syn && r.ack.None? ==> r.reassembler.capacity == 0)
    && (r.ack.Some? ==> r.reassembler.capacity > 0)
    && (!r.syn && r.ack.Some? ==> StreamOut(r).ended)
  }

  ghost predicate Tracks(r: Receiver, c: Conn) {
    && Sound(r.reassembler) && Faithful(r.reassembler, c.sent, c.closed)
    && r.reassembler.capacity + |c.sent| + 2 < TWO64
    && Exact(r, c)
  }

  lemma ListeningTracks(capacity: nat, c: Conn)
    requires capacity + |c.sent| + 2 < TWO64
    ensures Tracks(Listening(capacity), c)
  {
  }

  /** The connection may grow under the receiver. */
  lemma TracksExtends(r: Receiver, c: Conn, d: Conn)
    requires Tracks(r, c) && Extends(c, d) && r.reassembler.capacity + |d.sent| + 2 < TWO64
    ensures Tracks(r, d)
  {
    var re := r.reassembler;
    forall k | 0 <= k < |re.pieces| ensures Excerpt(d.sent, re.pieces[k].key, re.pieces[k].value) {
      assert Excerpt(c.sent, re.pieces[k].key, re.pieces[k].value);
    }
  }

  // the true index of the segment is close enough to the checkpoint to be recognised, be it around the
  // top of the 64-bit range
  predicate Recognisable(r: Receiver, seg: TCPSegment, a: nat) {
    var i := StreamIndex(seg, a);
    r.checkp - TWO31 <= i < r.checkp + TWO31 || r.checkp <= i < TWO32 || i + TWO64 < r.checkp + TWO31
  }

  // so old that it is taken for a segment one turn of the sequence numbers later, beyond the window
  predicate TooOld(r: Receiver, seg: TCPSegment, a: nat) {
    var i := StreamIndex(seg, a);
    r.checkp - TWO32 <= i < r.checkp - TWO31 && RightEdge(r.reassembler) <= i + TWO32 < TWO64
  }

  /** The segment cannot be mistaken for another part of the stream. */
  predicate Unmistakable(r: Receiver, seg: TCPSegment, a: nat) {
    seg.header.syn || Recognisable(r, seg, a) || TooOld(r, seg, a)
  }

  /** A segment is placed where it belongs exactly when it is recognisable. */
  lemma IndexIsTrue(r: Receiver, c: Conn, seg: TCPSegment, a: nat)
    requires Tracks(r, c) && Genuine(seg, a, c)
    requires Addressed(r, seg.header).syn && !(seg.header.syn && r.syn)
    requires seg.header.syn || a > 0
    ensures Addressed(r, seg.header).isn == c.isn
    ensures Index(Addressed(r, seg.header)) == StreamIndex(seg, a) <==> Recognisable(r, seg, a)
  {
    WrapZero(c.isn);
    if !seg.header.syn { WrapPrevious(a, c.isn); }
    assert Addressed(r, seg.header).begin == Wrap(StreamIndex(seg, a), c.isn);
    UnwrapWrap(StreamIndex(seg, a), c.isn, r.checkp);
  }

  /** A segment from the last turn but one is dropped. */
  lemma OldIsBeyond(r: Receiver, c: Conn, seg: TCPSegment, a: nat)
    requires Tracks(r, c) && Genuine(seg, a, c) && TooOld(r, seg, a)
    requires r.syn && !seg.header.syn && a > 0
    ensures !InReach(Addressed(r, seg.header), |seg.payload|)
  {
    WrapPrevious(a, c.isn);
    UnwrapOld(StreamIndex(seg, a), c.isn, r.checkp);
  }

  /** The data that reaches the reassembler is what was sent at the index it is pushed to. */
  lemma PushIsTrue(r: Receiver, c: Conn, seg: TCPSegment, a: nat)
    requires Tracks(r, c) && Genuine(seg, a, c) && Unmistakable(r, seg, a)
    requires Addressed(r, seg.header).syn && !(seg.header.syn && r.syn)
    requires InReach(Addressed(r, seg.header), |seg.payload|)
    ensures var index := Index(Addressed(r, seg.header));
            && Excerpt(c.sent, index, seg.payload)
            && (seg.header.fin ==> c.closed && index + |seg.payload| == |c.sent|)
  {
    if TooOld(r, seg, a) && !seg.header.syn && a > 0 { OldIsBeyond(r, c, seg, a); }
    else if seg.header.syn || a > 0 { IndexIsTrue(r, c, seg, a); }
  }

  ghost predicate Progress(r: Receiver, t: Receiver) {
    && StreamOut(r).written <= StreamOut(t).written
    && StreamOut(t) == StreamOut(r).(written := StreamOut(t).written, ended := StreamOut(t).ended)
    && (StreamOut(r).ended ==> StreamOut(t).ended)
    && (r.ack.Some? ==> t.ack.Some?)
    && AbsoluteAck(r) <= AbsoluteAck(t)
    && t.reassembler.capacity == r.reassembler.capacity
  }

  lemma PushTracks(re: Reassembler, c: Conn, data: seq<byte>, index: nat, fin: bool)
    requires Sound(re) && Faithful(re, c.sent, c.closed) && index <= RightEdge(re) < TWO64
    requires Excerpt(c.sent, index, data) && (fin ==> c.closed && index + |data| == |c.sent|)
    ensures var t := Push(re, data, index, fin);
            && Sound(t) && Faithful(t, c.sent, c.closed) && re.output.written <= t.output.written
            && t.output == re.output.(written := t.output.written, ended := t.output.ended)
            && (re.output.ended ==> t.output.ended)
  {
    PushRefines(re, data, index, fin);
    PushFaithful(re, data, index, fin, c.sent, c.closed);
  }

  lemma TakeInTracks(q: Receiver, c: Conn, data: seq<byte>, index: nat, fin: bool)
    requires Sound(q.reassembler) && Faithful(q.reassembler, c.sent, c.closed)
    requires q.reassembler.capacity + |c.sent| + 2 < TWO64
    requires index <= RightEdge(q.reassembler)
    requires q.isn == c.isn && c.begun && q.syn && q.reassembler.capacity > 0
    requires Excerpt(c.sent, index, data) && (fin ==> c.closed && index + |data| == |c.sent|)
    ensures Tracks(TakeIn(q, data, index, fin), c)
  {
    PushTracks(q.reassembler, c, data, index, fin);
    PushedTracks(q, c, Push(q.reassembler, data, index, fin));
  }

  lemma PushedTracks(q: Receiver, c: Conn, re: Reassembler)
    requires Sound(re) && Faithful(re, c.sent, c.closed)
    requires re.capacity + |c.sent| + 2 < TWO64 && re.capacity > 0
    requires q.isn == c.isn && c.begun && q.syn
    ensures Tracks(Pushed(q, re), c)
  {
  }

  lemma TakeInProgress(q: Receiver, c: Conn, data: seq<byte>, index: nat, fin: bool)
    requires Sound(q.reassembler) && Faithful(q.reassembler, c.sent, c.closed)
    requires index <= RightEdge(q.reassembler) < TWO64
    requires Excerpt(c.sent, index, data) && (fin ==> c.closed && index + |data| == |c.sent|)
    ensures Progress(q, TakeIn(q, data, index, fin))
  {
    PushTracks(q.reassembler, c, data, index, fin);
  }

  /** One segment of the connection, old or new: the acknowledgment stays exact and only advances,
      and the output stays a prefix of what was sent. */
  lemma SegmentTracks(r: Receiver, c: Conn, seg: TCPSegment, a: nat)
    requires Tracks(r, c) && Genuine(seg, a, c) && Unmistakable(r, seg, a)
    ensures Tracks(SegmentReceived(r, seg), c) && Progress(r, SegmentReceived(r, seg))
  {
    if !(seg.header.syn && r.syn) {
      var q := Addressed(r, seg.header);
      WrapZero(c.isn);
      if q.syn {
        PushesInsideWindow(r, seg);
        if InReach(q, |seg.payload|) {
          PushIsTrue(r, c, seg, a);
          TakeInTracks(q, c, seg.payload, Index(q), seg.header.fin);
          TakeInProgress(q, c, seg.payload, Index(q), seg.header.fin);
        } else {
          DroppedTracks(r, c, seg, a);
        }
      }
    }
  }

  lemma DroppedTracks(r: Receiver, c: Conn, seg: TCPSegment, a: nat)
    requires Tracks(r, c) && Genuine(seg, a, c)
    requires !(seg.header.syn && r.syn) && Addressed(r, seg.header).syn
    requires !InReach(Addressed(r, seg.header), |seg.payload|)
    ensures Tracks(Addressed(r, seg.header), c) && Progress(r, Addressed(r, seg.header))
  {
    WrapZero(c.isn);
    if seg.header.syn { IndexIsTrue(r, c, seg, a); }
  }

  lemma ReadOutTracks(r: Receiver, c: Conn, len: nat)
    requires Tracks(r, c)
    ensures Tracks(ReadOut(r, len), c)
    ensures AbsoluteAck(ReadOut(r, len)) == AbsoluteAck(r)
  {
  }

  /** Exactly what is kept of a segment: its bytes below the right edge, if it is in reach at all. */
  lemma SegmentKept(r: Receiver, c: Conn, seg: TCPSegment, a: nat, i: nat)
    requires Tracks(r, c) && Genuine(seg, a, c) && Recognisable(r, seg, a)
    requires if seg.header.syn then !r.syn else r.syn && a > 0
    ensures Accepted(SegmentReceived(r, seg).reassembler, i) <==>
            || Accepted(r.reassembler, i)
            || (var index := StreamIndex(seg, a);
                && r.checkp <= index + |seg.payload| && index < r.checkp + WindowSize(r)
                && index <= i < index + |seg.payload| && i < RightEdge(r.reassembler))
  {
    IndexIsTrue(r, c, seg, a);
    PushesInsideWindow(r, seg);
    var q := Addressed(r, seg.header);
    if InReach(q, |seg.payload|) {
      PushRefines(r.reassembler, seg.payload, Index(q), seg.header.fin);
    }
  }

  /** A FIN that fits the window of its moment: the segment is heard, recognised and in reach, and the
      stream ends within the window. */
  predicate FinFits(r: Receiver, c: Conn, seg: TCPSegment) {
    && seg.header.fin && seg.header.syn != r.syn && |seg.payload| <= |c.sent|
    && (var index := |c.sent| - |seg.payload|;
        && Recognisable(r, seg, index + 1)
        && r.checkp <= |c.sent| <= RightEdge(r.reassembler) && index < r.checkp + WindowSize(r))
  }

  /** The end of the stream is known after a segment exactly if it was known before, or the FIN is in the
      segment and ends within the window; the output has then ended exactly when every byte is there. */
  lemma SegmentEnds(r: Receiver, c: Conn, seg: TCPSegment, a: nat)
    requires Tracks(r, c) && Genuine(seg, a, c) && Recognisable(r, seg, a)
    requires if seg.header.syn then !r.syn else r.syn && a > 0
    ensures var t, index := SegmentReceived(r, seg), StreamIndex(seg, a);
            && (t.reassembler.eofFlag <==>
                || r.reassembler.eofFlag
                || (&& seg.header.fin && r.checkp <= index + |seg.payload| <= RightEdge(r.reassembler)
                    && index < r.checkp + WindowSize(r)))
            && (StreamOut(t).ended <==> t.reassembler.eofFlag && |StreamOut(t).written| == |c.sent|)
  {
    IndexIsTrue(r, c, seg, a);
    SegmentExact(r, seg, 0);
    SegmentTracks(r, c, seg, a);
  }

  /** The limit is real: a copy of a segment sent exactly one turn ago is taken for the next one, and
      its first byte is delivered in place of the byte that belongs there. */
  lemma TurnAgoIsMistaken(r: Receiver, c: Conn, seg: TCPSegment, a: nat)
    requires Tracks(r, c) && Genuine(seg, a, c) && r.syn && !seg.header.syn && !seg.header.fin && a > 0
    requires seg.payload != [] && StreamIndex(seg, a) + TWO32 == r.checkp && WindowSize(r) > 0
    requires r.reassembler.pieces == [] && !r.reassembler.eofFlag
    ensures var t := SegmentReceived(r, seg);
            && |StreamOut(t).written| > r.checkp
            && StreamOut(t).written[r.checkp] == c.sent[r.checkp - TWO32]
  {
    WrapPrevious(a, c.isn);
    WrapBack(r.checkp, c.isn);
    UnwrapNear(r.checkp, c.isn, r.checkp);
    assert Index(Addressed(r, seg.header)) == r.checkp;
    PushDelivers(r.reassembler, seg.payload);
  }

  /** The segment that ends the input resets the receiver: until another SYN is heard, everything else
      is ignored. */
  lemma EndResets(r: Receiver, seg: TCPSegment, next: TCPSegment)
    requires Sorted(r.reassembler.pieces) && !StreamOut(r).ended
    requires StreamOut(SegmentReceived(r, seg)).ended
    ensures var t := SegmentReceived(r, seg);
            && !t.syn && t.checkp == 0 && t.begin == 0
            && (!next.header.syn ==> SegmentReceived(t, next) == t.(begin := SegmentReceived(t, next).begin))
  {
  }
}
