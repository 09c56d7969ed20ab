/** What every operation of the sender keeps: in-flight segments tile the unacknowledged range, the
    timer runs exactly while something is in flight, and every segment is true to the stream. */
module SenderInvariants {
  import opened FixedWidth
  import opened WrappingIntegers
  import opened OrderedMaps
  import opened ByteStreams
  import opened Segments
  import opened Senders
  import opened Connections

  const MAX_IN_FLIGHT: nat := 65536

  function ConnOf(s: Sender): Conn {
    Conn(s.isn, s.nextSeqno > 0, s.stream.written[..s.stream.read], s.finSent)
  }

  function StartOf(e: Entry<TCPSegment>): int { e.key - e.value.Length() }

  ghost predicate GenuineEntry(e: Entry<TCPSegment>, c: Conn) {
    && e.value.Length() > 0 && StartOf(e) >= 0
    && Genuine(e.value, StartOf(e), c) && Made(e.value)
  }

  // each entry starts where the one before it ends
  ghost predicate Abut(m: seq<Entry<TCPSegment>>) {
    forall i, j :: 0 <= i < j < |m| && j == i + 1 ==> StartOf(m[j]) == m[i].key
  }

  /** Consecutive entries abut, the last ends at the next sequence number, the first holds the first
      unacknowledged number. */
  ghost predicate Tiled(m: seq<Entry<TCPSegment>>, acked: nat, top: nat) {
    && Sorted(m) && Abut(m)
    && (m == [] ==> acked == top)
    && (m != [] ==> StartOf(m[0]) <= acked < m[0].key && m[|m| - 1].key == top)
  }

  ghost predicate AllGenuine(m: seq<Entry<TCPSegment>>, out: seq<TCPSegment>, c: Conn) {
    && (forall i :: 0 <= i < |m| ==> GenuineEntry(m[i], c))
    && (forall i :: 0 <= i < |out| ==> SomeGenuine(out[i], c) && Made(out[i]))
  }

  ghost predicate TimerOk(s: Sender) {
    && (s.running <==> s.acked < s.nextSeqno)
    && (!s.running ==> s.rto == s.initialRto && s.retransmissions == 0)
  }

  ghost predicate Counted(s: Sender) {
    && s.nextSeqno == Top(ConnOf(s))
    && (s.nextSeqno == 0 ==> s.stream.read == 0 && !s.finSent)
    && (s.finSent ==> Eof(s.stream))
    && s.acked <= s.nextSeqno <= s.acked + MAX_IN_FLIGHT
    && s.window >= 1
  }

  ghost predicate Good(s: Sender) {
    && Counted(s)
    && Tiled(s.outstanding, s.acked, s.nextSeqno)
    && AllGenuine(s.outstanding, s.segmentsOut, ConnOf(s))
    && TimerOk(s)
  }

  lemma InitialGood(capacity: nat, retxTimeout: uint16, isn: uint32)
    ensures Good(Senders.Initial(capacity, retxTimeout, isn))
  {
  }

  lemma AllGenuineExtends(m: seq<Entry<TCPSegment>>, out: seq<TCPSegment>, c: Conn, d: Conn)
    requires AllGenuine(m, out, c) && Extends(c, d)
    ensures AllGenuine(m, out, d)
  {
    forall i | 0 <= i < |m| ensures GenuineEntry(m[i], d) {
      GenuineExtends(m[i].value, StartOf(m[i]), c, d);
    }
    forall i | 0 <= i < |out| ensures SomeGenuine(out[i], d) {
      var a: nat :| Genuine(out[i], a, c);
      GenuineExtends(out[i], a, c, d);
    }
  }

  // ---- fill_window ----

  /** One iteration: the new segment starts where the last one ended, and the connection grows by it. */
  lemma NextSegmentGenuine(s: Sender, end: nat)
    requires Counted(s) && s.nextSeqno < end && NextSegment(s, end).Length() > 0
    ensures var seg, t := NextSegment(s, end), SendNext(s, end);
            && !s.finSent
            && Extends(ConnOf(s), ConnOf(t))
            && Top(ConnOf(t)) == t.nextSeqno == s.nextSeqno + seg.Length()
            && Genuine(seg, s.nextSeqno, ConnOf(t)) && Made(seg)
            && (t.finSent ==> Eof(t.stream))
            && (seg.header.syn <==> s.nextSeqno == 0)
            && (seg.header.fin <==> t.finSent)
  {
    var n := PayloadRoom(s, end);
    var w := s.stream.written;
    var m := Min(n, Size(s.stream));
    assert w[..s.stream.read + m] == w[..s.stream.read] + w[s.stream.read..s.stream.read + m];
    var sent' := w[..s.stream.read + m];
    assert sent'[s.stream.read..s.stream.read + m] == ReadBytes(s.stream, n);
  }

  lemma KeysUpTo(m: seq<Entry<TCPSegment>>, acked: nat, top: nat)
    requires Tiled(m, acked, top)
    ensures forall i :: 0 <= i < |m| ==> m[i].key <= top
  {
  }

  lemma TiledAppend(m: seq<Entry<TCPSegment>>, acked: nat, top: nat, e: Entry<TCPSegment>)
    requires Tiled(m, acked, top) && StartOf(e) == top && e.value.Length() > 0
    ensures Tiled(m + [e], acked, e.key)
  {
    KeysUpTo(m, acked, top);
  }

  lemma SendNextCounted(s: Sender, end: nat)
    requires Counted(s) && s.nextSeqno < end <= s.acked + 65535 && NextSegment(s, end).Length() > 0
    ensures Counted(SendNext(s, end))
    ensures SendNext(s, end).nextSeqno <= end + AsNat(s.nextSeqno == 0 && NextSegment(s, end).payload != [])
  {
    NextSegmentGenuine(s, end);
  }

  lemma SendNextTiled(s: Sender, end: nat)
    requires Counted(s) && Tiled(s.outstanding, s.acked, s.nextSeqno)
    requires s.nextSeqno < end && NextSegment(s, end).Length() > 0
    ensures var t := SendNext(s, end);
            && t.outstanding == s.outstanding + [Entry(t.nextSeqno, NextSegment(s, end))]
            && Tiled(t.outstanding, t.acked, t.nextSeqno)
  {
    var seg, next := NextSegment(s, end), SendNext(s, end).nextSeqno;
    KeysUpTo(s.outstanding, s.acked, s.nextSeqno);
    InsertLast(s.outstanding, next, seg);
    TiledAppend(s.outstanding, s.acked, s.nextSeqno, Entry(next, seg));
  }

  lemma SendNextGood(s: Sender, end: nat)
    requires Good(s) && s.nextSeqno < end <= s.acked + 65535 && NextSegment(s, end).Length() > 0
    ensures Good(SendNext(s, end))
    ensures SendNext(s, end).outstanding == s.outstanding + [Entry(SendNext(s, end).nextSeqno, NextSegment(s, end))]
  {
    var t := SendNext(s, end);
    NextSegmentGenuine(s, end);
    SendNextCounted(s, end);
    SendNextTiled(s, end);
    AllGenuineExtends(s.outstanding, s.segmentsOut, ConnOf(s), ConnOf(t));
    GenuineAppend(s.outstanding, s.segmentsOut, Entry(t.nextSeqno, NextSegment(s, end)), ConnOf(t));
  }

  lemma GenuineAppend(m: seq<Entry<TCPSegment>>, out: seq<TCPSegment>, e: Entry<TCPSegment>, d: Conn)
    requires AllGenuine(m, out, d) && GenuineEntry(e, d)
    ensures AllGenuine(m + [e], out + [e.value], d)
  {
    assert SomeGenuine(e.value, d);
  }

  /** The segments that the loop makes, in order. */
  function Created(s: Sender, end: nat): seq<TCPSegment>
    decreases end - s.nextSeqno
  {
    if s.nextSeqno >= end || NextSegment(s, end).Length() == 0 then []
    else [NextSegment(s, end)] + Created(SendNext(s, end), end)
  }

  lemma Regroup(log: seq<TCPSegment>, seg: TCPSegment, rest: seq<TCPSegment>)
    ensures log + [seg] + rest == log + ([seg] + rest)
  {
  }

  /** What the loop queues is what it makes. */
  lemma {:induction false} FillLoopQueues(s: Sender, end: nat)
    ensures FillLoop(s, end).segmentsOut == s.segmentsOut + Created(s, end)
    decreases end - s.nextSeqno
  {
    if s.nextSeqno < end && NextSegment(s, end).Length() > 0 {
      var seg, t := NextSegment(s, end), SendNext(s, end);
      FillLoopQueues(t, end);
      Regroup(s.segmentsOut, seg, Created(t, end));
    }
  }

  lemma Appended(queue: seq<TCPSegment>, more: seq<TCPSegment>)
    ensures (queue + more)[|queue|..] == more && queue <= queue + more
  {
  }

  lemma FillWindowQueues(s: Sender)
    ensures FillWindow(s).segmentsOut == s.segmentsOut + MadeBy(s)
  {
    if s.finSent { assert s.segmentsOut + [] == s.segmentsOut; } else { FillLoopQueues(s, s.acked + s.window); }
  }

  /** The segments that the loop of one fill_window makes. */
  function MadeBy(s: Sender): seq<TCPSegment> {
    if s.finSent then [] else Created(s, s.acked + s.window)
  }

  /** The segments that one call of fill_window puts on the queue. */
  function Queued(s: Sender): (more: seq<TCPSegment>)
    ensures more == MadeBy(s)
  {
    FillWindowQueues(s);
    Appended(s.segmentsOut, MadeBy(s));
    FillWindow(s).segmentsOut[|s.segmentsOut|..]
  }

  // what the loop may and must achieve
  ghost predicate Filled(s: Sender, t: Sender, end: nat) {
    && (t.nextSeqno >= end || t.finSent || (Size(t.stream) == 0 && !t.stream.ended))
    && s.nextSeqno <= t.nextSeqno
    && (t.nextSeqno <= s.nextSeqno || t.nextSeqno <= end
        || (s.nextSeqno == 0 && t.nextSeqno == end + 1 && t.stream.read > 0))
  }

  lemma StopsFilled(s: Sender, end: nat)
    requires Good(s) && (s.nextSeqno >= end || NextSegment(s, end).Length() == 0)
    ensures Filled(s, s, end)
  {
  }

  lemma SendNextFilled(s: Sender, t: Sender, end: nat)
    requires Good(s) && s.nextSeqno < end <= s.acked + 65535 && NextSegment(s, end).Length() > 0
    requires Filled(SendNext(s, end), t, end) && t.stream.read >= SendNext(s, end).stream.read
    ensures Filled(s, t, end)
  {
    SendNextCounted(s, end);
    NextSegmentGenuine(s, end);
  }

  /** The loop keeps the invariant and only adds to what was sent. */
  lemma {:induction false} FillLoopGood(s: Sender, end: nat)
    requires Good(s) && end <= s.acked + 65535
    ensures Good(FillLoop(s, end))
    ensures Extends(ConnOf(s), ConnOf(FillLoop(s, end)))
    decreases end - s.nextSeqno
  {
    if s.nextSeqno < end && NextSegment(s, end).Length() > 0 {
      var t := SendNext(s, end);
      SendNextGood(s, end);
      NextSegmentGenuine(s, end);
      FillLoopGood(t, end);
      ExtendsTrans(ConnOf(s), ConnOf(t), ConnOf(FillLoop(t, end)));
    }
  }

  /** The loop stops only when the window is full, the FIN is out, or nothing is left to send. */
  lemma {:induction false} FillLoopFills(s: Sender, end: nat)
    requires Good(s) && end <= s.acked + 65535
    ensures Filled(s, FillLoop(s, end), end)
    decreases end - s.nextSeqno
  {
    if s.nextSeqno < end && NextSegment(s, end).Length() > 0 {
      SendNextGood(s, end);
      FillLoopFills(SendNext(s, end), end);
      FillLoopFrame(SendNext(s, end), end);
      SendNextFilled(s, FillLoop(s, end), end);
    } else {
      StopsFilled(s, end);
    }
  }

  ghost predicate OnlySent(s: Sender, t: Sender) {
    && t == s.(stream := t.stream, finSent := t.finSent, nextSeqno := t.nextSeqno,
               segmentsOut := t.segmentsOut, running := t.running, outstanding := t.outstanding)
    && t.stream == s.stream.(read := t.stream.read) && s.stream.read <= t.stream.read
  }

  lemma {:induction false} FillLoopFrame(s: Sender, end: nat)
    ensures OnlySent(s, FillLoop(s, end))
    decreases end - s.nextSeqno
  {
    if s.nextSeqno < end && NextSegment(s, end).Length() > 0 { FillLoopFrame(SendNext(s, end), end); }
  }

  lemma ExtendsTrans(c: Conn, d: Conn, e: Conn)
    requires Extends(c, d) && Extends(d, e)
    ensures Extends(c, e)
  {
  }

  lemma FillWindowGood(s: Sender)
    requires Good(s)
    ensures Good(FillWindow(s))
    ensures Extends(ConnOf(s), ConnOf(FillWindow(s)))
  {
    if !s.finSent { FillLoopGood(s, s.acked + s.window); }
  }

  /** fill_window fills the window as far as the stream allows and never past its right edge, but for
      the one byte by which a SYN that carries data overshoots it. */
  lemma FillWindowFills(s: Sender)
    requires Good(s)
    ensures Filled(s, FillWindow(s), s.acked + s.window)
    ensures OnlySent(s, FillWindow(s))
  {
    if !s.finSent {
      FillLoopFills(s, s.acked + s.window);
      FillLoopFrame(s, s.acked + s.window);
    }
  }

  /** Exactly when the window is overshot: by the SYN, with a small window and enough data waiting. */
  lemma OvershootExact(s: Sender)
    requires Good(s)
    ensures FillWindow(s).nextSeqno > s.nextSeqno && FillWindow(s).nextSeqno > s.acked + s.window
       <==> s.nextSeqno == 0 && s.window <= MAX_PAYLOAD_SIZE && s.window <= Size(s.stream)
  {
    FillWindowFills(s);
    if s.nextSeqno == 0 {
      var t := SendNext(s, s.window);
      SendNextGood(s, s.window);
      NextSegmentGenuine(s, s.window);
      FillLoopFills(t, s.window);
    }
  }

  /** The smallest overshoot: one byte waits when the SYN is sent into the initial window of one. */
  lemma SynOvershoots(isn: uint32)
    ensures var s := WriteIn(Senders.Initial(1, 1000, isn), [7]);
            FillWindow(s).nextSeqno == 2 > s.acked + s.window == 1
  {
    var s := WriteIn(Senders.Initial(1, 1000, isn), [7]);
    InitialGood(1, 1000, isn);
    OutsideGood(Senders.Initial(1, 1000, isn), [7]);
    OvershootExact(s);
    FillWindowFills(s);
  }

  lemma {:induction false} CreatedFull(s: Sender, end: nat)
    requires Good(s) && end <= s.acked + 65535
    ensures forall i :: 0 <= i < |Created(s, end)| - 1 ==> |Created(s, end)[i].payload| == MAX_PAYLOAD_SIZE
    decreases end - s.nextSeqno
  {
    if s.nextSeqno < end && NextSegment(s, end).Length() > 0 {
      SendNextGood(s, end);
      NextSegmentGenuine(s, end);
      CreatedFull(SendNext(s, end), end);
      if |NextSegment(s, end).payload| < MAX_PAYLOAD_SIZE { ShortStops(s, end); }
    }
  }

  /** All segments that one fill puts on the queue but the last are full. */
  lemma FullSegments(s: Sender)
    requires Good(s)
    ensures forall i :: 0 <= i < |Queued(s)| - 1 ==> |Queued(s)[i].payload| == MAX_PAYLOAD_SIZE
  {
    if !s.finSent { CreatedFull(s, s.acked + s.window); }
  }

  /** A segment that is not full has filled the window or drained the stream. */
  lemma ShortStops(s: Sender, end: nat)
    requires Good(s) && s.nextSeqno < end <= s.acked + 65535 && 0 < NextSegment(s, end).Length()
    requires |NextSegment(s, end).payload| < MAX_PAYLOAD_SIZE
    ensures Created(SendNext(s, end), end) == []
  {
    var t := SendNext(s, end);
    NextSegmentGenuine(s, end);
    if t.nextSeqno < end {
      ShortDrains(s, end);
      DrainedStops(t, end);
    }
  }

  lemma ShortDrains(s: Sender, end: nat)
    requires s.nextSeqno < end && |NextSegment(s, end).payload| < MAX_PAYLOAD_SIZE && !s.finSent
    requires SendNext(s, end).nextSeqno < end
    ensures var t := SendNext(s, end); Size(t.stream) == 0 && (t.stream.ended ==> t.finSent)
  {
  }

  lemma DrainedStops(t: Sender, end: nat)
    requires 0 < t.nextSeqno < end && Size(t.stream) == 0 && (t.stream.ended ==> t.finSent)
    ensures Created(t, end) == []
  {
    assert |ReadBytes(t.stream, PayloadRoom(t, end))| == 0;
  }

  // ---- ack_received ----

  lemma DropAckedSuffix(m: seq<Entry<TCPSegment>>, acked: nat) returns (k: nat)
    requires Sorted(m)
    ensures k <= |m| && DropAcked(m, acked) == m[k..]
    ensures forall i :: 0 <= i < k ==> m[i].key <= acked
    ensures forall i :: k <= i < |m| ==> m[i].key > acked
  {
    k := LowerBound(m, acked + 1);
    DropAckedPrefix(m, k, acked);
  }

  lemma {:induction false} DropAckedPrefix(m: seq<Entry<TCPSegment>>, k: nat, acked: nat)
    requires k <= |m|
    requires forall i :: 0 <= i < k ==> m[i].key <= acked
    requires forall i :: k <= i < |m| ==> m[i].key > acked
    ensures DropAcked(m, acked) == m[k..]
    decreases k
  {
    if k == 0 {
      DropAckedNone(m, acked);
    } else {
      DropAckedPrefix(m[1..], k - 1, acked);
      assert m[1..][k - 1..] == m[k..];
    }
  }

  lemma {:induction false} DropAckedNone(m: seq<Entry<TCPSegment>>, acked: nat)
    requires forall i :: 0 <= i < |m| ==> m[i].key > acked
    ensures DropAcked(m, acked) == m
    decreases m
  {
    if m != [] {
      DropAckedNone(m[1..], acked);
      assert m == [m[0]] + m[1..];
    }
  }

  lemma DropAckedTiled(m: seq<Entry<TCPSegment>>, acked: nat, top: nat, newAck: nat)
    requires Tiled(m, acked, top) && acked < newAck <= top
    ensures Tiled(DropAcked(m, newAck), newAck, top)
  {
    var k := DropAckedSuffix(m, newAck);
    SuffixTiled(m, k, acked, top, newAck);
  }

  lemma SuffixTiled(m: seq<Entry<TCPSegment>>, k: nat, acked: nat, top: nat, newAck: nat)
    requires Tiled(m, acked, top) && acked < newAck <= top && k <= |m|
    requires k > 0 ==> m[k - 1].key <= newAck
    requires k < |m| ==> m[k].key > newAck
    ensures Tiled(m[k..], newAck, top)
  {
    var n := m[k..];
    forall i, j | 0 <= i < j < |n| && j == i + 1 ensures StartOf(n[j]) == n[i].key {
      assert StartOf(m[k + j]) == m[k + i].key;
    }
    if 0 < k < |m| { assert StartOf(m[k]) == m[k - 1].key; }
  }

  lemma SuffixGenuine(m: seq<Entry<TCPSegment>>, out: seq<TCPSegment>, c: Conn, newAck: nat)
    requires Sorted(m) && AllGenuine(m, out, c)
    ensures AllGenuine(DropAcked(m, newAck), out, c)
  {
    var k := DropAckedSuffix(m, newAck);
    forall i | 0 <= i < |m[k..]| ensures GenuineEntry(m[k..][i], c) {
      assert GenuineEntry(m[k + i], c);
    }
  }

  lemma AdvanceCounted(s: Sender, newAck: nat)
    requires Counted(s) && s.acked < newAck <= s.nextSeqno
    ensures Counted(Advance(s, newAck)) && ConnOf(Advance(s, newAck)) == ConnOf(s)
  {
  }

  lemma AdvanceTiled(s: Sender, newAck: nat)
    requires Tiled(s.outstanding, s.acked, s.nextSeqno) && AllGenuine(s.outstanding, s.segmentsOut, ConnOf(s))
    requires s.acked < newAck <= s.nextSeqno
    ensures var t := Advance(s, newAck);
            && Tiled(t.outstanding, t.acked, t.nextSeqno)
            && AllGenuine(t.outstanding, t.segmentsOut, ConnOf(s))
  {
    DropAckedTiled(s.outstanding, s.acked, s.nextSeqno, newAck);
    SuffixGenuine(s.outstanding, s.segmentsOut, ConnOf(s), newAck);
  }

  /** Any acknowledgment, old, new, or made up: the tiling survives, even when a segment is only
      partly acknowledged, and the acknowledged mark never moves back or past what was sent. */
  lemma AckGood(s: Sender, ackno: uint32, windowSize: uint16)
    requires Good(s)
    ensures var t := AckReceived(s, ackno, windowSize);
            && Good(t) && ConnOf(t) == ConnOf(s) && t.stream == s.stream
            && s.acked <= t.acked <= t.nextSeqno == s.nextSeqno
            && (var v := Unwrap(ackno, s.isn, s.nextSeqno);
                t.acked == if s.acked < v <= s.nextSeqno then v else s.acked)
  {
    var newAck := Unwrap(ackno, s.isn, s.nextSeqno);
    if s.acked < newAck <= s.nextSeqno {
      AdvanceCounted(s, newAck);
      AdvanceTiled(s, newAck);
    }
  }

  // ---- tick ----

  /** A timeout resends exactly the oldest segment in flight, the one that holds the first
      unacknowledged sequence number; there always is one. */
  lemma TickGood(s: Sender, ms: nat)
    requires Good(s)
    ensures var t := Tick(s, ms);
            && Good(t) && ConnOf(t) == ConnOf(s)
            && t == s.(rto := t.rto, rtoBase := t.rtoBase, retransmissions := t.retransmissions,
                       segmentsOut := t.segmentsOut)
            && (!s.running ==> t == s)
            && (s.running && !TimesOut(s, ms) ==> t == s.(rto := s.rto - ms))
            && (TimesOut(s, ms) ==>
                  && s.outstanding != []
                  && StartOf(s.outstanding[0]) <= s.acked < s.outstanding[0].key
                  && t.segmentsOut == s.segmentsOut + [s.outstanding[0].value])
  {
    if TimesOut(s, ms) {
      assert GenuineEntry(s.outstanding[0], ConnOf(s));
      assert SomeGenuine(s.outstanding[0].value, ConnOf(s));
    }
  }

  lemma SendEmptyGood(s: Sender)
    requires Good(s)
    ensures Good(SendEmpty(s)) && ConnOf(SendEmpty(s)) == ConnOf(s)
    ensures var t := SendEmpty(s);
            && |t.segmentsOut| == |s.segmentsOut| + 1 && s.segmentsOut <= t.segmentsOut
            && t == s.(segmentsOut := t.segmentsOut)
            && t.segmentsOut[|s.segmentsOut|].Length() == 0
            && Genuine(t.segmentsOut[|s.segmentsOut|], s.nextSeqno, ConnOf(s)) && Made(t.segmentsOut[|s.segmentsOut|])
  {
    var seg := SendEmpty(s).segmentsOut[|s.segmentsOut|];
    assert Genuine(seg, s.nextSeqno, ConnOf(s));
    assert SomeGenuine(seg, ConnOf(s));
  }

  // ---- the application and the network side ----

  function WriteIn(s: Sender, data: seq<byte>): Sender { s.(stream := Write(s.stream, data)) }

  function EndIn(s: Sender): Sender { s.(stream := EndInput(s.stream)) }

  function Dequeue(s: Sender): Sender
    requires s.segmentsOut != []
  {
    s.(segmentsOut := s.segmentsOut[1..])
  }

  /** Writing, ending the input and taking a queued segment change nothing that was sent, as long as
      the writer stops at the end of its input. */
  lemma OutsideGood(s: Sender, data: seq<byte>)
    requires Good(s)
    ensures !s.stream.ended ==> Good(WriteIn(s, data)) && ConnOf(WriteIn(s, data)) == ConnOf(s)
    ensures Good(EndIn(s)) && ConnOf(EndIn(s)) == ConnOf(s)
    ensures s.segmentsOut != [] ==> Good(Dequeue(s)) && ConnOf(Dequeue(s)) == ConnOf(s)
  {
    assert WriteIn(s, data).stream.written[..s.stream.read] == s.stream.written[..s.stream.read];
  }
}
