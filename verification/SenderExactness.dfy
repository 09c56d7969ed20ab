/** What the sender's operations do, to the last field: which segments a fill makes, what an
    acknowledgment changes, and over whole runs what is ever queued and which window holds. */
module SenderExactness {
  import opened FixedWidth
  import opened WrappingIntegers
  import opened OrderedMaps
  import opened Segments
  import opened Senders
  import opened SenderInvariants
  import opened SenderRuns

  // ---- fill_window ----

  // the sequence numbers that the first i segments take
  function Taking(segs: seq<TCPSegment>, i: nat): nat
    requires i <= |segs|
  {
    if i == 0 then 0 else segs[0].Length() + Taking(segs[1..], i - 1)
  }

  // a header with nothing but a number, SYN and FIN
  function Bare(seqno: uint32, syn: bool, fin: bool): TCPHeader {
    TCPHeader(0, 0, seqno, 0, 5, false, false, false, false, syn, fin, 0, 0, 0)
  }

  /** What the segment at absolute number a must be, byte by byte and flag by flag, if the stream holds
      `written` and the window ends at `end`. */
  ghost predicate Due(seg: TCPSegment, a: nat, isn: uint32, written: seq<byte>, ended: bool, end: nat) {
    var from := if a == 0 then 0 else a - 1;
    && from <= |written| && a < end
    && (var to := from + Min(Min(1452, end - a), |written| - from);
        && seg.payload == written[from..to]
        && seg.header == Bare(Wrap(a, isn), a == 0, ended && to == |written| && a + AsNat(a == 0) + to - from < end))
  }

  lemma NextPayload(s: Sender, end: nat)
    requires Counted(s) && s.nextSeqno < end && !s.finSent
    ensures s.stream.read == if s.nextSeqno == 0 then 0 else s.nextSeqno - 1
    ensures var from, w := s.stream.read, s.stream.written;
            NextSegment(s, end).payload == w[from..from + Min(Min(1452, end - s.nextSeqno), |w| - from)]
  {
  }

  lemma NextHeader(s: Sender, end: nat)
    requires s.nextSeqno < end && !s.finSent
    ensures var seg := NextSegment(s, end);
            seg.header == Bare(Wrap(s.nextSeqno, s.isn), s.nextSeqno == 0,
                               && s.stream.ended && s.stream.read + |seg.payload| == |s.stream.written|
                               && s.nextSeqno + AsNat(s.nextSeqno == 0) + |seg.payload| < end)
  {
  }

  lemma NextSegmentDue(s: Sender, end: nat)
    requires Counted(s) && s.nextSeqno < end && !s.finSent
    ensures Due(NextSegment(s, end), s.nextSeqno, s.isn, s.stream.written, s.stream.ended, end)
  {
    NextPayload(s, end);
    NextHeader(s, end);
  }

  lemma FinStops(s: Sender, end: nat)
    requires Counted(s) && s.finSent
    ensures Created(s, end) == []
  {
    if s.nextSeqno < end { DrainedStops(s, end); }
  }

  lemma FirstDue(s: Sender, end: nat)
    requires Counted(s) && Created(s, end) != []
    ensures !s.finSent
    ensures Due(Created(s, end)[0], s.nextSeqno, s.isn, s.stream.written, s.stream.ended, end)
  {
    if s.finSent { FinStops(s, end); }
    NextSegmentDue(s, end);
  }

  lemma SendNextFrame(s: Sender, end: nat)
    requires s.nextSeqno < end
    ensures var t := SendNext(s, end);
            t.isn == s.isn && t.acked == s.acked
            && t.stream.written == s.stream.written && t.stream.ended == s.stream.ended
  {
  }

  /** Each segment is due at the number just past the one before it. */
  ghost predicate AllDue(segs: seq<TCPSegment>, a: nat, isn: uint32, written: seq<byte>, ended: bool, end: nat) {
    segs == [] ||
    (Due(segs[0], a, isn, written, ended, end) && AllDue(segs[1..], a + segs[0].Length(), isn, written, ended, end))
  }

  lemma {:induction false} CreatedDue(s: Sender, end: nat)
    requires Counted(s) && end <= s.acked + 65535
    ensures AllDue(Created(s, end), s.nextSeqno, s.isn, s.stream.written, s.stream.ended, end)
    decreases end - s.nextSeqno
  {
    if Created(s, end) != [] {
      FirstDue(s, end);
      SendNextCounted(s, end);
      SendNextFrame(s, end);
      CreatedDue(SendNext(s, end), end);
      assert Created(s, end)[1..] == Created(SendNext(s, end), end);
    }
  }

  lemma MadeDue(s: Sender, segs: seq<TCPSegment>)
    requires Counted(s) && segs == MadeBy(s)
    ensures AllDue(segs, s.nextSeqno, s.isn, s.stream.written, s.stream.ended, s.acked + s.window)
  {
    if !s.finSent { CreatedDue(s, s.acked + s.window); }
  }

  /** Every segment that fill_window queues is exactly the one that is due at its number. */
  lemma FillExact(s: Sender, segs: seq<TCPSegment>)
    requires Counted(s) && segs == Queued(s)
    ensures AllDue(segs, s.nextSeqno, s.isn, s.stream.written, s.stream.ended, s.acked + s.window)
  {
    MadeDue(s, segs);
  }

  // the segments, without their keys
  function Kept(m: seq<Entry<TCPSegment>>): (segs: seq<TCPSegment>)
    ensures |segs| == |m|
  {
    seq(|m|, i requires 0 <= i < |m| => m[i].value)
  }

  lemma KeptSnoc(m: seq<Entry<TCPSegment>>, e: Entry<TCPSegment>)
    ensures Kept(m + [e]) == Kept(m) + [e.value]
  {
  }

  lemma {:induction false} FillLoopKeeps(s: Sender, end: nat)
    requires Good(s) && end <= s.acked + 65535
    ensures Kept(FillLoop(s, end).outstanding) == Kept(s.outstanding) + Created(s, end)
    decreases end - s.nextSeqno
  {
    if s.nextSeqno < end && NextSegment(s, end).Length() > 0 {
      var t, seg := SendNext(s, end), NextSegment(s, end);
      SendNextGood(s, end);
      KeptSnoc(s.outstanding, Entry(t.nextSeqno, seg));
      FillLoopKeeps(t, end);
      Regroup(Kept(s.outstanding), seg, Created(t, end));
    }
  }

  /** What is queued is also kept for retransmission, behind what was kept before. */
  lemma FillKeepsQueued(s: Sender, segs: seq<TCPSegment>)
    requires Good(s) && segs == Queued(s)
    ensures Kept(FillWindow(s).outstanding) == Kept(s.outstanding) + segs
  {
    FillKeepsMade(s, segs);
  }

  lemma FillKeepsMade(s: Sender, segs: seq<TCPSegment>)
    requires Good(s) && segs == MadeBy(s)
    ensures Kept(FillWindow(s).outstanding) == Kept(s.outstanding) + segs
  {
    if !s.finSent { FillLoopKeeps(s, s.acked + s.window); }
  }

  // ---- ack_received ----

  lemma DropAckedMembers(m: seq<Entry<TCPSegment>>, acked: nat)
    requires Sorted(m)
    ensures Sorted(DropAcked(m, acked))
    ensures forall e :: e in DropAcked(m, acked) <==> e in m && e.key > acked
  {
    var k := DropAckedSuffix(m, acked);
    forall e | e in m && e.key > acked ensures e in m[k..] {
      var i :| 0 <= i < |m| && m[i] == e;
      assert m[k..][i - k] == e;
    }
  }

  /** An acknowledgment of the unsent changes nothing. Any other queues nothing, and drops from the segments
      kept for retransmission exactly those that lie wholly below the mark; the timer restarts if it
      moved the mark, stops if nothing is left, and is left alone otherwise. */
  lemma AckExact(s: Sender, ackno: uint32, windowSize: uint16)
    requires Good(s)
    ensures var t, v := AckReceived(s, ackno, windowSize), Unwrap(ackno, s.isn, s.nextSeqno);
            && (v > s.nextSeqno ==> t == s)
            && t == s.(acked := t.acked, window := t.window, windowZero := t.windowZero, running := t.running,
                       rto := t.rto, retransmissions := t.retransmissions, outstanding := t.outstanding)
            && t.acked == (if s.acked < v <= s.nextSeqno then v else s.acked)
            && Sorted(t.outstanding) && (forall e :: e in t.outstanding <==> e in s.outstanding && e.key > t.acked)
            && (t.running <==> t.acked < t.nextSeqno)
            && (t.acked > s.acked ==> t.rto == t.initialRto && t.retransmissions == 0)
            && (t.acked == s.acked ==> t.rto == s.rto && t.retransmissions == s.retransmissions)
  {
    var v := Unwrap(ackno, s.isn, s.nextSeqno);
    if s.acked < v <= s.nextSeqno {
      DropAckedMembers(s.outstanding, v);
    } else {
      NoneBelow(s);
    }
  }

  lemma NoneBelow(s: Sender)
    requires Good(s)
    ensures forall e :: e in s.outstanding ==> e.key > s.acked
  {
  }

  // ---- what is ever queued ----

  // what one event puts on the queue
  function Emitted(t: Tracked, e: Event): seq<TCPSegment> {
    var s := t.sender;
    match e
    case FillEvent => Queued(s)
    case TickEvent(ms) => if s.running && s.rto <= ms && s.outstanding != [] then [s.outstanding[0].value] else []
    case EmptyEvent => [TCPSegment(Bare(Wrap(s.nextSeqno, s.isn), false, false), [])]
    case _ => []
  }

  ghost function Emissions(t: Tracked, events: seq<Event>): seq<TCPSegment>
    decreases events
  {
    if events == [] || !Allowed(t, events[0]) then []
    else Emitted(t, events[0]) + Emissions(Step(t, events[0]), events[1..])
  }

  // what was taken from the queue
  ghost function Taken(t: Tracked, events: seq<Event>): seq<TCPSegment>
    decreases events
  {
    if events == [] || !Allowed(t, events[0]) then []
    else (if events[0].DequeueEvent? then [t.sender.segmentsOut[0]] else [])
         + Taken(Step(t, events[0]), events[1..])
  }

  lemma TickQueue(t: Tracked, ms: nat)
    requires Good(t.sender)
    ensures Step(t, TickEvent(ms)).sender.segmentsOut == t.sender.segmentsOut + Emitted(t, TickEvent(ms))
  {
    TickGood(t.sender, ms);
  }

  lemma AckQueue(t: Tracked, ackno: uint32, windowSize: uint16)
    requires Good(t.sender)
    ensures Step(t, AckEvent(ackno, windowSize)).sender.segmentsOut == t.sender.segmentsOut
  {
    AckExact(t.sender, ackno, windowSize);
  }

  lemma FillQueue(t: Tracked)
    ensures Step(t, FillEvent).sender.segmentsOut == t.sender.segmentsOut + Emitted(t, FillEvent)
  {
    FillWindowQueues(t.sender);
  }

  lemma StepQueue(t: Tracked, e: Event)
    requires Good(t.sender) && Allowed(t, e)
    ensures (if e.DequeueEvent? then [t.sender.segmentsOut[0]] else []) + Step(t, e).sender.segmentsOut
         == t.sender.segmentsOut + Emitted(t, e)
  {
    match e
    case FillEvent => FillQueue(t);
    case AckEvent(ackno, windowSize) => AckQueue(t, ackno, windowSize);
    case TickEvent(ms) => TickQueue(t, ms);
    case _ =>
  }

  lemma Shuffle(a: seq<TCPSegment>, b: seq<TCPSegment>, q: seq<TCPSegment>, m: seq<TCPSegment>,
                p: seq<TCPSegment>, r: seq<TCPSegment>, n: seq<TCPSegment>)
    requires a + p == q + m && b + r == p + n
    ensures (a + b) + r == q + (m + n)
  {
    assert (a + b) + r == a + (b + r);
    assert a + (p + n) == (a + p) + n;
  }

  /** Over every run, what was taken from the queue and what is still in it are, in order, what was in it
      and what was emitted: the segments of the fills, the oldest segment in flight for each timeout, an
      empty segment for each request, and nothing else. */
  lemma {:induction false} RunQueue(t: Tracked, events: seq<Event>, u: Tracked)
    requires RunInvariant(t) && Reaches(t, events, u)
    ensures Taken(t, events) + u.sender.segmentsOut == t.sender.segmentsOut + Emissions(t, events)
    decreases events
  {
    if events != [] {
      var v := Step(t, events[0]);
      StepGood(t, events[0]);
      StepAccounted(t, events[0]);
      StepBacksOff(t, events[0]);
      StepQueue(t, events[0]);
      RunQueue(v, events[1..], u);
      Shuffle(if events[0].DequeueEvent? then [t.sender.segmentsOut[0]] else [], Taken(v, events[1..]),
              t.sender.segmentsOut, Emitted(t, events[0]), v.sender.segmentsOut, u.sender.segmentsOut,
              Emissions(v, events[1..]));
    }
  }

  lemma ReachableQueue(capacity: nat, retxTimeout: uint16, isn: uint32, events: seq<Event>, u: Tracked)
    requires Reaches(Begin(capacity, retxTimeout, isn), events, u)
    ensures Taken(Begin(capacity, retxTimeout, isn), events) + u.sender.segmentsOut
         == Emissions(Begin(capacity, retxTimeout, isn), events)
  {
    BeginHolds(capacity, retxTimeout, isn);
    RunQueue(Begin(capacity, retxTimeout, isn), events, u);
  }

  // ---- the window ----

  /** The window of the last acknowledgment that was not ignored; `before` if there is none. */
  ghost function LastWindow(t: Tracked, events: seq<Event>, before: uint16): uint16
    decreases events
  {
    if events == [] || !Allowed(t, events[0]) then before
    else LastWindow(Step(t, events[0]), events[1..],
                    if Heeded(t.sender, events[0]) then events[0].windowSize else before)
  }

  lemma StepWindow(t: Tracked, e: Event)
    requires Good(t.sender) && Allowed(t, e)
    ensures Step(t, e).sender.window ==
            if !Heeded(t.sender, e) then t.sender.window else if e.windowSize == 0 then 1 else e.windowSize
  {
    match e
    case FillEvent => FillWindowFills(t.sender);
    case TickEvent(ms) => TickGood(t.sender, ms);
    case _ =>
  }

  lemma {:induction false} RunWindow(t: Tracked, events: seq<Event>, u: Tracked, before: uint16)
    requires RunInvariant(t) && Reaches(t, events, u)
    requires t.sender.window == if before == 0 then 1 else before
    ensures var last := LastWindow(t, events, before); u.sender.window == if last == 0 then 1 else last
    decreases events
  {
    if events != [] {
      StepGood(t, events[0]);
      StepAccounted(t, events[0]);
      StepBacksOff(t, events[0]);
      StepWindow(t, events[0]);
      var now := if Heeded(t.sender, events[0]) then events[0].windowSize else before;
      RunWindow(Step(t, events[0]), events[1..], u, now);
    }
  }

  /** Over every run the window is that of the last acknowledgment that was not ignored, one if that was
      zero, and one before any. */
  lemma ReachableWindow(capacity: nat, retxTimeout: uint16, isn: uint32, events: seq<Event>, u: Tracked)
    requires Reaches(Begin(capacity, retxTimeout, isn), events, u)
    ensures var last := LastWindow(Begin(capacity, retxTimeout, isn), events, 1);
            u.sender.window == if last == 0 then 1 else last
  {
    BeginHolds(capacity, retxTimeout, isn);
    RunWindow(Begin(capacity, retxTimeout, isn), events, u, 1);
  }

  // ---- what is in flight ----

  lemma {:induction false} TilesSum(m: seq<Entry<TCPSegment>>)
    requires m != [] && Abut(m)
    ensures Taking(Kept(m), |m|) == m[|m| - 1].key - StartOf(m[0])
    decreases m
  {
    assert Kept(m)[1..] == Kept(m[1..]);
    if |m| > 1 {
      AbutTail(m);
      TilesSum(m[1..]);
    }
  }

  lemma AbutTail(m: seq<Entry<TCPSegment>>)
    requires |m| > 1 && Abut(m)
    ensures Abut(m[1..]) && StartOf(m[1]) == m[0].key
  {
    var n := m[1..];
    forall i, j | 0 <= i < j < |n| && j == i + 1 ensures StartOf(n[j]) == n[i].key {
      assert StartOf(m[j + 1]) == m[i + 1].key;
    }
    assert StartOf(m[1]) == m[0].key;
  }

  /** The bytes in flight are the total length of the segments kept for retransmission, less what of the
      first of them is acknowledged. */
  lemma FlightExact(s: Sender)
    requires Good(s)
    ensures s.outstanding == [] ==> BytesInFlight(s) == 0
    ensures s.outstanding != [] ==>
              BytesInFlight(s) + (s.acked - StartOf(s.outstanding[0])) == Taking(Kept(s.outstanding), |s.outstanding|)
  {
    if s.outstanding != [] { TilesSum(s.outstanding); }
  }
}
