/** The sender over whole runs: any interleaving of writes, fills, acknowledgments (genuine or not)
    and ticks. */
module SenderRuns {
  import opened FixedWidth
  import opened WrappingIntegers
  import opened ByteStreams
  import opened Segments
  import opened Senders
  import opened Connections
  import opened SenderInvariants

  datatype Event =
    | WriteEvent(data: seq<byte>)
    | EndEvent
    | FillEvent
    | AckEvent(ackno: uint32, windowSize: uint16)
    | TickEvent(ms: nat)
    | EmptyEvent
    | DequeueEvent

  /** A sender with its history: every segment that fill_window put on the queue, the time and the timeouts since
      the timer was started or new data was last acknowledged, the value last loaded into the timer,
      and the time since then. */
  datatype Tracked = Tracked(
    sender: Sender,
    log: seq<TCPSegment>,
    elapsed: nat,
    timeouts: nat,
    loaded: nat,
    waited: nat)

  function Begin(capacity: nat, retxTimeout: uint16, isn: uint32): Tracked {
    Tracked(Senders.Initial(capacity, retxTimeout, isn), [], 0, 0, retxTimeout, 0)
  }

  // the writer stops at the end of its input; only a queued segment can be taken
  predicate Allowed(t: Tracked, e: Event) {
    && (e.WriteEvent? ==> !t.sender.stream.ended)
    && (e.DequeueEvent? ==> t.sender.segmentsOut != [])
  }

  function Step(t: Tracked, e: Event): Tracked
    requires Allowed(t, e)
  {
    var s := t.sender;
    match e
    case WriteEvent(data) => t.(sender := WriteIn(s, data))
    case EndEvent => t.(sender := EndIn(s))
    case FillEvent => t.(sender := FillWindow(s), log := t.log + Queued(s))
    case AckEvent(ackno, windowSize) =>
      var u := AckReceived(s, ackno, windowSize);
      if u.acked > s.acked then Tracked(u, t.log, 0, 0, u.rto, 0) else t.(sender := u)
    case TickEvent(ms) =>
      var u := Tick(s, ms);
      if !s.running then t
      else if TimesOut(s, ms) then Tracked(u, t.log, t.elapsed + ms, t.timeouts + 1, u.rto, 0)
      else t.(sender := u, elapsed := t.elapsed + ms, waited := t.waited + ms)
    case EmptyEvent => t.(sender := SendEmpty(s))
    case DequeueEvent => t.(sender := Dequeue(s))
  }

  /** The states of all runs. */
  ghost predicate Reaches(t: Tracked, events: seq<Event>, u: Tracked)
    decreases events
  {
    if events == [] then t == u
    else Allowed(t, events[0]) && Reaches(Step(t, events[0]), events[1..], u)
  }

  // ---- accounting ----

  function Payloads(log: seq<TCPSegment>): seq<byte> {
    if log == [] then [] else Payloads(log[..|log| - 1]) + log[|log| - 1].payload
  }

  function TotalLength(log: seq<TCPSegment>): nat {
    if log == [] then 0 else TotalLength(log[..|log| - 1]) + log[|log| - 1].Length()
  }

  /** The first segment ever made is the SYN and no other is; only the last may be the FIN; the
      payloads are the bytes read from the stream, in order; the lengths add up; no header says more than
      number, SYN and FIN. */
  ghost predicate Accounted(log: seq<TCPSegment>, c: Conn) {
    && Payloads(log) == c.sent
    && TotalLength(log) == Top(c)
    && (forall i :: 0 <= i < |log| ==> (log[i].header.syn <==> i == 0))
    && (forall i :: 0 <= i < |log| ==> (log[i].header.fin <==> i == |log| - 1 && c.closed))
    && (log == [] ==> !c.closed)
    && (forall i :: 0 <= i < |log| ==> Made(log[i]))
  }

  lemma AppendAccounted(log: seq<TCPSegment>, seg: TCPSegment, c: Conn, d: Conn)
    requires Accounted(log, c) && !c.closed && Made(seg)
    requires seg.header.syn <==> Top(c) == 0
    requires seg.header.fin <==> d.closed
    requires Top(d) == Top(c) + seg.Length() && d.sent == c.sent + seg.payload
    ensures Accounted(log + [seg], d)
  {
    LengthPositive(log, c);
    AppendSums(log, seg);
  }

  lemma AppendSums(log: seq<TCPSegment>, seg: TCPSegment)
    ensures Payloads(log + [seg]) == Payloads(log) + seg.payload
    ensures TotalLength(log + [seg]) == TotalLength(log) + seg.Length()
  {
    assert (log + [seg])[..|log|] == log;
  }

  lemma SendNextSent(s: Sender, end: nat)
    requires s.nextSeqno < end
    ensures ConnOf(SendNext(s, end)).sent == ConnOf(s).sent + NextSegment(s, end).payload
  {
    var m := Min(PayloadRoom(s, end), Size(s.stream));
    var w, r := s.stream.written, s.stream.read;
    assert w[..r + m] == w[..r] + w[r..r + m];
  }

  lemma SendNextAccounted(log: seq<TCPSegment>, s: Sender, end: nat)
    requires Counted(s) && Accounted(log, ConnOf(s)) && s.nextSeqno < end && NextSegment(s, end).Length() > 0
    ensures Accounted(log + [NextSegment(s, end)], ConnOf(SendNext(s, end)))
  {
    NextSegmentGenuine(s, end);
    SendNextSent(s, end);
    AppendAccounted(log, NextSegment(s, end), ConnOf(s), ConnOf(SendNext(s, end)));
  }

  lemma LengthPositive(log: seq<TCPSegment>, c: Conn)
    requires Accounted(log, c)
    ensures log == [] <==> Top(c) == 0
  {
    if log != [] { FirstCounts(log); }
  }

  lemma {:induction false} FirstCounts(log: seq<TCPSegment>)
    requires log != []
    ensures TotalLength(log) >= log[0].Length()
    decreases log
  {
    if |log| > 1 { FirstCounts(log[..|log| - 1]); }
  }

  lemma {:induction false} FillLoopAccounted(log: seq<TCPSegment>, s: Sender, end: nat)
    requires Counted(s) && end <= s.acked + 65535 && Accounted(log, ConnOf(s))
    ensures Accounted(log + Created(s, end), ConnOf(FillLoop(s, end)))
    decreases end - s.nextSeqno
  {
    if s.nextSeqno < end && NextSegment(s, end).Length() > 0 {
      var seg, t := NextSegment(s, end), SendNext(s, end);
      SendNextAccounted(log, s, end);
      SendNextCounted(s, end);
      FillLoopAccounted(log + [seg], t, end);
      Regroup(log, seg, Created(t, end));
    } else {
      assert log + [] == log;
    }
  }

  // ---- back-off ----

  // initial * 2^k
  function Doubled(initial: nat, k: nat): nat {
    if k == 0 then initial else 2 * Doubled(initial, k - 1)
  }

  // initial * (1 + 2 + ... + 2^(k-1))
  function Series(initial: nat, k: nat): nat {
    if k == 0 then 0 else Series(initial, k - 1) + Doubled(initial, k - 1)
  }

  // how often the timeout has been doubled after k timeouts in a row: every 2^32 timeouts the counter,
  // and with it the doubling, starts over
  function Doublings(k: nat): nat {
    if k == 0 then 0 else (k - 1) % 0x1_0000_0000 + 1
  }

  /** What the timer is loaded with after k timeouts in a row, in 32 bits. */
  function Reload(initial: nat, k: nat): nat {
    Doubled(initial, Doublings(k)) % 0x1_0000_0000
  }

  function TotalReload(initial: nat, k: nat): nat {
    if k == 0 then 0 else TotalReload(initial, k - 1) + Reload(initial, k - 1)
  }

  /** The timer counts down what was loaded; unless a zero window was seen, that is `Reload`, and the time
      passed makes up for all the reloads before. The base doubles in any case. */
  ghost predicate BackedOff(t: Tracked) {
    var s, k := t.sender, t.timeouts;
    && s.retransmissions == k % 0x1_0000_0000
    && (!s.running ==> k == 0 && t.elapsed == 0 && t.waited == 0)
    && t.waited + s.rto == t.loaded
    && (k > 0 ==> s.rtoBase == Reload(s.initialRto, k))
    && (!s.windowZero ==>
          && t.loaded == Reload(s.initialRto, k)
          && t.elapsed + s.rto >= TotalReload(s.initialRto, k + 1))
  }

  lemma DoublingsStep(k: nat)
    ensures Doublings(k + 1) == if k % 0x1_0000_0000 == 0 then 1 else Doublings(k) + 1
  {
  }

  lemma WholeTurns(x: nat, q: nat)
    ensures (x + 0x1_0000_0000 * q) % 0x1_0000_0000 == x % 0x1_0000_0000
  {
  }

  lemma DoubleInRange(x: nat)
    ensures x % 0x1_0000_0000 * 2 % 0x1_0000_0000 == 2 * x % 0x1_0000_0000
  {
    WholeTurns(x % 0x1_0000_0000 * 2, 2 * (x / 0x1_0000_0000));
  }

  /** One more timeout computes the next reload. */
  lemma BackoffIsReload(t: Tracked)
    requires BackedOff(t)
    ensures Backoff(t.sender) == Reload(t.sender.initialRto, t.timeouts + 1)
  {
    var s, k := t.sender, t.timeouts;
    DoublingsStep(k);
    if k % 0x1_0000_0000 == 0 {
      assert Doubled(s.initialRto, 1) == 2 * Doubled(s.initialRto, 0);
    } else {
      DoubleInRange(Doubled(s.initialRto, Doublings(k)));
    }
  }

  lemma CounterStep(k: nat)
    ensures (k % 0x1_0000_0000 + 1) % 0x1_0000_0000 == (k + 1) % 0x1_0000_0000
  {
  }

  lemma TickBacksOff(t: Tracked, ms: nat)
    requires TimerOk(t.sender) && BackedOff(t)
    ensures BackedOff(Step(t, TickEvent(ms)))
  {
    if TimesOut(t.sender, ms) {
      BackoffIsReload(t);
      CounterStep(t.timeouts);
    }
  }

  lemma ReloadStart(initial: uint16)
    ensures TotalReload(initial, 1) == initial == Reload(initial, 0)
  {
    assert TotalReload(initial, 0) == 0;
  }

  // ---- all runs ----

  ghost predicate RunInvariant(t: Tracked) {
    Good(t.sender) && Accounted(t.log, ConnOf(t.sender)) && BackedOff(t)
  }

  lemma OutsideStepGood(t: Tracked, e: Event)
    requires Good(t.sender) && Allowed(t, e)
    requires e.WriteEvent? || e.EndEvent? || e.DequeueEvent? || e.EmptyEvent?
    ensures Good(Step(t, e).sender) && ConnOf(Step(t, e).sender) == ConnOf(t.sender)
  {
    OutsideGood(t.sender, if e.WriteEvent? then e.data else []);
    SendEmptyGood(t.sender);
  }

  ghost predicate GoodStep(s: Sender, t: Sender) {
    Good(t) && Extends(ConnOf(s), ConnOf(t)) && s.acked <= t.acked
  }

  lemma FillStepGood(t: Tracked)
    requires Good(t.sender)
    ensures GoodStep(t.sender, Step(t, FillEvent).sender)
  {
    FillWindowGood(t.sender);
    FillFrame(t.sender);
  }

  lemma AckStepGood(t: Tracked, ackno: uint32, windowSize: uint16)
    requires Good(t.sender)
    ensures GoodStep(t.sender, Step(t, AckEvent(ackno, windowSize)).sender)
  {
    AckGood(t.sender, ackno, windowSize);
  }

  lemma TickStepGood(t: Tracked, ms: nat)
    requires Good(t.sender)
    ensures GoodStep(t.sender, Step(t, TickEvent(ms)).sender)
  {
    TickGood(t.sender, ms);
  }

  lemma StepGood(t: Tracked, e: Event)
    requires Good(t.sender) && Allowed(t, e)
    ensures GoodStep(t.sender, Step(t, e).sender)
  {
    match e
    case FillEvent => FillStepGood(t);
    case AckEvent(ackno, windowSize) => AckStepGood(t, ackno, windowSize);
    case TickEvent(ms) => TickStepGood(t, ms);
    case _ => OutsideStepGood(t, e);
  }

  lemma FillAccounted(log: seq<TCPSegment>, s: Sender)
    requires Counted(s) && Accounted(log, ConnOf(s))
    ensures Accounted(log + Queued(s), ConnOf(FillWindow(s)))
  {
    if s.finSent { assert log + [] == log; } else { FillLoopAccounted(log, s, s.acked + s.window); }
  }

  lemma StepAccounted(t: Tracked, e: Event)
    requires Good(t.sender) && Accounted(t.log, ConnOf(t.sender)) && Allowed(t, e)
    ensures Accounted(Step(t, e).log, ConnOf(Step(t, e).sender))
  {
    var s := t.sender;
    match e
    case FillEvent => FillAccounted(t.log, s);
    case AckEvent(ackno, windowSize) => AckGood(s, ackno, windowSize);
    case TickEvent(ms) => TickGood(s, ms);
    case _ => OutsideStepGood(t, e);
  }

  lemma StepBacksOff(t: Tracked, e: Event)
    requires Good(t.sender) && BackedOff(t) && Allowed(t, e)
    ensures BackedOff(Step(t, e))
  {
    match e
    case TickEvent(ms) => TickBacksOff(t, ms);
    case FillEvent => FillBacksOff(t);
    case AckEvent(ackno, windowSize) => AckBacksOff(t, ackno, windowSize);
    case _ =>
  }

  lemma FillBacksOff(t: Tracked)
    requires Good(t.sender) && BackedOff(t)
    ensures BackedOff(Step(t, FillEvent))
  {
    FillWindowGood(t.sender);
    FillFrame(t.sender);
    ReloadStart(t.sender.initialRto);
  }

  ghost predicate SameTimer(s: Sender, t: Sender) {
    && t.rto == s.rto && t.rtoBase == s.rtoBase && t.initialRto == s.initialRto
    && t.retransmissions == s.retransmissions && t.windowZero == s.windowZero && t.acked == s.acked
    && t.stream.error == s.stream.error && t.stream.capacity == s.stream.capacity && t.isn == s.isn
    && (s.running ==> t.running)
  }

  lemma FillFrame(s: Sender)
    ensures SameTimer(s, FillWindow(s))
  {
    if !s.finSent { FillLoopTimer(s, s.acked + s.window); }
  }

  lemma {:induction false} FillLoopTimer(s: Sender, end: nat)
    ensures SameTimer(s, FillLoop(s, end))
    decreases end - s.nextSeqno
  {
    if s.nextSeqno < end && NextSegment(s, end).Length() > 0 { FillLoopTimer(SendNext(s, end), end); }
  }

  // an acknowledgment of something new resets the timer, any other leaves it alone
  lemma AckTimer(s: Sender, ackno: uint32, windowSize: uint16)
    requires Good(s)
    ensures var t := AckReceived(s, ackno, windowSize);
            && t.initialRto == s.initialRto && (s.windowZero ==> t.windowZero)
            && (t.acked > s.acked ==> t.rto == t.initialRto && t.retransmissions == 0)
            && (t.acked <= s.acked ==>
                  t.running == s.running && t.rto == s.rto && t.rtoBase == s.rtoBase
                  && t.retransmissions == s.retransmissions)
  {
  }

  lemma AckBacksOff(t: Tracked, ackno: uint32, windowSize: uint16)
    requires Good(t.sender) && BackedOff(t)
    ensures BackedOff(Step(t, AckEvent(ackno, windowSize)))
  {
    AckTimer(t.sender, ackno, windowSize);
    var u := Step(t, AckEvent(ackno, windowSize));
    if u.sender.acked > t.sender.acked {
      ReloadStart(u.sender.initialRto);
    } else {
      BackedOffKept(t, u);
    }
  }

  lemma BackedOffKept(t: Tracked, u: Tracked)
    requires BackedOff(t) && u == t.(sender := u.sender)
    requires u.sender.initialRto == t.sender.initialRto && (t.sender.windowZero ==> u.sender.windowZero)
    requires u.sender.running == t.sender.running && u.sender.rto == t.sender.rto
    requires u.sender.rtoBase == t.sender.rtoBase && u.sender.retransmissions == t.sender.retransmissions
    ensures BackedOff(u)
  {
  }

  lemma BeginHolds(capacity: nat, retxTimeout: uint16, isn: uint32)
    ensures RunInvariant(Begin(capacity, retxTimeout, isn))
  {
    InitialGood(capacity, retxTimeout, isn);
    ReloadStart(retxTimeout);
  }

  /** The invariant of every run; what was sent only grows. */
  lemma {:induction false} RunKeeps(t: Tracked, events: seq<Event>, u: Tracked)
    requires RunInvariant(t) && Reaches(t, events, u)
    ensures RunInvariant(u) && Extends(ConnOf(t.sender), ConnOf(u.sender)) && t.sender.acked <= u.sender.acked
    decreases events
  {
    if events != [] {
      var v := Step(t, events[0]);
      StepGood(t, events[0]);
      StepAccounted(t, events[0]);
      StepBacksOff(t, events[0]);
      RunKeeps(v, events[1..], u);
      ExtendsTrans(ConnOf(t.sender), ConnOf(v.sender), ConnOf(u.sender));
    }
  }

  /** In every reachable state: at most 65536 sequence numbers are in flight; the segments in flight
      tile them and the map is empty exactly when nothing is unacknowledged; the timer runs exactly
      then; a stopped timer is fully reset. */
  lemma ReachableSender(capacity: nat, retxTimeout: uint16, isn: uint32, events: seq<Event>, u: Tracked)
    requires Reaches(Begin(capacity, retxTimeout, isn), events, u)
    ensures var s := u.sender;
            && 0 <= BytesInFlight(s) == Top(ConnOf(s)) - s.acked <= MAX_IN_FLIGHT
            && Size(s.stream) <= s.stream.capacity == capacity
            && Tiled(s.outstanding, s.acked, s.nextSeqno)
            && (forall i :: 0 <= i < |s.outstanding| ==> GenuineEntry(s.outstanding[i], ConnOf(s)))
            && (s.outstanding == [] <==> s.acked == s.nextSeqno)
            && (s.running <==> s.outstanding != [])
            && (!s.running ==> s.rto == s.initialRto && s.retransmissions == 0)
  {
    BeginHolds(capacity, retxTimeout, isn);
    RunKeeps(Begin(capacity, retxTimeout, isn), events, u);
    RunFrame(Begin(capacity, retxTimeout, isn), events, u);
  }

  /** Over every run the segments that fill_window queues begin with the one SYN, hold at most one FIN, as
      the last, and their payloads are exactly the bytes taken from the stream, which together with
      SYN and FIN account for every sequence number given out. */
  lemma ReachableAccounting(capacity: nat, retxTimeout: uint16, isn: uint32, events: seq<Event>, u: Tracked)
    requires Reaches(Begin(capacity, retxTimeout, isn), events, u)
    ensures Accounted(u.log, ConnOf(u.sender))
    ensures u.sender.nextSeqno > 0 ==> u.sender.nextSeqno == 1 + u.sender.stream.read + AsNat(u.sender.finSent)
    ensures u.log == [] <==> u.sender.nextSeqno == 0
  {
    BeginHolds(capacity, retxTimeout, isn);
    RunKeeps(Begin(capacity, retxTimeout, isn), events, u);
    LengthPositive(u.log, ConnOf(u.sender));
  }

  // ---- what the runs do to the timer ----

  function Pow2(n: nat): nat {
    if n == 0 then 1 else 2 * Pow2(n - 1)
  }

  lemma {:induction false} SeriesClosed(initial: nat, k: nat)
    ensures Doubled(initial, k) == initial * Pow2(k)
    ensures Series(initial, k) == initial * (Pow2(k) - 1)
  {
    if k > 0 { SeriesClosed(initial, k - 1); }
  }

  lemma {:induction false} DoubledGrows(initial: nat, a: nat, b: nat)
    requires a <= b
    ensures Doubled(initial, a) <= Doubled(initial, b)
    ensures initial == 0 ==> Doubled(initial, b) == 0
    ensures initial > 0 ==> Doubled(initial, b) > b
    decreases b
  {
    if a < b { DoubledGrows(initial, a, b - 1); } else if b > 0 { DoubledGrows(initial, b - 1, b - 1); }
  }

  lemma DoublingsUpTo(k: nat)
    requires k <= TWO32
    ensures Doublings(k) == k
  {
    if k > 0 { InRange(k - 1); }
  }

  lemma InRange(x: nat)
    requires x < TWO32
    ensures x % 0x1_0000_0000 == x
  {
  }

  /** While the doubled timeout fits 32 bits, it is what is loaded. */
  lemma ReloadFits(initial: nat, k: nat)
    requires Doubled(initial, k) < TWO32
    ensures Reload(initial, k) == Doubled(initial, k)
  {
    DoubledGrows(initial, k, k);
    if initial == 0 {
      DoubledGrows(initial, Doublings(k), Doublings(k));
    } else {
      DoublingsUpTo(k);
      InRange(Doubled(initial, k));
    }
  }

  lemma {:induction false} TotalReloadFits(initial: nat, k: nat)
    requires k > 0 ==> Doubled(initial, k - 1) < TWO32
    ensures TotalReload(initial, k) == Series(initial, k)
  {
    if k > 0 {
      if k > 1 { DoubledGrows(initial, k - 2, k - 1); }
      TotalReloadFits(initial, k - 1);
      ReloadFits(initial, k - 1);
    }
  }

  // an acknowledgment that is not ignored
  predicate Heeded(s: Sender, e: Event) {
    e.AckEvent? && Unwrap(e.ackno, s.isn, s.nextSeqno) <= s.nextSeqno
  }

  predicate ZeroWindow(s: Sender, e: Event) { Heeded(s, e) && e.windowSize == 0 }

  /** Some acknowledgment of the run that was not ignored carried a zero window. */
  ghost predicate ZeroHeard(t: Tracked, events: seq<Event>)
    decreases events
  {
    events != [] && Allowed(t, events[0])
    && (ZeroWindow(t.sender, events[0]) || ZeroHeard(Step(t, events[0]), events[1..]))
  }

  /** The window of the last acknowledgment that was not ignored is zero; `before` if there is none. */
  ghost predicate Shut(t: Tracked, events: seq<Event>, before: bool)
    decreases events
  {
    if events == [] || !Allowed(t, events[0]) then before
    else Shut(Step(t, events[0]), events[1..],
              if Heeded(t.sender, events[0]) then events[0].windowSize == 0 else before)
  }

  lemma {:induction false} ShutHeard(t: Tracked, events: seq<Event>, before: bool)
    requires Shut(t, events, before)
    ensures before || ZeroHeard(t, events)
    decreases events
  {
    if events != [] && Allowed(t, events[0]) {
      var now := if Heeded(t.sender, events[0]) then events[0].windowSize == 0 else before;
      ShutHeard(Step(t, events[0]), events[1..], now);
    }
  }

  ghost predicate SameFrame(s: Sender, t: Sender, zero: bool) {
    && t.initialRto == s.initialRto && t.stream.error == s.stream.error && t.stream.capacity == s.stream.capacity
    && (t.windowZero <==> s.windowZero || zero)
  }

  lemma AckFrame(s: Sender, ackno: uint32, windowSize: uint16)
    ensures SameFrame(s, AckReceived(s, ackno, windowSize), ZeroWindow(s, AckEvent(ackno, windowSize)))
  {
  }

  lemma TickFrame(s: Sender, ms: nat)
    ensures SameFrame(s, Tick(s, ms), false)
  {
  }

  lemma StepFrame(t: Tracked, e: Event)
    requires Allowed(t, e)
    ensures SameFrame(t.sender, Step(t, e).sender, ZeroWindow(t.sender, e))
  {
    match e
    case FillEvent => FillFrame(t.sender);
    case AckEvent(ackno, windowSize) => AckFrame(t.sender, ackno, windowSize);
    case TickEvent(ms) => TickFrame(t.sender, ms);
    case _ =>
  }

  lemma {:induction false} RunFrame(t: Tracked, events: seq<Event>, u: Tracked)
    requires Reaches(t, events, u)
    ensures u.sender.initialRto == t.sender.initialRto
    ensures u.sender.stream.error == t.sender.stream.error
    ensures u.sender.stream.capacity == t.sender.stream.capacity
    ensures u.sender.windowZero <==> t.sender.windowZero || ZeroHeard(t, events)
    decreases events
  {
    if events != [] {
      StepFrame(t, events[0]);
      RunFrame(Step(t, events[0]), events[1..], u);
    }
  }

  lemma ReachableBacksOff(capacity: nat, retxTimeout: uint16, isn: uint32, events: seq<Event>, u: Tracked)
    requires Reaches(Begin(capacity, retxTimeout, isn), events, u)
    ensures BackedOff(u) && u.sender.initialRto == retxTimeout
    ensures u.sender.windowZero <==> ZeroHeard(Begin(capacity, retxTimeout, isn), events)
  {
    BeginHolds(capacity, retxTimeout, isn);
    RunKeeps(Begin(capacity, retxTimeout, isn), events, u);
    RunFrame(Begin(capacity, retxTimeout, isn), events, u);
  }

  /** The timer expires exactly when the time since it was loaded reaches what was loaded: without a zero
      window, the initial timeout doubled, in 32 bits, once for each timeout in a row. */
  lemma ReachableExpiry(capacity: nat, retxTimeout: uint16, isn: uint32, events: seq<Event>, u: Tracked, ms: nat)
    requires Reaches(Begin(capacity, retxTimeout, isn), events, u)
    ensures TimesOut(u.sender, ms) <==> u.sender.running && u.waited + ms >= u.loaded
    ensures u.waited + u.sender.rto == u.loaded
    ensures !ZeroHeard(Begin(capacity, retxTimeout, isn), events) ==> u.loaded == Reload(retxTimeout, u.timeouts)
    ensures u.sender.retransmissions == u.timeouts % 0x1_0000_0000
  {
    ReachableBacksOff(capacity, retxTimeout, isn, events, u);
  }

  /** Over every run without a zero window, k timeouts in a row take at least the sum of the reloads
      before them: initial * (2^k - 1) milliseconds, as long as the last of them fits 32 bits. */
  lemma ReachableBackoff(capacity: nat, retxTimeout: uint16, isn: uint32, events: seq<Event>, u: Tracked)
    requires Reaches(Begin(capacity, retxTimeout, isn), events, u)
    requires !ZeroHeard(Begin(capacity, retxTimeout, isn), events)
    ensures u.elapsed >= TotalReload(retxTimeout, u.timeouts)
    ensures u.timeouts > 0 && retxTimeout * Pow2(u.timeouts - 1) < TWO32 ==>
              u.elapsed >= retxTimeout * (Pow2(u.timeouts) - 1)
  {
    ReachableBacksOff(capacity, retxTimeout, isn, events, u);
    SeriesClosed(retxTimeout, u.timeouts);
    if u.timeouts > 0 {
      SeriesClosed(retxTimeout, u.timeouts - 1);
      if Doubled(retxTimeout, u.timeouts - 1) < TWO32 { TotalReloadFits(retxTimeout, u.timeouts); }
    }
  }

  /** Exactly when back-off works. In every reachable state, a timeout after k others in a row should load
      the timer with initial * 2^(k+1), or with the initial timeout while the window is zero. It does so
      if and only if the window is zero, or none was zero before and the number fits 32 bits, or the
      initial timeout is zero. A zero window once heard, the initial timeout is loaded ever after;
      otherwise the rest modulo 2^32, until the counter starts over. */
  lemma BackoffExact(capacity: nat, retxTimeout: uint16, isn: uint32, events: seq<Event>, u: Tracked, ms: nat)
    requires Reaches(Begin(capacity, retxTimeout, isn), events, u) && TimesOut(u.sender, ms)
    ensures var start, loaded := Begin(capacity, retxTimeout, isn), Tick(u.sender, ms).rto;
            var zero, shut := ZeroHeard(start, events), Shut(start, events, false);
            var doubled := retxTimeout * Pow2(u.timeouts + 1);
            && (loaded == (if shut then retxTimeout else doubled)
                <==> shut || retxTimeout == 0 || (!zero && doubled < TWO32))
            && (zero ==> loaded == retxTimeout)
            && (!zero && u.timeouts < TWO32 ==> loaded == doubled % 0x1_0000_0000)
  {
    ReachableBacksOff(capacity, retxTimeout, isn, events, u);
    BackoffIsReload(u);
    SeriesClosed(retxTimeout, u.timeouts + 1);
    ReloadExact(retxTimeout, u.timeouts + 1);
    if Shut(Begin(capacity, retxTimeout, isn), events, false) {
      ShutHeard(Begin(capacity, retxTimeout, isn), events, false);
    }
  }

  /** The reload is the doubled timeout exactly when that fits 32 bits, and above the initial timeout then. */
  lemma ReloadExact(initial: uint16, k: nat)
    requires k > 0
    ensures Reload(initial, k) == Doubled(initial, k) <==> Doubled(initial, k) < TWO32
    ensures initial == 0 ==> Doubled(initial, k) == 0
    ensures initial > 0 ==> Doubled(initial, k) > initial
    ensures k <= TWO32 ==> Reload(initial, k) == Doubled(initial, k) % 0x1_0000_0000
  {
    DoubledGrows(initial, 1, k);
    assert Doubled(initial, 1) == 2 * Doubled(initial, 0);
    if Doubled(initial, k) < TWO32 { ReloadFits(initial, k); }
    if k <= TWO32 { DoublingsUpTo(k); }
  }

  // ---- how it fails ----

  lemma {:induction false} ReachesThen(t: Tracked, events: seq<Event>, u: Tracked, e: Event)
    requires Reaches(t, events, u) && Allowed(u, e)
    ensures Reaches(t, events + [e], Step(u, e))
    decreases events
  {
    if events == [] {
      assert ([] + [e])[1..] == [];
    } else {
      ReachesThen(Step(t, events[0]), events[1..], u, e);
      assert (events + [e])[1..] == events[1..] + [e];
    }
  }

  lemma {:induction false} ShutThen(t: Tracked, events: seq<Event>, u: Tracked, e: Event, before: bool)
    requires Reaches(t, events, u) && Heeded(u.sender, e)
    ensures Shut(t, events + [e], before) <==> e.windowSize == 0
    decreases events
  {
    if events == [] {
      assert ([] + [e])[1..] == [];
    } else {
      var now := if Heeded(t.sender, events[0]) then events[0].windowSize == 0 else before;
      ShutThen(Step(t, events[0]), events[1..], u, e, now);
      assert (events + [e])[1..] == events[1..] + [e];
    }
  }

  lemma SynAlone(s: Sender)
    requires s.nextSeqno == 0 && s.acked == 0 && s.window == 1 && Size(s.stream) == 0 && !s.stream.ended && !s.finSent
    ensures FillWindow(s).running && FillWindow(s).nextSeqno == 1
  {
    var t := SendNext(s, 1);
    assert |ReadBytes(s.stream, PayloadRoom(s, 1))| == 0;
    assert NextSegment(s, 1).Length() == 1;
    assert FillLoop(t, 1) == t;
  }

  lemma FirstFill(capacity: nat, retxTimeout: uint16, isn: uint32)
    ensures var t := Begin(capacity, retxTimeout, isn);
            var u := Step(t, FillEvent);
            && Reaches(t, [FillEvent], u) && u.sender.running && u.sender.nextSeqno == 1
            && SameTimer(t.sender, u.sender) && u.timeouts == 0 && u.sender.isn == isn
  {
    var t := Begin(capacity, retxTimeout, isn);
    ReachesThen(t, [], t, FillEvent);
    assert [] + [FillEvent] == [FillEvent];
    FillFrame(t.sender);
    SynAlone(t.sender);
  }

  /** A peer that never answers: the SYN is sent and times out k times in a row. */
  lemma {:induction false} Silence(capacity: nat, retxTimeout: uint16, isn: uint32, k: nat)
    returns (events: seq<Event>, u: Tracked)
    ensures Reaches(Begin(capacity, retxTimeout, isn), events, u)
    ensures u.timeouts == k && u.sender.running && !ZeroHeard(Begin(capacity, retxTimeout, isn), events)
  {
    if k == 0 {
      events, u := [FillEvent], Step(Begin(capacity, retxTimeout, isn), FillEvent);
      FirstFill(capacity, retxTimeout, isn);
    } else {
      var before, v := Silence(capacity, retxTimeout, isn, k - 1);
      ReachesThen(Begin(capacity, retxTimeout, isn), before, v, TickEvent(v.sender.rto));
      events, u := before + [TickEvent(v.sender.rto)], Step(v, TickEvent(v.sender.rto));
      RunFrame(Begin(capacity, retxTimeout, isn), before, v);
    }
    RunFrame(Begin(capacity, retxTimeout, isn), events, u);
  }

  lemma FourDoublings(initial: nat, k: nat)
    ensures Doubled(initial, k + 4) == 16 * Doubled(initial, k)
  {
    assert Doubled(initial, k + 2) == 4 * Doubled(initial, k);
  }

  lemma EightDoublings(initial: nat, k: nat)
    ensures Doubled(initial, k + 8) == 256 * Doubled(initial, k)
  {
    FourDoublings(initial, k);
    FourDoublings(initial, k + 4);
  }

  lemma Doubled32(initial: nat, k: nat)
    ensures Doubled(initial, k + 32) == 0x1_0000_0000 * Doubled(initial, k)
  {
    EightDoublings(initial, k);
    EightDoublings(initial, k + 8);
    EightDoublings(initial, k + 16);
    EightDoublings(initial, k + 24);
  }

  /** From the thirty-second timeout in a row on, until the counter starts over, every tick is a timeout,
      even one of no time at all, whatever the initial timeout. */
  lemma BackoffCollapses(capacity: nat, retxTimeout: uint16, isn: uint32, events: seq<Event>, u: Tracked, ms: nat)
    requires Reaches(Begin(capacity, retxTimeout, isn), events, u)
    requires !ZeroHeard(Begin(capacity, retxTimeout, isn), events) && 32 <= u.timeouts <= TWO32
    ensures TimesOut(u.sender, ms)
  {
    ReachableBacksOff(capacity, retxTimeout, isn, events, u);
    ReloadCollapses(retxTimeout, u.timeouts);
  }

  lemma ReloadCollapses(initial: nat, k: nat)
    requires 32 <= k <= TWO32
    ensures Reload(initial, k) == 0
  {
    Doubled32(initial, k - 32);
    WholeTurns(0, Doubled(initial, k - 32));
  }

  /** The overflow is reached: with the default timeout of a second the twenty-ninth one loads zero. */
  lemma OverflowStopsBackoff(capacity: nat, isn: uint32) returns (events: seq<Event>, u: Tracked)
    ensures Reaches(Begin(capacity, 1000, isn), events, u) && !ZeroHeard(Begin(capacity, 1000, isn), events)
    ensures u.timeouts == 28 && TimesOut(u.sender, u.sender.rto) && Tick(u.sender, u.sender.rto).rto == 0
  {
    events, u := Silence(capacity, 1000, isn, 28);
    ReachableBacksOff(capacity, 1000, isn, events, u);
    BackoffIsReload(u);
    SecondOverflows();
  }

  lemma SecondOverflows()
    ensures Reload(1000, 29) == 0
  {
    assert Doubled(1000, 4) == 2 * Doubled(1000, 3) == 16 * Doubled(1000, 0);
    EightDoublings(1000, 4);
    EightDoublings(1000, 12);
    EightDoublings(1000, 20);
    assert Doubled(1000, 29) == 2 * Doubled(1000, 28);
    WholeTurns(0, 125);
  }

  /** One zero window is enough: the SYN is answered by it, the window opens again, and the first timeout
      loads a second where two are due. */
  lemma ZeroWindowStopsBackoff(capacity: nat, isn: uint32) returns (events: seq<Event>, u: Tracked)
    ensures events == [FillEvent, AckEvent(isn, 0), AckEvent(isn, 1)]
    ensures Reaches(Begin(capacity, 1000, isn), events, u) && !Shut(Begin(capacity, 1000, isn), events, false)
    ensures u.timeouts == 0 && TimesOut(u.sender, 1000) && Tick(u.sender, 1000).rto == 1000
  {
    var start := Begin(capacity, 1000, isn);
    var t := Step(start, FillEvent);
    FirstFill(capacity, 1000, isn);
    WrapZero(isn);
    UnwrapNear(0, isn, 1);
    var v := Step(t, AckEvent(isn, 0));
    ReachesThen(start, [FillEvent], t, AckEvent(isn, 0));
    ReachesThen(start, [FillEvent] + [AckEvent(isn, 0)], v, AckEvent(isn, 1));
    events, u := [FillEvent, AckEvent(isn, 0), AckEvent(isn, 1)], Step(v, AckEvent(isn, 1));
    ShutThen(start, [FillEvent] + [AckEvent(isn, 0)], v, AckEvent(isn, 1), false);
    assert events == [FillEvent] + [AckEvent(isn, 0)] + [AckEvent(isn, 1)];
  }
}
