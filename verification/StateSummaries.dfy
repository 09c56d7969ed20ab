/** The official TCP states, read off the counters (libsponge/tcp_helpers/tcp_state.cc). */
module StateSummaries {
  import opened FixedWidth
  import opened ByteStreams
  import opened Reassembly
  import opened Connections
  import opened Senders
  import opened SenderInvariants
  import opened Receivers
  import opened ReceiverInvariants
  import SenderRuns
  import ReceiverRuns
  import Network
  import Recovery

  datatype ReceiverSummary = ReceiverError | Listen | SynRecv | FinRecv

  datatype SenderSummary = SenderError | Closed | SynSent | SynAcked | FinSent | FinAcked

  function SummarizeReceiver(r: Receiver): ReceiverSummary {
    if StreamOut(r).error then ReceiverError
    else if r.ack.None? then Listen
    else if StreamOut(r).ended then FinRecv
    else SynRecv
  }

  function SummarizeSender(s: Sender): SenderSummary {
    if s.stream.error then SenderError
    else if s.nextSeqno == 0 then Closed
    else if s.nextSeqno == BytesInFlight(s) then SynSent
    else if !Eof(s.stream) then SynAcked
    else if s.nextSeqno < |s.stream.written| + 2 then SynAcked
    else if BytesInFlight(s) != 0 then FinSent
    else FinAcked
  }

  /** The counters tell the hidden state exactly: in particular the stream is finished and fully
      acknowledged just when the FIN is out and nothing is in flight. */
  lemma SenderSummaryExact(s: Sender)
    requires Good(s)
    ensures SummarizeSender(s) ==
            if s.stream.error then SenderError
            else if s.nextSeqno == 0 then Closed
            else if s.acked == 0 then SynSent
            else if !s.finSent then SynAcked
            else if s.acked < s.nextSeqno then FinSent
            else FinAcked
  {
    assert |ConnOf(s).sent| == s.stream.read;
  }

  /** So do the receiver's: after any run of segments of one connection it listens until a SYN is heard and
      given an ackno, and then waits until every byte is there and some FIN fitted the window. */
  lemma ReceiverSummaryExact(capacity: nat, c: Conn, events: seq<ReceiverRuns.Event>)
    requires capacity + |c.sent| + 2 < TWO64
    requires ReceiverRuns.AllPlausible(Listening(capacity), c, events)
    ensures var u := ReceiverRuns.Run(Listening(capacity), events);
            var finHeard := ReceiverRuns.FinHeard(Listening(capacity), c, events);
            SummarizeReceiver(u) ==
            if !ReceiverRuns.SynAmong(events) || capacity == 0 then Listen
            else if finHeard && |StreamOut(u).written| == |c.sent| then FinRecv
            else SynRecv
  {
    ReceiverRuns.AcknoExact(capacity, c, events);
    ListeningTracks(capacity, c);
    ReceiverRuns.RunTracks(Listening(capacity), c, events);
    ReceiverRuns.RunGuarded(Listening(capacity), events);
  }

  lemma ReceiverErrorExact(r: Receiver)
    ensures SummarizeReceiver(r) == ReceiverError <==> StreamOut(r).error
  {
  }

  function SenderRank(p: SenderSummary): nat {
    match p
    case SenderError => 5
    case Closed => 0
    case SynSent => 1
    case SynAcked => 2
    case FinSent => 3
    case FinAcked => 4
  }

  function ReceiverRank(p: ReceiverSummary): nat {
    match p case ReceiverError => 3 case Listen => 0 case SynRecv => 1 case FinRecv => 2
  }

  lemma SenderForward(s: Sender, t: Sender)
    requires Good(s) && Good(t) && !s.stream.error && !t.stream.error
    requires Extends(ConnOf(s), ConnOf(t)) && s.acked <= t.acked
    ensures SenderRank(SummarizeSender(s)) <= SenderRank(SummarizeSender(t))
  {
    SenderSummaryExact(s);
    SenderSummaryExact(t);
    TopGrows(ConnOf(s), ConnOf(t));
  }

  /** Over every run of the sender the state never goes backwards. */
  lemma SenderMonotone(t: SenderRuns.Tracked, events: seq<SenderRuns.Event>, u: SenderRuns.Tracked)
    requires SenderRuns.RunInvariant(t) && SenderRuns.Reaches(t, events, u)
    ensures SenderRank(SummarizeSender(t.sender)) <= SenderRank(SummarizeSender(u.sender))
  {
    SenderRuns.RunKeeps(t, events, u);
    SenderRuns.RunFrame(t, events, u);
    if !t.sender.stream.error { SenderForward(t.sender, u.sender); }
  }

  /** Over every run of any segments, forged ones included, the receiver's state never goes backwards. */
  lemma ReceiverMonotone(r: Receiver, events: seq<ReceiverRuns.Event>)
    requires Guarded(r) && RightEdge(ReceiverRuns.Run(r, events).reassembler) < TWO64
    ensures var u := ReceiverRuns.Run(r, events);
            ReceiverRank(SummarizeReceiver(r)) <= ReceiverRank(SummarizeReceiver(u))
  {
    ReceiverRuns.RunGuarded(r, events);
  }

  /** Across the network the two summaries agree: a sender past SYN_SENT has a peer past LISTEN, and
      one in FIN_ACKED has a peer in FIN_RECV that holds every byte. */
  lemma SummariesAgree(w: Network.World)
    requires Network.Sane(w) && !w.sender.stream.error && !StreamOut(w.receiver).error
    ensures SenderRank(SummarizeSender(w.sender)) >= 2 ==> SummarizeReceiver(w.receiver) != Listen
    ensures SummarizeSender(w.sender) == FinAcked ==>
              SummarizeReceiver(w.receiver) == FinRecv && StreamOut(w.receiver).written == w.sender.stream.written
    ensures SummarizeReceiver(w.receiver) == FinRecv ==> w.sender.finSent
  {
    SenderSummaryExact(w.sender);
    if SummarizeSender(w.sender) == FinAcked { Recovery.AllAcknowledged(w); }
  }
}
