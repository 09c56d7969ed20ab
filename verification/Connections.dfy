/** What a sender has committed to so far, and which segments are true to it. */
module Connections {
  import opened FixedWidth
  import opened WrappingIntegers
  import opened Segments
  import opened ReassemblyRefinement

  /** The initial sequence number, whether the SYN is out, the bytes given sequence numbers, and
      whether the FIN is out. */
  datatype Conn = Conn(isn: uint32, begun: bool, sent: seq<byte>, closed: bool)

  // first absolute sequence number not yet given out
  function Top(c: Conn): nat {
    if c.begun then 1 + |c.sent| + AsNat(c.closed) else 0
  }

  ghost predicate Extends(c: Conn, d: Conn) {
    && d.isn == c.isn && (c.begun ==> d.begun) && c.sent <= d.sent
    && (c.closed ==> d.closed && d.sent == c.sent)
  }

  // stream index of the first payload byte of a segment at absolute number a
  function StreamIndex(seg: TCPSegment, a: nat): nat {
    if seg.header.syn || a == 0 then 0 else a - 1
  }

  /** The segment says, at absolute sequence number a, nothing but what was sent. */
  ghost predicate Genuine(seg: TCPSegment, a: nat, c: Conn) {
    && seg.header.seqno == Wrap(a, c.isn)
    && a + seg.Length() <= Top(c)
    && (seg.header.syn ==> a == 0)
    && (a == 0 && !seg.header.syn ==> seg.Length() == 0)
    && Excerpt(c.sent, StreamIndex(seg, a), seg.payload)
    && (seg.header.fin ==> c.closed && StreamIndex(seg, a) + |seg.payload| == |c.sent|)
  }

  // the shape of the segments that leave: no options, and a limited payload
  predicate Shaped(seg: TCPSegment) {
    seg.header.doff == 5 && |seg.payload| <= MAX_PAYLOAD_SIZE
  }

  /** The segments that the sender makes: nothing is filled in but the number, SYN and FIN. */
  predicate Made(seg: TCPSegment) {
    var h := seg.header;
    && Shaped(seg)
    && h.sport == h.dport == h.ackno == h.win == h.cksum == h.uptr == 0
    && !h.urg && !h.ack && !h.psh && !h.rst
  }

  ghost predicate SomeGenuine(seg: TCPSegment, c: Conn) {
    exists a: nat :: Genuine(seg, a, c)
  }

  lemma TopGrows(c: Conn, d: Conn)
    requires Extends(c, d)
    ensures Top(c) <= Top(d)
  {
  }

  lemma GenuineExtends(seg: TCPSegment, a: nat, c: Conn, d: Conn)
    requires Genuine(seg, a, c) && Extends(c, d)
    ensures Genuine(seg, a, d)
  {
  }
}
