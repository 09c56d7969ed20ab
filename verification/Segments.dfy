/** TCP headers and segments as values (libsponge/tcp_helpers/tcp_header.hh, tcp_segment.hh). */
module Segments {
  import opened FixedWidth

  const MAX_PAYLOAD_SIZE: nat := 1452

  datatype TCPHeader = TCPHeader(
    sport: uint16, dport: uint16, seqno: uint32, ackno: uint32, doff: byte,
    urg: bool, ack: bool, psh: bool, rst: bool, syn: bool, fin: bool,
    win: uint16, cksum: uint16, uptr: uint16)

  function DefaultHeader(): TCPHeader {
    TCPHeader(0, 0, 0, 0, 5, false, false, false, false, false, false, 0, 0, 0)
  }

  datatype TCPSegment = TCPSegment(header: TCPHeader, payload: seq<byte>) {
    // payload plus one for each of SYN and FIN
    function Length(): nat {
      |payload| + AsNat(header.syn) + AsNat(header.fin)
    }
  }
}
