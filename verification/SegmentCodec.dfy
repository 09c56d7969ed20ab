/** TCP segments on the wire (libsponge/tcp_helpers/tcp_header.cc, tcp_segment.cc). */
module SegmentCodec {
  import opened FixedWidth
  import opened Segments
  import opened Checksums
  import opened Parsing

  const HEADER_LENGTH: nat := 20

  function FlagByte(h: TCPHeader): byte {
    32 * AsNat(h.urg) + 16 * AsNat(h.ack) + 8 * AsNat(h.psh) + 4 * AsNat(h.rst) + 2 * AsNat(h.syn) + AsNat(h.fin)
  }

  // is the bit with weight w set
  predicate Bit(b: byte, w: nat)
    requires w > 0
  {
    b / w % 2 == 1
  }

  // the fields before the checksum, the fields after it
  function FrontFields(h: TCPHeader): (bytes: seq<byte>)
    ensures |bytes| == 16
  {
    ToNetwork(h.sport, 2) + ToNetwork(h.dport, 2) + ToNetwork(h.seqno, 4) + ToNetwork(h.ackno, 4)
    + ToNetwork(h.doff * 16 % 0x100, 1) + ToNetwork(FlagByte(h), 1) + ToNetwork(h.win, 2)
  }

  function Padding(h: TCPHeader): (bytes: seq<byte>)
    requires h.doff >= 5
    ensures |bytes| == 4 * h.doff - HEADER_LENGTH
  {
    seq(4 * h.doff - HEADER_LENGTH, _ => 0)
  }

  function HeaderBytes(h: TCPHeader): (bytes: seq<byte>)
    requires h.doff >= 5
    ensures |bytes| == 4 * h.doff
  {
    FrontFields(h) + ToNetwork(h.cksum, 2) + ToNetwork(h.uptr, 2) + Padding(h)
  }

  // None is the exception thrown for a header shorter than five words
  function SerializeHeader(h: TCPHeader): Option<seq<byte>> {
    if h.doff < 5 then None else Some(HeaderBytes(h))
  }

  function ChecksumFor(seg: TCPSegment, pseudo: uint32): uint16
    requires seg.header.doff >= 5
  {
    Value(Add(Add(Checksum(pseudo, false), HeaderBytes(seg.header.(cksum := 0))), seg.payload))
  }

  // the segment as it is sent: with its checksum filled in
  function Checksummed(seg: TCPSegment, pseudo: uint32): TCPSegment
    requires seg.header.doff >= 5
  {
    seg.(header := seg.header.(cksum := ChecksumFor(seg, pseudo)))
  }

  function Serialize(seg: TCPSegment, pseudo: uint32): Option<seq<byte>> {
    if seg.header.doff < 5 then None
    else Some(HeaderBytes(Checksummed(seg, pseudo).header) + seg.payload)
  }

  datatype HeaderParse = HeaderParse(header: TCPHeader, result: ParseResult, parser: Parser)

  datatype Numbers = Numbers(sport: uint16, dport: uint16, seqno: uint32, ackno: uint32, parser: Parser)

  function ParseNumbers(p0: Parser): Numbers {
    var p1 := RemovePrefix(p0, 2);
    var p2 := RemovePrefix(p1, 2);
    var p3 := RemovePrefix(p2, 4);
    Numbers(U16(p0), U16(p1), U32(p2), U32(p3), RemovePrefix(p3, 4))
  }

  datatype Controls = Controls(doff: byte, flags: byte, win: uint16, parser: Parser)

  function ParseControls(p4: Parser): Controls {
    var p5 := RemovePrefix(p4, 1);
    var p6 := RemovePrefix(p5, 1);
    Controls(U8(p4) / 16, U8(p5), U16(p6), RemovePrefix(p6, 2))
  }

  datatype Trailer = Trailer(cksum: uint16, uptr: uint16, parser: Parser)

  function ParseTrailer(p7: Parser): Trailer {
    var p8 := RemovePrefix(p7, 2);
    Trailer(U16(p7), U16(p8), RemovePrefix(p8, 2))
  }

  function MakeHeader(n: Numbers, c: Controls, t: Trailer): TCPHeader {
    TCPHeader(n.sport, n.dport, n.seqno, n.ackno, c.doff,
              Bit(c.flags, 32), Bit(c.flags, 16), Bit(c.flags, 8), Bit(c.flags, 4), Bit(c.flags, 2), Bit(c.flags, 1),
              c.win, t.cksum, t.uptr)
  }

  function SkipOptions(h: TCPHeader, p: Parser): HeaderParse {
    if h.doff < 5 then HeaderParse(h, HeaderTooShort, p)
    else
      var rest := RemovePrefix(p, h.doff * 4 - HEADER_LENGTH);
      HeaderParse(h, rest.error, rest)
  }

  function PutTogether(n: Numbers, c: Controls, t: Trailer): HeaderParse {
    SkipOptions(MakeHeader(n, c, t), t.parser)
  }

  function ParseHeader(p: Parser): HeaderParse {
    var n := ParseNumbers(p);
    var c := ParseControls(n.parser);
    PutTogether(n, c, ParseTrailer(c.parser))
  }

  datatype SegmentParse = SegmentParse(result: ParseResult, segment: TCPSegment)

  // `before` is the segment object that is parsed into; the result of the header parse is discarded
  function ParseSegment(before: TCPSegment, buffer: seq<byte>, pseudo: uint32): SegmentParse {
    if Value(Add(Checksum(pseudo, false), buffer)) != 0 then SegmentParse(BadChecksum, before)
    else
      var hp := ParseHeader(Parser(buffer, NoError));
      SegmentParse(hp.parser.error, TCPSegment(hp.header, hp.parser.buffer))
  }

  // ---- checksum ----

  lemma ToNetworkTwo(v: uint16)
    ensures WordSum(ToNetwork(v, 2), false) == v
  {
    assert ToNetwork(v, 2) == [v / 0x100, v % 0x100];
    assert [v / 0x100, v % 0x100][1..] == [v % 0x100];
    assert WordSum([v % 0x100], true) == v % 0x100;
  }

  /** The header is a whole number of words, so the checksum field adds just its own value. */
  lemma HeaderWordSum(h: TCPHeader)
    requires h.doff >= 5
    ensures WordSum(HeaderBytes(h), false) == WordSum(HeaderBytes(h.(cksum := 0)), false) + h.cksum
  {
    var g := h.(cksum := 0);
    var back := ToNetwork(h.uptr, 2) + Padding(h);
    assert FrontFields(g) == FrontFields(h) && ToNetwork(g.uptr, 2) + Padding(g) == back;
    SumAroundChecksum(FrontFields(h), h.cksum, back);
    SumAroundChecksum(FrontFields(h), 0, back);
    assert HeaderBytes(h) == FrontFields(h) + ToNetwork(h.cksum, 2) + back;
    assert HeaderBytes(g) == FrontFields(h) + ToNetwork(0, 2) + back;
  }

  lemma SumAroundChecksum(front: seq<byte>, v: uint16, back: seq<byte>)
    requires |front| == 16
    ensures WordSum(front + ToNetwork(v, 2) + back, false) == WordSum(front, false) + v + WordSum(back, false)
  {
    WordSumSplit(front + ToNetwork(v, 2), back, false);
    WordSumSplit(front, ToNetwork(v, 2), false);
    ToNetworkTwo(v);
  }

  /** A serialized segment always passes the checksum test, whatever its length. */
  lemma SerializedReadsZero(seg: TCPSegment, pseudo: uint32)
    requires seg.header.doff >= 5
    ensures Value(Add(Checksum(pseudo, false), Serialize(seg, pseudo).value)) == 0
  {
    var start := Checksum(pseudo, false);
    var zeroed := HeaderBytes(seg.header.(cksum := 0));
    var sent := HeaderBytes(Checksummed(seg, pseudo).header);
    HeaderWordSum(Checksummed(seg, pseudo).header);
    AddSplit(start, zeroed, seg.payload);
    var c := Add(start, zeroed + seg.payload);
    WordSumSplit(zeroed, seg.payload, false);
    WordSumSplit(sent, seg.payload, false);
    ModSum(pseudo + WordSum(zeroed + seg.payload, false), Value(c));
    FilledInReadsZero(c);
  }

  // ---- fields ----

  lemma FlagBits(h: TCPHeader)
    ensures var f := FlagByte(h);
            && Bit(f, 32) == h.urg && Bit(f, 16) == h.ack && Bit(f, 8) == h.psh
            && Bit(f, 4) == h.rst && Bit(f, 2) == h.syn && Bit(f, 1) == h.fin
  {
  }

  lemma Widths()
    ensures Pow256(1) == 0x100 && Pow256(2) == 0x1_0000 && Pow256(4) == TWO32
  {
    assert Pow256(2) == 0x1_0000;
  }

  // the wire image, nested the way the parser takes it apart
  function NumberFields(h: TCPHeader, rest: seq<byte>): seq<byte> {
    ToNetwork(h.sport, 2) + (ToNetwork(h.dport, 2) + (ToNetwork(h.seqno, 4) + (ToNetwork(h.ackno, 4) + rest)))
  }

  function ControlFields(h: TCPHeader, rest: seq<byte>): seq<byte> {
    ToNetwork(h.doff * 16 % 0x100, 1) + (ToNetwork(FlagByte(h), 1) + (ToNetwork(h.win, 2) + rest))
  }

  function TrailingFields(h: TCPHeader, rest: seq<byte>): seq<byte> {
    ToNetwork(h.cksum, 2) + (ToNetwork(h.uptr, 2) + rest)
  }

  lemma FrontNested(h: TCPHeader, rest: seq<byte>)
    ensures FrontFields(h) + rest == NumberFields(h, ControlFields(h, rest))
  {
  }

  lemma HeaderNested(h: TCPHeader, payload: seq<byte>)
    requires 5 <= h.doff
    ensures HeaderBytes(h) + payload == NumberFields(h, ControlFields(h, TrailingFields(h, Padding(h) + payload)))
  {
    FrontNested(h, TrailingFields(h, Padding(h) + payload));
    assert HeaderBytes(h) + payload == FrontFields(h) + TrailingFields(h, Padding(h) + payload);
  }

  lemma NumbersParsed(h: TCPHeader, rest: seq<byte>)
    ensures ParseNumbers(Parser(NumberFields(h, rest), NoError))
         == Numbers(h.sport, h.dport, h.seqno, h.ackno, Parser(rest, NoError))
  {
    Widths();
    var t3 := ToNetwork(h.ackno, 4) + rest;
    var t2 := ToNetwork(h.seqno, 4) + t3;
    ParseUnparsed(h.sport, 2, ToNetwork(h.dport, 2) + t2);
    ParseUnparsed(h.dport, 2, t2);
    ParseUnparsed(h.seqno, 4, t3);
    ParseUnparsed(h.ackno, 4, rest);
  }

  lemma DoffBits(doff: byte)
    ensures doff * 16 % 0x100 / 16 == doff % 16
  {
  }

  lemma ControlsParsed(h: TCPHeader, rest: seq<byte>)
    ensures ParseControls(Parser(ControlFields(h, rest), NoError))
         == Controls(h.doff % 16, FlagByte(h), h.win, Parser(rest, NoError))
  {
    Widths();
    DoffBits(h.doff);
    ParseUnparsed(h.doff * 16 % 0x100, 1, ToNetwork(FlagByte(h), 1) + (ToNetwork(h.win, 2) + rest));
    ParseUnparsed(FlagByte(h), 1, ToNetwork(h.win, 2) + rest);
    ParseUnparsed(h.win, 2, rest);
  }

  lemma TrailerParsed(h: TCPHeader, rest: seq<byte>)
    ensures ParseTrailer(Parser(TrailingFields(h, rest), NoError)) == Trailer(h.cksum, h.uptr, Parser(rest, NoError))
  {
    Widths();
    ParseUnparsed(h.cksum, 2, ToNetwork(h.uptr, 2) + rest);
    ParseUnparsed(h.uptr, 2, rest);
  }

  /** The parser reads the fields of a serialized header back, and stops where the payload starts. */
  lemma HeaderRoundTrip(h: TCPHeader, payload: seq<byte>)
    requires 5 <= h.doff
    ensures var hp := ParseHeader(Parser(HeaderBytes(h) + payload, NoError));
            && (h.doff <= 15 ==> hp == HeaderParse(h, NoError, Parser(payload, NoError)))
            && hp.header == h.(doff := h.doff % 16)
  {
    var t9 := Padding(h) + payload;
    HeaderNested(h, payload);
    NumbersParsed(h, ControlFields(h, TrailingFields(h, t9)));
    ControlsParsed(h, TrailingFields(h, t9));
    TrailerParsed(h, t9);
    var q, r := Parser(ControlFields(h, TrailingFields(h, t9)), NoError), Parser(TrailingFields(h, t9), NoError);
    FieldsPutTogether(h, payload, q, r);
  }

  lemma HeaderMade(h: TCPHeader, n: Numbers, c: Controls, t: Trailer)
    requires n.sport == h.sport && n.dport == h.dport && n.seqno == h.seqno && n.ackno == h.ackno
    requires c.doff == h.doff % 16 && c.flags == FlagByte(h) && c.win == h.win
    requires t.cksum == h.cksum && t.uptr == h.uptr
    ensures MakeHeader(n, c, t) == h.(doff := h.doff % 16)
  {
    FlagBits(h);
  }

  lemma PaddingSkipped(h: TCPHeader, payload: seq<byte>)
    requires 5 <= h.doff
    ensures SkipOptions(h, Parser(Padding(h) + payload, NoError)) == HeaderParse(h, NoError, Parser(payload, NoError))
  {
    assert (Padding(h) + payload)[|Padding(h)|..] == payload;
  }

  lemma FieldsPutTogether(h: TCPHeader, payload: seq<byte>, q: Parser, r: Parser)
    requires 5 <= h.doff
    ensures var hp := PutTogether(Numbers(h.sport, h.dport, h.seqno, h.ackno, q),
                                  Controls(h.doff % 16, FlagByte(h), h.win, r),
                                  Trailer(h.cksum, h.uptr, Parser(Padding(h) + payload, NoError)));
            && hp.header == h.(doff := h.doff % 16)
            && (h.doff <= 15 ==> hp == HeaderParse(h, NoError, Parser(payload, NoError)))
  {
    HeaderMade(h, Numbers(h.sport, h.dport, h.seqno, h.ackno, q), Controls(h.doff % 16, FlagByte(h), h.win, r),
               Trailer(h.cksum, h.uptr, Parser(Padding(h) + payload, NoError)));
    PaddingSkipped(h, payload);
  }

  /** Parsing a serialized segment under the same pseudo-header sum gives the segment back, with its
      checksum filled in, exactly when the data offset fits its four bits: any payload, any sum. */
  lemma SegmentRoundTrip(seg: TCPSegment, before: TCPSegment, pseudo: uint32)
    requires 5 <= seg.header.doff
    ensures var sp := ParseSegment(before, Serialize(seg, pseudo).value, pseudo);
            sp == SegmentParse(NoError, Checksummed(seg, pseudo)) <==> seg.header.doff <= 15
  {
    SerializedReadsZero(seg, pseudo);
    HeaderRoundTrip(Checksummed(seg, pseudo).header, seg.payload);
  }

  /** The smallest failure: an offset of sixteen words does not fit its four bits and comes back as zero. */
  lemma OffsetSixteenLost(seg: TCPSegment, before: TCPSegment, pseudo: uint32)
    requires seg.header.doff == 16
    ensures var sp := ParseSegment(before, Serialize(seg, pseudo).value, pseudo);
            sp.segment.header.doff == 0 && sp != SegmentParse(NoError, Checksummed(seg, pseudo))
  {
    SerializedReadsZero(seg, pseudo);
    HeaderRoundTrip(Checksummed(seg, pseudo).header, seg.payload);
  }

  // ---- where the fields lie (section 3.1 of RFC 793) ----

  // network-order integers at a fixed place of a buffer; zero if the buffer stops short of their end
  function Word8(b: seq<byte>, at: nat): byte {
    if at + 1 <= |b| then b[at] else 0
  }

  function Word16(b: seq<byte>, at: nat): uint16 {
    if at + 2 <= |b| then Word8(b, at) * 0x100 + Word8(b, at + 1) else 0
  }

  function Word32(b: seq<byte>, at: nat): uint32 {
    if at + 4 <= |b| then Word16(b, at) * 0x1_0000 + Word16(b, at + 2) else 0
  }

  // where the first field that does not fit into n bytes starts, or the end of the fixed header
  function FieldStart(n: nat): nat {
    if n < 2 then 0 else if n < 4 then 2 else if n < 8 then 4 else if n < 12 then 8
    else if n < 14 then n else if n < 16 then 14 else if n < 18 then 16 else if n < 20 then 18 else HEADER_LENGTH
  }

  // the parser when it has come to the field at `at`, or was stopped before
  function Cursor(b: seq<byte>, at: nat): Parser {
    if at <= |b| then Parser(b[at..], NoError) else Parser(b[FieldStart(|b|)..], PacketTooShort)
  }

  lemma TwoBytes(b: seq<byte>)
    requires |b| == 2
    ensures FromNetwork(b) == Word16(b, 0)
  {
    assert b[..1] == [b[0]];
    assert FromNetwork([b[0]]) == b[0] by { assert [b[0]][..0] == []; }
  }

  lemma FourBytes(b: seq<byte>)
    requires |b| == 4
    ensures FromNetwork(b) == Word32(b, 0)
  {
    TwoBytes(b[..2]);
    assert b[..3][..2] == b[..2];
  }

  lemma IntAt(b: seq<byte>, at: nat)
    ensures U8(Cursor(b, at)) == Word8(b, at)
    ensures U16(Cursor(b, at)) == Word16(b, at)
    ensures U32(Cursor(b, at)) == Word32(b, at)
  {
    if at + 1 <= |b| { assert b[at..][..1] == [b[at]] && [b[at]][..0] == []; }
    if at + 2 <= |b| { TwoBytes(b[at..][..2]); }
    if at + 4 <= |b| { FourBytes(b[at..][..4]); }
  }

  /** Taking the field at `at` moves the cursor past it, or stops it there for good. */
  lemma FieldTaken(b: seq<byte>, at: nat, n: nat)
    requires at <= |b| < at + n ==> FieldStart(|b|) == at
    ensures RemovePrefix(Cursor(b, at), n) == Cursor(b, at + n)
  {
    if at + n <= |b| { assert b[at..][n..] == b[at + n..]; }
  }

  /** The header that a buffer of any length holds: each field from its place, zero from the first on
      that is cut off. */
  function HeaderAt(b: seq<byte>): TCPHeader {
    var flags := Word8(b, 13);
    TCPHeader(Word16(b, 0), Word16(b, 2), Word32(b, 4), Word32(b, 8), Word8(b, 12) / 16,
              Bit(flags, 32), Bit(flags, 16), Bit(flags, 8), Bit(flags, 4), Bit(flags, 2), Bit(flags, 1),
              Word16(b, 14), Word16(b, 16), Word16(b, 18))
  }

  /** Every field of a parsed header is read from its place in the buffer, however short that is. */
  lemma FieldPlaces(buffer: seq<byte>)
    ensures ParseHeader(Parser(buffer, NoError)).header == HeaderAt(buffer)
  {
    NumberPlaces(buffer);
    ControlPlaces(buffer);
    TrailerPlaces(buffer);
  }

  lemma NumberPlaces(b: seq<byte>)
    ensures ParseNumbers(Parser(b, NoError))
         == Numbers(Word16(b, 0), Word16(b, 2), Word32(b, 4), Word32(b, 8), Cursor(b, 12))
  {
    assert b[0..] == b;
    IntAt(b, 0);
    IntAt(b, 2);
    IntAt(b, 4);
    IntAt(b, 8);
    FieldTaken(b, 0, 2);
    FieldTaken(b, 2, 2);
    FieldTaken(b, 4, 4);
    FieldTaken(b, 8, 4);
  }

  lemma ControlPlaces(b: seq<byte>)
    ensures ParseControls(Cursor(b, 12)) == Controls(Word8(b, 12) / 16, Word8(b, 13), Word16(b, 14), Cursor(b, 16))
  {
    IntAt(b, 12);
    IntAt(b, 13);
    IntAt(b, 14);
    FieldTaken(b, 12, 1);
    FieldTaken(b, 13, 1);
    FieldTaken(b, 14, 2);
  }

  lemma TrailerPlaces(b: seq<byte>)
    ensures ParseTrailer(Cursor(b, 16)) == Trailer(Word16(b, 16), Word16(b, 18), Cursor(b, 20))
  {
    IntAt(b, 16);
    IntAt(b, 18);
    FieldTaken(b, 16, 2);
    FieldTaken(b, 18, 2);
  }

  // ---- the wire image ----

  /** A buffer that shows a header and a payload, to the last bit: each field in its place, the reserved bits
      and the options zero, then the payload. The offset has only four bits. */
  ghost predicate Pictures(b: seq<byte>, h: TCPHeader, payload: seq<byte>) {
    && |b| == 4 * h.doff + |payload| && h.doff >= 5
    && HeaderAt(b) == h.(doff := h.doff % 16)
    && b[12] % 16 == 0 && b[13] < 64
    && (forall i :: 20 <= i < 4 * h.doff ==> b[i] == 0)
    && b[4 * h.doff..] == payload
  }

  lemma HeaderPictured(h: TCPHeader, payload: seq<byte>)
    requires h.doff >= 5
    ensures Pictures(HeaderBytes(h) + payload, h, payload)
  {
    var b := HeaderBytes(h) + payload;
    HeaderRoundTrip(h, payload);
    FieldPlaces(b);
    ReservedClear(h, payload);
    assert b[4 * h.doff..] == payload;
  }

  lemma ReservedClear(h: TCPHeader, payload: seq<byte>)
    requires h.doff >= 5
    ensures var b := HeaderBytes(h) + payload;
            && b[12] % 16 == 0 && b[13] < 64
            && (forall i :: 20 <= i < 4 * h.doff ==> b[i] == 0)
  {
    var b, front := HeaderBytes(h) + payload, FrontFields(h);
    assert b[12] == front[12] && b[13] == front[13];
    FrontBytes(h);
    assert forall i :: 20 <= i < 4 * h.doff ==> b[i] == Padding(h)[i - 20];
  }

  lemma FrontBytes(h: TCPHeader)
    ensures FrontFields(h)[12] % 16 == 0 && FrontFields(h)[13] < 64
  {
    var word := h.doff * 16 % 0x100;
    OneByte(word);
    OneByte(FlagByte(h));
    var numbers := ToNetwork(h.sport, 2) + ToNetwork(h.dport, 2) + ToNetwork(h.seqno, 4) + ToNetwork(h.ackno, 4);
    TwoAfter(numbers, word, FlagByte(h), ToNetwork(h.win, 2));
  }

  lemma OneByte(x: byte)
    ensures ToNetwork(x, 1) == [x]
  {
    assert ToNetwork(x / 0x100, 0) == [];
  }

  lemma TwoAfter(front: seq<byte>, x: byte, y: byte, back: seq<byte>)
    ensures (front + [x] + [y] + back)[|front|] == x && (front + [x] + [y] + back)[|front| + 1] == y
  {
  }

  /** The wire image of a segment shows it, with the checksum of the image that has zeros in the field; a header
      below five words has none. */
  lemma WireImage(seg: TCPSegment, pseudo: uint32)
    ensures Serialize(seg, pseudo).Some? <==> seg.header.doff >= 5
    ensures seg.header.doff >= 5 ==>
              var bytes := Serialize(seg, pseudo).value;
              && |bytes| >= HEADER_LENGTH
              && (var cksum := Value(Add(Checksum(pseudo, false), bytes[16 := 0][17 := 0]));
                  Pictures(bytes, seg.header.(cksum := cksum), seg.payload))
  {
    if seg.header.doff >= 5 {
      HeaderPictured(Checksummed(seg, pseudo).header, seg.payload);
      ZeroedImage(seg, pseudo);
    }
  }

  lemma ZeroedImage(seg: TCPSegment, pseudo: uint32)
    requires seg.header.doff >= 5
    ensures var bytes := Serialize(seg, pseudo).value;
            && |bytes| >= HEADER_LENGTH
            && Value(Add(Checksum(pseudo, false), bytes[16 := 0][17 := 0])) == ChecksumFor(seg, pseudo)
  {
    var bytes, zeroed := Serialize(seg, pseudo).value, HeaderBytes(seg.header.(cksum := 0));
    ZeroedField(seg.header, ChecksumFor(seg, pseudo), seg.payload);
    AddSplit(Checksum(pseudo, false), zeroed, seg.payload);
  }

  lemma ZeroedField(h: TCPHeader, v: uint16, payload: seq<byte>)
    requires h.doff >= 5
    ensures (HeaderBytes(h.(cksum := v)) + payload)[16 := 0][17 := 0] == HeaderBytes(h.(cksum := 0)) + payload
  {
    var back := ToNetwork(h.uptr, 2) + Padding(h) + payload;
    FieldInMiddle(h, v, payload);
    FieldInMiddle(h, 0, payload);
    ZeroWord();
    Cleared(FrontFields(h), ToNetwork(v, 2), back);
  }

  lemma FieldInMiddle(h: TCPHeader, v: uint16, payload: seq<byte>)
    requires h.doff >= 5
    ensures HeaderBytes(h.(cksum := v)) + payload
         == FrontFields(h) + ToNetwork(v, 2) + (ToNetwork(h.uptr, 2) + Padding(h) + payload)
  {
    assert FrontFields(h.(cksum := v)) == FrontFields(h);
    AroundField(FrontFields(h), ToNetwork(v, 2), ToNetwork(h.uptr, 2), Padding(h), payload);
  }

  lemma ZeroWord()
    ensures ToNetwork(0, 2) == [0, 0]
  {
    assert ToNetwork(0, 1) == [0];
  }

  lemma AroundField(a: seq<byte>, b: seq<byte>, c: seq<byte>, d: seq<byte>, e: seq<byte>)
    ensures a + b + c + d + e == a + b + (c + d + e)
  {
  }

  lemma Cleared(front: seq<byte>, word: seq<byte>, back: seq<byte>)
    requires |front| == 16 && |word| == 2
    ensures (front + word + back)[16 := 0][17 := 0] == front + [0, 0] + back
  {
  }

  lemma BitIs(f: byte, w: nat, high: nat, bit: nat, low: nat)
    requires w > 0 && bit < 2 && low < w && f == (2 * high + bit) * w + low
    ensures Bit(f, w) <==> bit == 1
  {
    QuotientUnique(f, w, 2 * high + bit, low);
  }

  function Weigh(urg: bool, ack: bool, psh: bool, rst: bool, syn: bool, fin: bool): nat {
    32 * AsNat(urg) + 16 * AsNat(ack) + 8 * AsNat(psh) + 4 * AsNat(rst) + 2 * AsNat(syn) + AsNat(fin)
  }

  /** A flag byte with clear reserved bits is the sum of its flags. */
  lemma FlagsFromBits(f: byte, urg: bool, ack: bool, psh: bool, rst: bool, syn: bool, fin: bool)
    requires f < 64 && urg == Bit(f, 32) && ack == Bit(f, 16) && psh == Bit(f, 8)
    requires rst == Bit(f, 4) && syn == Bit(f, 2) && fin == Bit(f, 1)
    ensures f == Weigh(urg, ack, psh, rst, syn, fin)
  {
    var high := LowFlags(f, rst, syn, fin);
    HighFlags(f, high, 4 * AsNat(rst) + 2 * AsNat(syn) + AsNat(fin), urg, ack, psh);
  }

  lemma LowFlags(f: byte, rst: bool, syn: bool, fin: bool) returns (high: nat)
    requires rst == Bit(f, 4) && syn == Bit(f, 2) && fin == Bit(f, 1)
    ensures f == 8 * high + 4 * AsNat(rst) + 2 * AsNat(syn) + AsNat(fin)
  {
    var r1, b0 := Halves(f);
    var r2, b1 := Halves(r1);
    var r3, b2 := Halves(r2);
    BitIs(f, 1, r1, b0, 0);
    BitIs(f, 2, r2, b1, b0);
    BitIs(f, 4, r3, b2, 2 * b1 + b0);
    high := r3;
  }

  lemma HighFlags(f: byte, high: nat, low: nat, urg: bool, ack: bool, psh: bool)
    requires f == 8 * high + low && low < 8 && high < 8
    requires urg == Bit(f, 32) && ack == Bit(f, 16) && psh == Bit(f, 8)
    ensures high == 4 * AsNat(urg) + 2 * AsNat(ack) + AsNat(psh)
  {
    var r4, b3 := Halves(high);
    var b5, b4 := Halves(r4);
    BitIs(f, 8, r4, b3, low);
    BitIs(f, 16, b5, b4, 8 * b3 + low);
    BitIs(f, 32, 0, b5, 16 * b4 + 8 * b3 + low);
  }

  lemma Halves(x: nat) returns (high: nat, bit: nat)
    ensures x == 2 * high + bit && bit < 2
  {
    high, bit := x / 2, x % 2;
  }

  lemma SameWord16(a: seq<byte>, b: seq<byte>, at: nat)
    requires at + 2 <= |a| && at + 2 <= |b| && Word16(a, at) == Word16(b, at)
    ensures a[at] == b[at] && a[at + 1] == b[at + 1]
  {
  }

  lemma SameWord32(a: seq<byte>, b: seq<byte>, at: nat)
    requires at + 4 <= |a| && at + 4 <= |b| && Word32(a, at) == Word32(b, at)
    ensures a[at] == b[at] && a[at + 1] == b[at + 1] && a[at + 2] == b[at + 2] && a[at + 3] == b[at + 3]
  {
    SameWord16(a, b, at);
    SameWord16(a, b, at + 2);
  }

  /** No two buffers show the same: the wire image is the only one. */
  lemma PictureUnique(a: seq<byte>, b: seq<byte>, h: TCPHeader, payload: seq<byte>)
    requires Pictures(a, h, payload) && Pictures(b, h, payload)
    ensures a == b
  {
    SameWord16(a, b, 0);
    SameWord16(a, b, 2);
    SameWord32(a, b, 4);
    SameWord32(a, b, 8);
    SameControls(a, b);
    SameWord16(a, b, 14);
    SameWord16(a, b, 16);
    SameWord16(a, b, 18);
    forall i | 4 * h.doff <= i < |a| ensures a[i] == b[i] {
      assert a[i] == payload[i - 4 * h.doff] == b[i];
    }
  }

  lemma SameControls(a: seq<byte>, b: seq<byte>)
    requires |a| >= HEADER_LENGTH && |b| >= HEADER_LENGTH && HeaderAt(a) == HeaderAt(b)
    requires a[12] % 16 == 0 && a[13] < 64 && b[12] % 16 == 0 && b[13] < 64
    ensures a[12] == b[12] && a[13] == b[13]
  {
    var h := HeaderAt(a);
    FlagsFromBits(a[13], h.urg, h.ack, h.psh, h.rst, h.syn, h.fin);
    FlagsFromBits(b[13], h.urg, h.ack, h.psh, h.rst, h.syn, h.fin);
  }

  // ---- what the segment parser accepts ----

  // where the header of an uncut buffer ends
  function HeaderEnd(buffer: seq<byte>): nat {
    var doff := Word8(buffer, 12) / 16;
    if doff < 5 then HEADER_LENGTH else 4 * doff
  }

  /** A header stops short exactly when the buffer does; the rest is the payload. An offset below five words
      is reported before that. */
  lemma HeaderParseExtent(buffer: seq<byte>)
    ensures ParseHeader(Parser(buffer, NoError)).parser ==
            if |buffer| < HeaderEnd(buffer) then Parser(buffer[FieldStart(|buffer|)..], PacketTooShort)
            else Parser(buffer[HeaderEnd(buffer)..], NoError)
    ensures ParseHeader(Parser(buffer, NoError)).result ==
            if Word8(buffer, 12) / 16 < 5 then HeaderTooShort
            else if |buffer| < HeaderEnd(buffer) then PacketTooShort
            else NoError
  {
    NumberPlaces(buffer);
    ControlPlaces(buffer);
    TrailerPlaces(buffer);
    var doff := Word8(buffer, 12) / 16;
    if doff >= 5 { FieldTaken(buffer, HEADER_LENGTH, 4 * doff - HEADER_LENGTH); }
  }

  /** The exact outcome of parsing any buffer, with all that is left in the segment. HeaderTooShort never
      reaches the caller: an offset below five words is accepted, and the payload then starts right
      after the fixed header. A short buffer leaves its whole fields behind and the rest as payload. */
  lemma SegmentParseOutcome(before: TCPSegment, buffer: seq<byte>, pseudo: uint32)
    ensures var intact := Value(Add(Checksum(pseudo, false), buffer)) == 0;
            ParseSegment(before, buffer, pseudo) ==
            if !intact then SegmentParse(BadChecksum, before)
            else if |buffer| < HeaderEnd(buffer) then
              SegmentParse(PacketTooShort, TCPSegment(HeaderAt(buffer), buffer[FieldStart(|buffer|)..]))
            else
              SegmentParse(NoError, TCPSegment(HeaderAt(buffer), buffer[HeaderEnd(buffer)..]))
  {
    FieldPlaces(buffer);
    HeaderParseExtent(buffer);
  }

  // a checksum of all ones between zeros is right
  lemma OnesBetweenZeros(front: seq<byte>, back: seq<byte>)
    requires |front| == 16 && WordSum(front, false) == WordSum(back, false) == 0
    ensures Value(Add(Checksum(0, false), front + ToNetwork(0xffff, 2) + back)) == 0
  {
    SumAroundChecksum(front, 0xffff, back);
    ZeroValue(Add(Checksum(0, false), front + ToNetwork(0xffff, 2) + back));
  }

  /** A buffer that announces a header of no words at all and is accepted. */
  lemma AcceptsOffsetBelowMinimum(before: TCPSegment) returns (buffer: seq<byte>)
    ensures |buffer| == HEADER_LENGTH && buffer[12] == 0
    ensures var sp := ParseSegment(before, buffer, 0); sp.result == NoError && sp.segment.header.doff == 0
  {
    var front := Zeros(16);
    var back := Zeros(2);
    OnesBetweenZeros(front, back);
    buffer := front + ToNetwork(0xffff, 2) + back;
    SegmentParseOutcome(before, buffer, 0);
  }

  lemma Zeros(n: nat) returns (zeros: seq<byte>)
    ensures |zeros| == n && WordSum(zeros, false) == 0
    ensures forall i :: 0 <= i < n ==> zeros[i] == 0
  {
    zeros := seq(n, _ => 0);
    ZeroSum(n, false);
  }

  lemma {:induction false} ZeroSum(n: nat, parity: bool)
    ensures WordSum(seq(n, _ => 0), parity) == 0
  {
    if n > 0 {
      assert seq(n, _ => 0)[1..] == seq(n - 1, _ => 0);
      ZeroSum(n - 1, !parity);
    }
  }

  /** No serialized segment survives the change of a single byte. */
  lemma CorruptionRejected(seg: TCPSegment, before: TCPSegment, pseudo: uint32, k: nat, b: byte)
    requires 5 <= seg.header.doff
    requires k < |Serialize(seg, pseudo).value| && b != Serialize(seg, pseudo).value[k]
    ensures ParseSegment(before, Serialize(seg, pseudo).value[k := b], pseudo) == SegmentParse(BadChecksum, before)
  {
    SerializedReadsZero(seg, pseudo);
    SingleByteErrorDetected(Checksum(pseudo, false), Serialize(seg, pseudo).value, k, b);
  }

  // ---- the imperative code ----

  method WriteHeader(h: TCPHeader) returns (r: Option<seq<byte>>)
    ensures r == SerializeHeader(h)
  {
    if h.doff < 5 { return None; }
    var ret := UnparseInt([], h.sport, 2);
    assert ret == ToNetwork(h.sport, 2);
    ret := UnparseInt(ret, h.dport, 2);
    ret := UnparseInt(ret, h.seqno, 4);
    ret := UnparseInt(ret, h.ackno, 4);
    ret := UnparseInt(ret, h.doff * 16 % 0x100, 1);
    ret := UnparseInt(ret, FlagByte(h), 1);
    ret := UnparseInt(ret, h.win, 2);
    assert ret == FrontFields(h);
    ret := UnparseInt(ret, h.cksum, 2);
    ret := UnparseInt(ret, h.uptr, 2);
    ret := ret + seq(4 * h.doff - |ret|, _ => 0);
    r := Some(ret);
  }

  method ReadHeader(p: NetParser) returns (h: TCPHeader, result: ParseResult)
    modifies p
    ensures HeaderParse(h, result, p.View()) == ParseHeader(old(p.View()))
  {
    Widths();
    var sport := p.ParseInt(2);
    var dport := p.ParseInt(2);
    var seqno := p.ParseInt(4);
    var ackno := p.ParseInt(4);
    assert Numbers(sport, dport, seqno, ackno, p.View()) == ParseNumbers(old(p.View()));
    ghost var p4 := p.View();
    var offset := p.ParseInt(1);
    var fl := p.ParseInt(1);
    var win := p.ParseInt(2);
    assert Controls(offset / 16, fl, win, p.View()) == ParseControls(p4);
    ghost var p7 := p.View();
    var cksum := p.ParseInt(2);
    var uptr := p.ParseInt(2);
    assert Trailer(cksum, uptr, p.View()) == ParseTrailer(p7);
    h := TCPHeader(sport, dport, seqno, ackno, offset / 16,
                   Bit(fl, 32), Bit(fl, 16), Bit(fl, 8), Bit(fl, 4), Bit(fl, 2), Bit(fl, 1), win, cksum, uptr);
    if h.doff < 5 { return h, HeaderTooShort; }
    p.Skip(h.doff * 4 - HEADER_LENGTH);
    result := p.error;
  }

  method WriteSegment(seg: TCPSegment, pseudo: uint32) returns (r: Option<seq<byte>>)
    ensures r == Serialize(seg, pseudo)
  {
    var headerOut := seg.header.(cksum := 0);
    var zeroed := WriteHeader(headerOut);
    if zeroed.None? { return None; }
    var check := new InternetChecksum(pseudo);
    check.AddBytes(zeroed.value);
    check.AddBytes(seg.payload);
    var value := check.ReadValue();
    headerOut := headerOut.(cksum := value);
    var front := WriteHeader(headerOut);
    r := Some(front.value + seg.payload);
  }

  method ReadSegment(before: TCPSegment, buffer: seq<byte>, pseudo: uint32)
    returns (result: ParseResult, seg: TCPSegment)
    ensures SegmentParse(result, seg) == ParseSegment(before, buffer, pseudo)
  {
    var check := new InternetChecksum(pseudo);
    check.AddBytes(buffer);
    var value := check.ReadValue();
    if value != 0 { return BadChecksum, before; }
    var p := new NetParser(buffer);
    var h, discarded := ReadHeader(p);
    return p.error, TCPSegment(h, p.buffer);
  }
}
