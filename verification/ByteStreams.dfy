/** The bounded in-memory byte stream (libsponge/byte_stream.cc). */
module ByteStreams {
  import opened FixedWidth

  /** The abstract value of a stream: everything ever written, and how much of it was popped. */
  datatype StreamLog = StreamLog(written: seq<byte>, read: nat, capacity: nat, ended: bool, error: bool)

  type Stream = s: StreamLog | s.read <= |s.written| <= s.read + s.capacity witness StreamLog([], 0, 0, false, false)

  function New(capacity: nat): Stream { StreamLog([], 0, capacity, false, false) }

  // what the deque of the code holds
  function Buffer(s: Stream): seq<byte> { s.written[s.read..] }

  function Size(s: Stream): nat { |s.written| - s.read }

  function Remaining(s: Stream): nat { s.capacity - Size(s) }

  predicate Eof(s: Stream) { s.ended && Size(s) == 0 }

  function Write(s: Stream, data: seq<byte>): Stream {
    s.(written := s.written + data[..Min(|data|, Remaining(s))])
  }

  // the bytes that a read of `len` returns, and the stream it leaves
  function ReadBytes(s: Stream, len: nat): seq<byte> {
    s.written[s.read..s.read + Min(len, Size(s))]
  }

  function Read(s: Stream, len: nat): Stream {
    s.(read := s.read + Min(len, Size(s)))
  }

  function EndInput(s: Stream): Stream { s.(ended := true) }

  /** A write takes a prefix of the data, and all of it unless that fills the stream. */
  lemma WritesWhatFits(s: Stream, data: seq<byte>)
    ensures var t := Write(s, data);
            && s.written <= t.written && t == s.(written := t.written)
            && t.written[|s.written|..] <= data
            && (t.written == s.written + data || Remaining(t) == 0)
  {
  }

  /** A read returns the next bytes, and the number asked for unless that drains the stream. */
  lemma ReadsWhatIsThere(s: Stream, len: nat)
    ensures var t := Read(s, len);
            && t == s.(read := t.read)
            && ReadBytes(s, len) + Buffer(t) == Buffer(s)
            && |ReadBytes(s, len)| <= len
            && (|ReadBytes(s, len)| == len || Eof(EndInput(t)))
  {
  }

  datatype StreamOp = WriteOp(data: seq<byte>) | ReadOp(len: nat) | EndOp

  function Apply(s: Stream, op: StreamOp): Stream {
    match op
    case WriteOp(data) => Write(s, data)
    case ReadOp(len) => Read(s, len)
    case EndOp => EndInput(s)
  }

  function Run(s: Stream, ops: seq<StreamOp>): Stream
    decreases ops
  {
    if ops == [] then s else Run(Apply(s, ops[0]), ops[1..])
  }

  /** The concatenation of all bytes that the reads of a run return. */
  function Output(s: Stream, ops: seq<StreamOp>): seq<byte>
    decreases ops
  {
    if ops == [] then []
    else (if ops[0].ReadOp? then ReadBytes(s, ops[0].len) else []) + Output(Apply(s, ops[0]), ops[1..])
  }

  /** Over any run of writes, reads and end_input, the reads return the written bytes in order,
      none lost, duplicated or reordered; what is not yet read is exactly the buffer; the end of input is
      what end_input made it, and the end of file is reached when all is read. */
  lemma {:induction false} FirstInFirstOut(s: Stream, ops: seq<StreamOp>)
    ensures var t := Run(s, ops);
            && s.written <= t.written && t.capacity == s.capacity && t.error == s.error
            && (t.ended <==> s.ended || EndOp in ops)
            && (Eof(t) <==> t.ended && s.read + |Output(s, ops)| == |t.written|)
            && Output(s, ops) + Buffer(t) == t.written[s.read..]
            && |Output(s, ops)| == t.read - s.read
    decreases ops
  {
    if ops != [] {
      var u, t := Apply(s, ops[0]), Run(s, ops);
      FirstInFirstOut(u, ops[1..]);
      if ops[0].ReadOp? { ReadContinues(s, ops[0].len, t, Output(u, ops[1..])); }
    }
  }

  lemma ReadContinues(s: Stream, len: nat, t: Stream, more: seq<byte>)
    requires s.written <= t.written && Read(s, len).read <= t.read
    requires more + Buffer(t) == t.written[Read(s, len).read..]
    ensures ReadBytes(s, len) + more + Buffer(t) == t.written[s.read..]
  {
    var mid := Read(s, len).read;
    assert ReadBytes(s, len) == s.written[s.read..mid] == t.written[s.read..mid];
    assert t.written[s.read..] == t.written[s.read..mid] + t.written[mid..];
  }

  class ByteStream {
    var bts: seq<byte>
    const bSize: nat
    var readCount: nat
    var writeCount: nat
    var endFlag: bool
    var errorFlag: bool
    ghost var written: seq<byte>

    ghost predicate Valid()
      reads this
    {
      && readCount <= writeCount == |written|
      && bts == written[readCount..]
      && |bts| <= bSize
    }

    ghost function View(): Stream
      reads this
      requires Valid()
    {
      StreamLog(written, readCount, bSize, endFlag, errorFlag)
    }

    constructor (capacity: nat)
      ensures Valid() && View() == New(capacity)
    {
      bts, bSize, readCount, writeCount, endFlag, errorFlag, written := [], capacity, 0, 0, false, false, [];
    }

    method WriteString(data: seq<byte>) returns (len: nat)
      requires Valid()
      modifies this
      ensures Valid() && View() == Write(old(View()), data)
      ensures len == |written| - |old(written)|
    {
      var rem := RemainingCapacity();
      len := |data|;
      if len > rem { len := rem; }
      var i := 0;
      while i < len
        invariant i <= len <= |data|
        invariant Valid() && View() == old(View()).(written := old(written) + data[..i])
      {
        bts := bts + [data[i]];
        written := written + [data[i]];
        i := i + 1;
        writeCount := writeCount + 1;
      }
    }

    method PeekOutput(len: nat) returns (s: seq<byte>)
      requires Valid() && len <= Size(View())
      ensures s == ReadBytes(View(), len)
    {
      s := bts[..len];
      assert s == written[readCount..readCount + len];
    }

    method PopOutput(len: nat)
      requires Valid() && len <= Size(View())
      modifies this
      ensures Valid() && View() == Read(old(View()), len)
    {
      var i := 0;
      while i < len
        invariant i <= len
        invariant Valid() && View() == Read(old(View()), i)
      {
        bts := bts[1..];
        i := i + 1;
        readCount := readCount + 1;
      }
    }

    method ReadString(len: nat) returns (s: seq<byte>)
      requires Valid()
      modifies this
      ensures Valid() && View() == Read(old(View()), len)
      ensures s == ReadBytes(old(View()), len)
    {
      var length := len;
      if length > |bts| { length := |bts|; }
      s := PeekOutput(length);
      PopOutput(length);
    }

    method End()
      requires Valid()
      modifies this
      ensures Valid() && View() == EndInput(old(View()))
    {
      endFlag := true;
    }

    method RemainingCapacity() returns (n: nat)
      requires Valid()
      ensures n == Remaining(View())
    {
      n := bSize - |bts|;
    }

    method AtEof() returns (b: bool)
      requires Valid()
      ensures b == Eof(View())
    {
      b := endFlag && bts == [];
    }
  }
}
