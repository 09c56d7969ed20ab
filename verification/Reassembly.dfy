/** The stream reassembler (libsponge/stream_reassembler.cc): a sorted map of possibly overlapping
    substrings, from which contiguous bytes are moved to an output stream. */
module Reassembly {
  import opened FixedWidth
  import opened OrderedMaps
  import opened ByteStreams

  type Piece = Entry<seq<byte>>

  function End(p: Piece): nat { p.key + |p.value| }

  datatype Reassembler = Reassembler(
    output: Stream,
    capacity: nat,
    readPtr: nat,
    writePtr: nat,
    eofIndex: nat,
    eofFlag: bool,
    pieces: seq<Piece>)

  function Initial(capacity: nat): Reassembler {
    Reassembler(ByteStreams.New(capacity), capacity, 0, 0, capacity, false, [])
  }

  // first index that does not fit the window
  function RightEdge(r: Reassembler): nat { r.output.read + r.capacity }

  // substr(0, right - index), where the subtraction is on 64-bit unsigned integers
  function Prefix(data: seq<byte>, index: nat, right: nat): seq<byte> {
    data[..Min(|data|, (right - index) % 0x1_0000_0000_0000_0000)]
  }

  function Truncate(data: seq<byte>, index: nat, right: nat): seq<byte> {
    if index + |data| > right then Prefix(data, index, right) else data
  }

  // of two substrings with the same index the longer is kept
  function Store(pieces: seq<Piece>, index: nat, data: seq<byte>): seq<Piece> {
    var i := LowerBound(pieces, index);
    if !HasKey(pieces, index) then Insert(pieces, index, data)
    else if |data| > |pieces[i].value| then pieces[i := Entry(index, data)]
    else pieces
  }

  datatype Assembly = Assembly(pieces: seq<Piece>, writePtr: nat, output: Stream)

  // the first loop: write out whatever continues the assembled prefix
  function Assemble(pieces: seq<Piece>, w: nat, out: Stream): Assembly
    decreases pieces
  {
    if pieces == [] || pieces[0].key > w then
      Assembly(pieces, w, out)
    else if End(pieces[0]) > w then
      Assemble(pieces[1..], End(pieces[0]), Write(out, pieces[0].value[w - pieces[0].key..]))
    else
      var rest := Assemble(pieces[1..], w, out);
      rest.(pieces := [pieces[0]] + rest.pieces)
  }

  // the substring that replaces two overlapping neighbours
  function Joined(a: Piece, b: Piece): Piece
    requires a.key < b.key < End(a)
  {
    if End(b) <= End(a) then a else Entry(a.key, a.value + b.value[End(a) - b.key..])
  }

  // the second loop: no two substrings overlap afterwards
  function Merge(pieces: seq<Piece>): (merged: seq<Piece>)
    requires Sorted(pieces)
    ensures Sorted(merged)
    ensures pieces != [] ==> merged != [] && merged[0].key == pieces[0].key
    decreases |pieces|
  {
    if |pieces| <= 1 then pieces
    else if pieces[1].key < End(pieces[0]) then Merge([Joined(pieces[0], pieces[1])] + pieces[2..])
    else [pieces[0]] + Merge(pieces[1..])
  }

  lemma {:induction false} AssembleSorted(pieces: seq<Piece>, w: nat, out: Stream)
    requires Sorted(pieces)
    ensures var a := Assemble(pieces, w, out);
            && Sorted(a.pieces)
            && w <= a.writePtr
            && (a.pieces != [] ==> pieces != [] && pieces[0].key <= a.pieces[0].key)
    decreases pieces
  {
    if pieces != [] && pieces[0].key <= w {
      if End(pieces[0]) > w {
        AssembleSorted(pieces[1..], End(pieces[0]), Write(out, pieces[0].value[w - pieces[0].key..]));
      } else {
        AssembleSorted(pieces[1..], w, out);
      }
    }
  }

  lemma StoreSorted(pieces: seq<Piece>, index: nat, data: seq<byte>)
    requires Sorted(pieces)
    ensures Sorted(Store(pieces, index, data))
  {
    InsertSorted(pieces, index, data);
  }

  // what push_substring does before its loops
  function Accept(r: Reassembler, data: seq<byte>, index: nat, eof: bool): Reassembler {
    var marksEnd := index + |data| <= RightEdge(r) && eof;
    var stored := Store(r.pieces, index, Truncate(data, index, RightEdge(r)));
    var end := if marksEnd then index + |data| else r.eofIndex;
    r.(readPtr := r.output.read, eofIndex := end, eofFlag := r.eofFlag || marksEnd, pieces := stored)
  }

  // the two loops and the final end-of-input test
  function Settle(r: Reassembler): Reassembler
    requires Sorted(r.pieces)
  {
    var a := Assemble(r.pieces, r.writePtr, r.output);
    AssembleSorted(r.pieces, r.writePtr, r.output);
    var output := if a.writePtr == r.eofIndex && r.eofFlag then EndInput(a.output) else a.output;
    r.(output := output, writePtr := a.writePtr, pieces := Merge(a.pieces))
  }

  function Push(r: Reassembler, data: seq<byte>, index: nat, eof: bool): (t: Reassembler)
    requires Sorted(r.pieces)
    ensures Sorted(t.pieces) && t.capacity == r.capacity
  {
    StoreSorted(r.pieces, index, Truncate(data, index, RightEdge(r)));
    Settle(Accept(r, data, index, eof))
  }

  // total size of the substrings that start above w
  function BytesAbove(pieces: seq<Piece>, w: nat): nat {
    if pieces == [] then 0
    else (if pieces[0].key > w then |pieces[0].value| else 0) + BytesAbove(pieces[1..], w)
  }

  function Unassembled(r: Reassembler): nat { BytesAbove(r.pieces, r.writePtr) }

  lemma BytesAboveSnoc(pieces: seq<Piece>, p: Piece, w: nat)
    ensures BytesAbove(pieces + [p], w) == BytesAbove(pieces, w) + (if p.key > w then |p.value| else 0)
  {
    if pieces != [] {
      assert (pieces + [p])[1..] == pieces[1..] + [p];
      BytesAboveSnoc(pieces[1..], p, w);
    }
  }

  // the first loop from iterator position i on, erasing in place
  function AssembleFrom(pieces: seq<Piece>, i: nat, w: nat, out: Stream): Assembly
    requires i <= |pieces|
    decreases |pieces| - i
  {
    if i == |pieces| || pieces[i].key > w then
      Assembly(pieces, w, out)
    else if End(pieces[i]) > w then
      AssembleFrom(Erase(pieces, i), i, End(pieces[i]), Write(out, pieces[i].value[w - pieces[i].key..]))
    else
      AssembleFrom(pieces, i + 1, w, out)
  }

  /** Erasing in place comes to the same as taking the sequence apart. */
  lemma {:induction false} AssembleInPlace(pieces: seq<Piece>, i: nat, w: nat, out: Stream)
    requires i <= |pieces|
    ensures var rest := Assemble(pieces[i..], w, out);
            AssembleFrom(pieces, i, w, out) == rest.(pieces := pieces[..i] + rest.pieces)
    decreases |pieces| - i
  {
    if i == |pieces| || pieces[i].key > w {
      assert pieces == pieces[..i] + pieces[i..];
    } else if End(pieces[i]) > w {
      var next := Erase(pieces, i);
      AssembleInPlace(next, i, End(pieces[i]), Write(out, pieces[i].value[w - pieces[i].key..]));
      assert pieces[i..][1..] == next[i..] && next[..i] == pieces[..i];
    } else {
      AssembleInPlace(pieces, i + 1, w, out);
      assert pieces[i..][1..] == pieces[i + 1..];
      var rest := Assemble(pieces[i + 1..], w, out).pieces;
      assert pieces[..i] + ([pieces[i]] + rest) == pieces[..i + 1] + rest;
    }
  }

  lemma AssembleFromStart(pieces: seq<Piece>, w: nat, out: Stream)
    ensures AssembleFrom(pieces, 0, w, out) == Assemble(pieces, w, out)
  {
    AssembleInPlace(pieces, 0, w, out);
    assert pieces[0..] == pieces;
  }

  lemma JoinSorted(pieces: seq<Piece>, i: nat)
    requires Sorted(pieces) && 0 < i < |pieces| && pieces[i].key < End(pieces[i - 1])
    ensures Sorted(Erase(pieces[i - 1 := Joined(pieces[i - 1], pieces[i])], i))
  {
    var next := Erase(pieces[i - 1 := Joined(pieces[i - 1], pieces[i])], i);
    forall j, k | 0 <= j < k < |next| ensures next[j].key < next[k].key {
      assert next[j].key == pieces[if j < i then j else j + 1].key;
      assert next[k].key == pieces[if k < i then k else k + 1].key;
    }
  }

  // the second loop from iterator position i on, with the previous entry at i - 1
  function MergeFrom(pieces: seq<Piece>, i: nat): seq<Piece>
    requires Sorted(pieces) && i <= |pieces|
    decreases |pieces| - i
  {
    if i == |pieces| then pieces
    else if i == 0 || End(pieces[i - 1]) <= pieces[i].key then MergeFrom(pieces, i + 1)
    else
      JoinSorted(pieces, i);
      MergeFrom(Erase(pieces[i - 1 := Joined(pieces[i - 1], pieces[i])], i), i)
  }

  lemma {:induction false} MergeInPlace(pieces: seq<Piece>, i: nat)
    requires Sorted(pieces) && 0 < i <= |pieces|
    ensures MergeFrom(pieces, i) == pieces[..i - 1] + Merge(pieces[i - 1..])
    decreases |pieces| - i
  {
    if i == |pieces| {
      assert pieces == pieces[..i - 1] + pieces[i - 1..];
    } else if End(pieces[i - 1]) <= pieces[i].key {
      MergeInPlace(pieces, i + 1);
      MergeMovesOn(pieces, i);
    } else {
      JoinSorted(pieces, i);
      MergeInPlace(Erase(pieces[i - 1 := Joined(pieces[i - 1], pieces[i])], i), i);
      MergeJoins(pieces, i);
    }
  }

  lemma MergeMovesOn(pieces: seq<Piece>, i: nat)
    requires Sorted(pieces) && 0 < i < |pieces| && End(pieces[i - 1]) <= pieces[i].key
    ensures pieces[..i] + Merge(pieces[i..]) == pieces[..i - 1] + Merge(pieces[i - 1..])
  {
    var tail := pieces[i - 1..];
    assert tail[1..] == pieces[i..];
    assert pieces[..i] == pieces[..i - 1] + [tail[0]];
  }

  lemma MergeJoins(pieces: seq<Piece>, i: nat)
    requires Sorted(pieces) && 0 < i < |pieces| && pieces[i].key < End(pieces[i - 1])
    ensures var next := Erase(pieces[i - 1 := Joined(pieces[i - 1], pieces[i])], i);
            && Sorted(next) && next[..i - 1] == pieces[..i - 1]
            && Merge(next[i - 1..]) == Merge(pieces[i - 1..])
  {
    JoinSorted(pieces, i);
    var next := Erase(pieces[i - 1 := Joined(pieces[i - 1], pieces[i])], i);
    var tail := pieces[i - 1..];
    assert next[i - 1..] == [Joined(tail[0], tail[1])] + tail[2..];
  }

  /** Erasing in place comes to the same as taking the sequence apart. */
  lemma MergeFromStart(pieces: seq<Piece>)
    requires Sorted(pieces)
    ensures MergeFrom(pieces, 0) == Merge(pieces)
  {
    if pieces != [] {
      MergeInPlace(pieces, 1);
      assert pieces[..0] == [] && pieces[0..] == pieces;
    }
  }

  class StreamReassembler {
    const output: ByteStream
    const capacity: nat
    var readPtr: nat
    var writePtr: nat
    var eofIndex: nat
    var eofFlag: bool
    var stream: seq<Piece>

    ghost predicate Valid()
      reads this, output
    {
      output.Valid() && Sorted(stream)
    }

    ghost function View(): Reassembler
      reads this, output
      requires Valid()
    {
      Reassembler(output.View(), capacity, readPtr, writePtr, eofIndex, eofFlag, stream)
    }

    constructor (capacity: nat)
      ensures Valid() && fresh(output) && View() == Initial(capacity)
    {
      output := new ByteStream(capacity);
      this.capacity := capacity;
      readPtr, writePtr, eofIndex, eofFlag, stream := 0, 0, capacity, false, [];
    }

    method PushSubstring(data: seq<byte>, index: nat, eof: bool)
      requires Valid()
      modifies this, output
      ensures Valid() && View() == Push(old(View()), data, index, eof)
    {
      AcceptSubstring(data, index, eof);
      SettleSubstrings();
    }

    method AcceptSubstring(data: seq<byte>, index: nat, eof: bool)
      requires Valid()
      modifies this
      ensures Valid() && View() == Accept(old(View()), data, index, eof)
    {
      var ndata := CutToWindow(data, index, eof);
      StoreSubstring(ndata, index);
    }

    method CutToWindow(data: seq<byte>, index: nat, eof: bool) returns (ndata: seq<byte>)
      requires Valid()
      modifies this`readPtr, this`eofIndex, this`eofFlag
      ensures ndata == Truncate(data, index, RightEdge(View()))
      ensures readPtr == output.View().read
      ensures var marksEnd := index + |data| <= RightEdge(View()) && eof;
              && eofIndex == (if marksEnd then index + |data| else old(eofIndex))
              && eofFlag == (old(eofFlag) || marksEnd)
    {
      readPtr := output.readCount;
      ndata := data;
      if index + |data| > readPtr + capacity {
        ndata := Prefix(data, index, readPtr + capacity);
      } else if eof {
        eofIndex := index + |ndata|;
        eofFlag := true;
      }
    }

    method SettleSubstrings()
      requires Valid()
      modifies this, output
      ensures Valid() && View() == Settle(old(View()))
    {
      ghost var r := View();
      AssembleLoop();
      ghost var a := Assembly(stream, writePtr, output.View());
      assert a == Assemble(r.pieces, r.writePtr, r.output);
      MergeLoop();
      if writePtr == eofIndex && eofFlag { output.End(); }
    }

    method StoreSubstring(ndata: seq<byte>, index: nat)
      requires Valid()
      modifies this`stream
      ensures Valid() && stream == Store(old(stream), index, ndata)
    {
      StoreSorted(stream, index, ndata);
      var it := LowerBound(stream, index);
      if HasKey(stream, index) {
        if |ndata| > |stream[it].value| { stream := stream[it := Entry(index, ndata)]; }
      } else {
        stream := Insert(stream, index, ndata);
      }
    }

    method AssembleLoop()
      requires Valid()
      modifies this`stream, this`writePtr, output
      ensures Valid()
      ensures Assembly(stream, writePtr, output.View()) == Assemble(old(stream), old(writePtr), old(output.View()))
      ensures output.View().read == old(output.View().read)
    {
      var i := 0;
      AssembleSorted(stream, writePtr, output.View());
      AssembleFromStart(stream, writePtr, output.View());
      ghost var goal := AssembleFrom(stream, 0, writePtr, output.View());
      while i < |stream| && stream[i].key <= writePtr
        invariant i <= |stream| && output.Valid()
        invariant output.View().read == old(output.View().read)
        invariant AssembleFrom(stream, i, writePtr, output.View()) == goal
        decreases |stream| - i
      {
        var oldWrite := writePtr;
        if End(stream[i]) > oldWrite {
          writePtr := End(stream[i]);
          var n := output.WriteString(stream[i].value[oldWrite - stream[i].key..]);
          stream := Erase(stream, i);
        } else {
          i := i + 1;
        }
      }
    }

    method MergeLoop()
      requires Valid()
      modifies this`stream
      ensures Valid() && stream == Merge(old(stream))
    {
      ghost var goal := MergeFrom(stream, 0);
      MergeFromStart(stream);
      var oldIt, i := 0, 0;
      while i < |stream|
        invariant i <= |stream| && Sorted(stream) && MergeFrom(stream, i) == goal
        invariant i > 0 ==> oldIt == i - 1
        decreases |stream| - i
      {
        if i != 0 {
          if stream[i].key < End(stream[oldIt]) {
            JoinWithPrevious(i);
          } else {
            oldIt, i := i, i + 1;
          }
        } else {
          oldIt, i := i, i + 1;
        }
      }
    }

    method JoinWithPrevious(i: nat)
      requires Valid() && 0 < i < |stream| && stream[i].key < End(stream[i - 1])
      modifies this`stream
      ensures Valid() && stream == Erase(old(stream)[i - 1 := Joined(old(stream[i - 1]), old(stream[i]))], i)
    {
      JoinSorted(stream, i);
      ghost var next := Erase(stream[i - 1 := Joined(stream[i - 1], stream[i])], i);
      if End(stream[i]) > End(stream[i - 1]) {
        var joined := stream[i - 1].value + stream[i].value[End(stream[i - 1]) - stream[i].key..];
        stream := stream[i - 1 := Entry(stream[i - 1].key, joined)];
      }
      stream := Erase(stream, i);
      assert stream == next;
    }

    method UnassembledBytes() returns (unassem: nat)
      requires Valid()
      ensures unassem == Unassembled(View())
    {
      unassem := 0;
      for i := 0 to |stream|
        invariant unassem == BytesAbove(stream[..i], writePtr)
      {
        BytesAboveSnoc(stream[..i], stream[i], writePtr);
        assert stream[..i + 1] == stream[..i] + [stream[i]];
        if stream[i].key > writePtr { unassem := unassem + |stream[i].value|; }
      }
      assert stream[..|stream|] == stream;
    }

    method Empty() returns (b: bool)
      requires Valid()
      ensures b <==> Unassembled(View()) == 0
    {
      var n := UnassembledBytes();
      b := n == 0;
    }
  }
}
