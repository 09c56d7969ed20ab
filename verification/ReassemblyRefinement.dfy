/** The map of substrings refines a set of accepted indices: one byte, one index. */
module ReassemblyRefinement {
  import opened FixedWidth
  import opened OrderedMaps
  import opened ByteStreams
  import opened Reassembly

  predicate Covers(p: Piece, i: nat) { p.key <= i < End(p) }

  predicate Holds(pieces: seq<Piece>, i: nat) {
    exists k :: 0 <= k < |pieces| && Covers(pieces[k], i)
  }

  // every substring is already written out, or waits above a gap at w
  predicate Settled(pieces: seq<Piece>, w: nat) {
    forall k :: 0 <= k < |pieces| ==> End(pieces[k]) <= w || w < pieces[k].key
  }

  predicate Disjoint(pieces: seq<Piece>) {
    forall j, k :: 0 <= j < k < |pieces| ==> End(pieces[j]) <= pieces[k].key
  }

  predicate Below(pieces: seq<Piece>, right: nat) {
    forall k :: 0 <= k < |pieces| ==> End(pieces[k]) <= right
  }

  /** What every push within the window keeps. */
  ghost predicate Sound(r: Reassembler) {
    && r.output.capacity == r.capacity
    && r.writePtr == |r.output.written|
    && Sorted(r.pieces) && Disjoint(r.pieces)
    && Settled(r.pieces, r.writePtr) && Below(r.pieces, RightEdge(r))
  }

  /** The refined state: index i has been accepted. */
  ghost predicate Accepted(r: Reassembler, i: nat) {
    i < r.writePtr || Holds(r.pieces, i)
  }

  // ---- Store ----

  lemma StoreKeeps(pieces: seq<Piece>, index: nat, data: seq<byte>, right: nat)
    requires Sorted(pieces) && Below(pieces, right) && index + |data| <= right
    ensures Sorted(Store(pieces, index, data)) && Below(Store(pieces, index, data), right)
  {
    StoreSorted(pieces, index, data);
  }

  lemma HoldsAt(pieces: seq<Piece>, k: nat, i: nat)
    requires k < |pieces| && Covers(pieces[k], i)
    ensures Holds(pieces, i)
  {
  }

  lemma StoreHolds(pieces: seq<Piece>, index: nat, data: seq<byte>, i: nat)
    ensures Holds(Store(pieces, index, data), i) <==> Holds(pieces, i) || index <= i < index + |data|
  {
    var at := LowerBound(pieces, index);
    var stored := Store(pieces, index, data);
    if Holds(pieces, i) {
      var k :| 0 <= k < |pieces| && Covers(pieces[k], i);
      HoldsAt(stored, if HasKey(pieces, index) || k < at then k else k + 1, i);
    }
    if index <= i < index + |data| {
      HoldsAt(stored, at, i);
    }
    if Holds(stored, i) {
      var k :| 0 <= k < |stored| && Covers(stored[k], i);
      if k != at && !HasKey(pieces, index) {
        HoldsAt(pieces, if k < at then k else k - 1, i);
      }
    }
  }

  // ---- the first loop ----

  lemma HoldsCons(pieces: seq<Piece>, i: nat)
    requires pieces != []
    ensures Holds(pieces, i) <==> Covers(pieces[0], i) || Holds(pieces[1..], i)
  {
    if Holds(pieces[1..], i) {
      var k :| 0 <= k < |pieces[1..]| && Covers(pieces[1..][k], i);
      HoldsAt(pieces, k + 1, i);
    }
    if Holds(pieces, i) {
      var k :| 0 <= k < |pieces| && Covers(pieces[k], i);
      if k > 0 { HoldsAt(pieces[1..], k - 1, i); }
    }
  }

  // the stream after the piece at the front has been written from w on
  function Written(p: Piece, w: nat, out: Stream): Stream
    requires p.key <= w < End(p)
  {
    Write(out, p.value[w - p.key..])
  }

  /** No write is cut short, and what is left is settled. */
  lemma {:induction false} AssembleKeeps(pieces: seq<Piece>, w: nat, out: Stream)
    requires Sorted(pieces) && Below(pieces, out.read + out.capacity) && |out.written| == w
    ensures var a := Assemble(pieces, w, out);
            && Below(a.pieces, out.read + out.capacity)
            && Settled(a.pieces, a.writePtr)
            && |a.output.written| == a.writePtr
            && a.output == out.(written := a.output.written)
            && out.written <= a.output.written
    decreases pieces
  {
    if pieces != [] && pieces[0].key <= w {
      if End(pieces[0]) > w {
        AssembleKeeps(pieces[1..], End(pieces[0]), Written(pieces[0], w, out));
      } else {
        AssembleKeeps(pieces[1..], w, out);
        AssembleSorted(pieces[1..], w, out);
      }
    }
  }

  lemma {:induction false} AssembleAccepts(pieces: seq<Piece>, w: nat, out: Stream, i: nat)
    ensures var a := Assemble(pieces, w, out);
            (i < a.writePtr || Holds(a.pieces, i)) <==> (i < w || Holds(pieces, i))
    decreases pieces
  {
    if pieces != [] && pieces[0].key <= w {
      HoldsCons(pieces, i);
      if End(pieces[0]) > w {
        AssembleAccepts(pieces[1..], End(pieces[0]), Written(pieces[0], w, out), i);
      } else {
        AssembleAccepts(pieces[1..], w, out, i);
        var rest := Assemble(pieces[1..], w, out).pieces;
        HoldsCons([pieces[0]] + rest, i);
        assert ([pieces[0]] + rest)[1..] == rest;
      }
    }
  }

  // ---- the second loop ----

  lemma JoinedCovers(a: Piece, b: Piece, i: nat)
    requires a.key < b.key < End(a)
    ensures Joined(a, b).key == a.key
    ensures End(Joined(a, b)) == if End(b) <= End(a) then End(a) else End(b)
    ensures Covers(Joined(a, b), i) <==> Covers(a, i) || Covers(b, i)
  {
  }

  lemma {:induction false} MergeKeeps(pieces: seq<Piece>, w: nat, right: nat)
    requires Sorted(pieces) && Settled(pieces, w) && Below(pieces, right)
    ensures var m := Merge(pieces);
            && Sorted(m) && Disjoint(m) && Settled(m, w) && Below(m, right)
            && (pieces != [] ==> m != [] && m[0].key == pieces[0].key)
    decreases |pieces|
  {
    if |pieces| > 1 {
      if pieces[1].key < End(pieces[0]) {
        JoinedCovers(pieces[0], pieces[1], 0);
        MergeKeeps([Joined(pieces[0], pieces[1])] + pieces[2..], w, right);
      } else {
        MergeKeeps(pieces[1..], w, right);
      }
    }
  }

  lemma {:induction false} MergeHolds(pieces: seq<Piece>, i: nat)
    requires Sorted(pieces)
    ensures Holds(Merge(pieces), i) <==> Holds(pieces, i)
    decreases |pieces|
  {
    if |pieces| > 1 {
      HoldsCons(pieces, i);
      if pieces[1].key < End(pieces[0]) {
        var next := [Joined(pieces[0], pieces[1])] + pieces[2..];
        JoinedCovers(pieces[0], pieces[1], i);
        HoldsCons(pieces[1..], i);
        HoldsCons(next, i);
        assert pieces[1..][1..] == pieces[2..] == next[1..];
        MergeHolds(next, i);
      } else {
        MergeHolds(pieces[1..], i);
        var m := [pieces[0]] + Merge(pieces[1..]);
        HoldsCons(m, i);
        assert m[1..] == Merge(pieces[1..]);
      }
    }
  }

  // ---- one push ----

  lemma TruncateLength(data: seq<byte>, index: nat, right: nat)
    requires index <= right < TWO64
    ensures |Truncate(data, index, right)| == Min(|data|, right - index)
    ensures Truncate(data, index, right) <= data
  {
  }

  /** A push at or below the right edge accepts exactly the pushed indices below the edge, keeps
      every earlier one, writes no byte short and leaves the reassembler sound. */
  lemma PushRefines(r: Reassembler, data: seq<byte>, index: nat, eof: bool)
    requires Sound(r) && index <= RightEdge(r) < TWO64
    ensures var t := Push(r, data, index, eof);
            && Sound(t)
            && r.output.written <= t.output.written
            && t.output == r.output.(written := t.output.written, ended := t.output.ended)
            && (r.output.ended ==> t.output.ended)
            && forall i: nat :: Accepted(t, i) <==> Accepted(r, i) || (index <= i < index + |data| && i < RightEdge(r))
  {
    var kept := Truncate(data, index, RightEdge(r));
    TruncateLength(data, index, RightEdge(r));
    StoreKeeps(r.pieces, index, kept, RightEdge(r));
    var stored := Store(r.pieces, index, kept);
    AssembleKeeps(stored, r.writePtr, r.output);
    AssembleSorted(stored, r.writePtr, r.output);
    var a := Assemble(stored, r.writePtr, r.output);
    MergeKeeps(a.pieces, a.writePtr, RightEdge(r));
    var t := Push(r, data, index, eof);
    forall i: nat
      ensures Accepted(t, i) <==> Accepted(r, i) || (index <= i < index + |data| && i < RightEdge(r))
    {
      StoreHolds(r.pieces, index, kept, i);
      AssembleAccepts(stored, r.writePtr, r.output, i);
      MergeHolds(a.pieces, i);
    }
  }

  lemma {:induction false} AssembleFrame(pieces: seq<Piece>, w: nat, out: Stream)
    ensures var a := Assemble(pieces, w, out);
            a.output == out.(written := a.output.written)
    decreases pieces
  {
    if pieces != [] && pieces[0].key <= w {
      if End(pieces[0]) > w {
        AssembleFrame(pieces[1..], End(pieces[0]), Written(pieces[0], w, out));
      } else {
        AssembleFrame(pieces[1..], w, out);
      }
    }
  }

  /** No push at all moves the right edge. */
  lemma PushKeepsEdge(r: Reassembler, data: seq<byte>, index: nat, eof: bool)
    requires Sorted(r.pieces)
    ensures RightEdge(Push(r, data, index, eof)) == RightEdge(r)
  {
    var stored := Reassembly.Accept(r, data, index, eof).pieces;
    AssembleFrame(stored, r.writePtr, r.output);
  }

  /** The end mark, for any push: the last one that fitted its window counts, and the output ends when the
      write pointer is at it. */
  lemma PushMarks(r: Reassembler, data: seq<byte>, index: nat, eof: bool)
    requires Sorted(r.pieces)
    ensures var t, fits := Push(r, data, index, eof), eof && index + |data| <= RightEdge(r);
            && (t.eofFlag <==> r.eofFlag || fits)
            && t.eofIndex == (if fits then index + |data| else r.eofIndex)
            && (t.output.ended <==> r.output.ended || (t.eofFlag && t.writePtr == t.eofIndex))
            && t.output == r.output.(written := t.output.written, ended := t.output.ended)
            && t.capacity == r.capacity && t.readPtr == r.output.read
  {
    AssembleFrame(Reassembly.Accept(r, data, index, eof).pieces, r.writePtr, r.output);
  }

  /** The write pointer is the least index never accepted. */
  lemma WritePtrIsFirstGap(r: Reassembler)
    requires Sound(r)
    ensures !Accepted(r, r.writePtr)
    ensures forall i: nat :: i < r.writePtr ==> Accepted(r, i)
  {
  }

  /** Bytes beyond the window are discarded, as documented, exactly when the push does not start
      beyond it: past the right edge the 64-bit subtraction underflows and everything is kept. */
  lemma DiscardsBeyondWindow(r: Reassembler, data: seq<byte>, index: nat, eof: bool)
    requires Sound(r) && RightEdge(r) < TWO64 && index + |data| <= TWO64
    ensures (forall i: nat :: Accepted(Push(r, data, index, eof), i) ==> i < RightEdge(r))
       <==> index <= RightEdge(r) || data == []
  {
    var t := Push(r, data, index, eof);
    var right := RightEdge(r);
    var kept := Truncate(data, index, right);
    if index > right {
      assert |kept| == |data|;
    } else {
      TruncateLength(data, index, right);
    }
    StoreSorted(r.pieces, index, kept);
    var stored := Store(r.pieces, index, kept);
    AssembleSorted(stored, r.writePtr, r.output);
    var a := Assemble(stored, r.writePtr, r.output);
    forall i: nat
      ensures Accepted(t, i) <==> Accepted(r, i) || index <= i < index + |kept|
    {
      StoreHolds(r.pieces, index, kept, i);
      AssembleAccepts(stored, r.writePtr, r.output, i);
      MergeHolds(a.pieces, i);
    }
    if index > right && data != [] { assert Accepted(t, index); }
  }

  /** The smallest failure: a window of one byte, and a push that starts one past its edge. */
  lemma KeepsBytesBeyondWindow()
    ensures !(forall i: nat :: Accepted(Push(Initial(1), [7], 2, false), i) ==> i < RightEdge(Initial(1)))
  {
    DiscardsBeyondWindow(Initial(1), [7], 2, false);
  }

  // ---- counting ----

  ghost function Range(lo: nat, hi: nat): (r: set<nat>)
    requires lo <= hi
    ensures forall i: nat :: i in r <==> lo <= i < hi
    ensures |r| == hi - lo
    decreases hi - lo
  {
    if lo == hi then {} else {lo} + Range(lo + 1, hi)
  }

  // the held indices above w, each once
  ghost function HeldAbove(pieces: seq<Piece>, w: nat, hi: nat): set<nat> {
    set i: nat | w < i < hi && Holds(pieces, i)
  }

  lemma {:induction false} CountHeld(pieces: seq<Piece>, w: nat, hi: nat)
    requires Disjoint(pieces) && Settled(pieces, w) && Below(pieces, hi)
    ensures BytesAbove(pieces, w) == |HeldAbove(pieces, w, hi)|
    decreases pieces
  {
    if pieces == [] {
      assert HeldAbove(pieces, w, hi) == {};
    } else {
      CountHeld(pieces[1..], w, hi);
      HeldCons(pieces, w, hi);
    }
  }

  lemma HeldCons(pieces: seq<Piece>, w: nat, hi: nat)
    requires pieces != [] && Disjoint(pieces) && Settled(pieces, w) && Below(pieces, hi)
    ensures var own := if pieces[0].key > w then Range(pieces[0].key, End(pieces[0])) else {};
            && HeldAbove(pieces, w, hi) == own + HeldAbove(pieces[1..], w, hi)
            && own !! HeldAbove(pieces[1..], w, hi)
  {
    forall i: nat
      ensures Holds(pieces, i) <==> Covers(pieces[0], i) || Holds(pieces[1..], i)
      ensures !(Covers(pieces[0], i) && Holds(pieces[1..], i))
    {
      HoldsCons(pieces, i);
      HeldOnce(pieces, i);
    }
  }

  lemma HeldOnce(pieces: seq<Piece>, i: nat)
    requires pieces != [] && Disjoint(pieces)
    ensures !(Covers(pieces[0], i) && Holds(pieces[1..], i))
  {
    if Holds(pieces[1..], i) {
      var k :| 0 <= k < |pieces[1..]| && Covers(pieces[1..][k], i);
      assert End(pieces[0]) <= pieces[k + 1].key;
    }
  }

  /** The capacity bounds what is buffered and what is waiting, together. */
  lemma WithinCapacity(r: Reassembler)
    requires Sound(r)
    ensures Size(r.output) + Unassembled(r) <= r.capacity
  {
    CountHeld(r.pieces, r.writePtr, RightEdge(r));
    var held := HeldAbove(r.pieces, r.writePtr, RightEdge(r));
    var room := Range(r.writePtr, RightEdge(r));
    assert held <= room;
    SubsetSize(held, room);
  }

  lemma SubsetSize(a: set<nat>, b: set<nat>)
    requires a <= b
    ensures |a| <= |b|
  {
    assert b == a + (b - a);
  }

  // ---- contents ----

  ghost predicate Excerpt(stream: seq<byte>, index: nat, data: seq<byte>) {
    data != [] ==> index + |data| <= |stream| && data == stream[index..index + |data|]
  }

  ghost predicate Excerpts(stream: seq<byte>, pieces: seq<Piece>) {
    forall k :: 0 <= k < |pieces| ==> Excerpt(stream, pieces[k].key, pieces[k].value)
  }

  /** The output is a prefix of the logical stream and every waiting substring an excerpt of it;
      `closed` says that the end of the stream may have been announced. */
  ghost predicate Faithful(r: Reassembler, stream: seq<byte>, closed: bool) {
    && r.writePtr <= |stream| && r.output.written == stream[..r.writePtr]
    && Excerpts(stream, r.pieces)
    && (r.eofFlag ==> closed && r.eofIndex == |stream|)
    && (r.output.ended <==> r.eofFlag && r.writePtr == |stream|)
  }

  lemma StoreExcerpts(pieces: seq<Piece>, index: nat, data: seq<byte>, stream: seq<byte>)
    requires Excerpts(stream, pieces) && Excerpt(stream, index, data)
    ensures Excerpts(stream, Store(pieces, index, data))
  {
  }

  lemma WrittenExtends(p: Piece, w: nat, out: Stream, stream: seq<byte>)
    requires p.key <= w < End(p) <= out.read + out.capacity
    requires w <= |stream| && out.written == stream[..w] && Excerpt(stream, p.key, p.value)
    ensures End(p) <= |stream| && Written(p, w, out).written == stream[..End(p)]
  {
    var more := p.value[w - p.key..];
    assert more[..|more|] == more == stream[w..End(p)];
    assert stream[..End(p)] == stream[..w] + stream[w..End(p)];
  }

  lemma {:induction false} AssembleContents(pieces: seq<Piece>, w: nat, out: Stream, stream: seq<byte>)
    requires Below(pieces, out.read + out.capacity)
    requires w <= |stream| && out.written == stream[..w] && Excerpts(stream, pieces)
    ensures var a := Assemble(pieces, w, out);
            && a.writePtr <= |stream| && a.output.written == stream[..a.writePtr]
            && Excerpts(stream, a.pieces)
    decreases pieces
  {
    if pieces != [] && pieces[0].key <= w {
      if End(pieces[0]) > w {
        WrittenExtends(pieces[0], w, out, stream);
        AssembleContents(pieces[1..], End(pieces[0]), Written(pieces[0], w, out), stream);
      } else {
        AssembleContents(pieces[1..], w, out, stream);
      }
    }
  }

  lemma JoinedExcerpt(a: Piece, b: Piece, stream: seq<byte>)
    requires a.key < b.key < End(a)
    requires Excerpt(stream, a.key, a.value) && Excerpt(stream, b.key, b.value)
    ensures Excerpt(stream, a.key, Joined(a, b).value)
  {
    if End(b) > End(a) {
      assert b.value[End(a) - b.key..] == stream[End(a)..End(b)];
      assert stream[a.key..End(b)] == stream[a.key..End(a)] + stream[End(a)..End(b)];
    }
  }

  lemma {:induction false} MergeExcerpts(pieces: seq<Piece>, stream: seq<byte>)
    requires Sorted(pieces) && Excerpts(stream, pieces)
    ensures Excerpts(stream, Merge(pieces))
    decreases |pieces|
  {
    if |pieces| > 1 {
      if pieces[1].key < End(pieces[0]) {
        JoinedExcerpt(pieces[0], pieces[1], stream);
        MergeExcerpts([Joined(pieces[0], pieces[1])] + pieces[2..], stream);
      } else {
        MergeExcerpts(pieces[1..], stream);
      }
    }
  }

  lemma SettleFaithful(r: Reassembler, stream: seq<byte>, closed: bool)
    requires Sorted(r.pieces) && Below(r.pieces, RightEdge(r)) && r.output.capacity == r.capacity
    requires r.writePtr <= |stream| && r.output.written == stream[..r.writePtr] && Excerpts(stream, r.pieces)
    requires r.eofFlag ==> closed && r.eofIndex == |stream|
    requires r.output.ended ==> r.eofFlag && r.writePtr == |stream|
    ensures Faithful(Settle(r), stream, closed)
  {
    AssembleKeeps(r.pieces, r.writePtr, r.output);
    AssembleSorted(r.pieces, r.writePtr, r.output);
    AssembleContents(r.pieces, r.writePtr, r.output, stream);
    MergeExcerpts(Assemble(r.pieces, r.writePtr, r.output).pieces, stream);
  }

  /** Pushing an excerpt keeps the output a prefix of the stream; the output ends exactly when an
      untruncated end mark has been seen and every byte is assembled. */
  lemma PushFaithful(r: Reassembler, data: seq<byte>, index: nat, eof: bool, stream: seq<byte>, closed: bool)
    requires Sound(r) && Faithful(r, stream, closed) && index <= RightEdge(r) < TWO64
    requires Excerpt(stream, index, data)
    requires eof ==> closed && index + |data| == |stream|
    ensures Faithful(Push(r, data, index, eof), stream, closed)
    ensures Push(r, data, index, eof).eofFlag <==> r.eofFlag || (eof && index + |data| <= RightEdge(r))
  {
    var kept := Truncate(data, index, RightEdge(r));
    TruncateLength(data, index, RightEdge(r));
    StoreKeeps(r.pieces, index, kept, RightEdge(r));
    assert Excerpt(stream, index, kept);
    StoreExcerpts(r.pieces, index, kept, stream);
    SettleFaithful(Reassembly.Accept(r, data, index, eof), stream, closed);
  }

  /** A push that covers the first gap, with room for at least one byte, moves the write pointer. */
  lemma PushFillsGap(re: Reassembler, data: seq<byte>, index: nat, eof: bool)
    requires Sound(re) && RightEdge(re) < TWO64 && re.writePtr < RightEdge(re)
    requires index <= re.writePtr < index + |data|
    ensures Push(re, data, index, eof).writePtr > re.writePtr
  {
    PushRefines(re, data, index, eof);
    var t := Push(re, data, index, eof);
    WritePtrIsFirstGap(t);
    assert Accepted(t, re.writePtr);
    assert re.writePtr <= t.writePtr;
  }

  /** A push of the end mark at the first gap ends the output. */
  lemma PushEnds(re: Reassembler, data: seq<byte>, index: nat, stream: seq<byte>)
    requires Sound(re) && Faithful(re, stream, true) && RightEdge(re) < TWO64
    requires Excerpt(stream, index, data) && index + |data| == |stream| == re.writePtr
    ensures Push(re, data, index, true).output.ended
  {
    PushFaithful(re, data, index, true, stream, true);
    PushRefines(re, data, index, true);
  }

  lemma AppendedExcerpt(head: seq<byte>, data: seq<byte>)
    ensures Excerpt(head + data, |head|, data) && (head + data)[..|head|] == head
  {
  }

  /** With nothing else waiting, whatever is pushed at the first gap is delivered there. */
  lemma PushDelivers(re: Reassembler, data: seq<byte>)
    requires Sound(re) && re.pieces == [] && !re.eofFlag && !re.output.ended
    requires data != [] && re.writePtr < RightEdge(re) < TWO64
    ensures var t := Push(re, data, re.writePtr, false);
            |t.output.written| > re.writePtr && t.output.written[re.writePtr] == data[0]
  {
    var mixed := re.output.written + data;
    AppendedExcerpt(re.output.written, data);
    PushFaithful(re, data, re.writePtr, false, mixed, false);
    PushRefines(re, data, re.writePtr, false);
    PushFillsGap(re, data, re.writePtr, false);
    assert mixed[re.writePtr] == data[0];
  }
}
