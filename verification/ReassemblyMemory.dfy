/** How much the reassembler stores: substrings that are already written out may stay in its map. */
module ReassemblyMemory {
  import opened FixedWidth
  import opened OrderedMaps
  import opened ByteStreams
  import opened Reassembly
  import opened ReassemblyRefinement

  function StoredBytes(pieces: seq<Piece>): nat {
    if pieces == [] then 0 else |pieces[0].value| + StoredBytes(pieces[1..])
  }

  // index i is stored although it has been written out
  predicate Stale(r: Reassembler, i: nat) { i < r.writePtr && Holds(r.pieces, i) }

  ghost predicate Clean(r: Reassembler) { forall i: nat :: !Stale(r, i) }

  // ---- counting ----

  ghost function HeldBelow(pieces: seq<Piece>, hi: nat): set<nat> {
    set i: nat | i < hi && Holds(pieces, i)
  }

  lemma HeldBelowCons(pieces: seq<Piece>, hi: nat)
    requires pieces != [] && Disjoint(pieces) && Below(pieces, hi)
    ensures var own := Range(pieces[0].key, End(pieces[0]));
            && HeldBelow(pieces, hi) == own + HeldBelow(pieces[1..], hi)
            && own !! HeldBelow(pieces[1..], hi)
  {
    forall i: nat
      ensures Holds(pieces, i) <==> Covers(pieces[0], i) || Holds(pieces[1..], i)
      ensures !(Covers(pieces[0], i) && Holds(pieces[1..], i))
    {
      HoldsCons(pieces, i);
      HeldOnce(pieces, i);
    }
  }

  /** Every stored byte is an index held once. */
  lemma {:induction false} StoredCount(pieces: seq<Piece>, hi: nat)
    requires Disjoint(pieces) && Below(pieces, hi)
    ensures StoredBytes(pieces) == |HeldBelow(pieces, hi)|
    decreases pieces
  {
    if pieces == [] {
      assert HeldBelow(pieces, hi) == {};
    } else {
      StoredCount(pieces[1..], hi);
      HeldBelowCons(pieces, hi);
    }
  }

  /** The bound that the code does keep: the map is no larger than the stream up to the right edge. */
  lemma StoredWithinEdge(r: Reassembler)
    requires Sound(r)
    ensures StoredBytes(r.pieces) <= RightEdge(r)
  {
    StoredCount(r.pieces, RightEdge(r));
    SubsetSize(HeldBelow(r.pieces, RightEdge(r)), Range(0, RightEdge(r)));
  }

  /** While nothing stale is stored, everything stored fits the capacity together, as documented. */
  lemma CleanWithinCapacity(r: Reassembler)
    requires Sound(r) && Clean(r)
    ensures Size(r.output) + StoredBytes(r.pieces) <= r.capacity
  {
    StoredCount(r.pieces, RightEdge(r));
    var held := HeldBelow(r.pieces, RightEdge(r));
    forall i | i in held ensures r.writePtr <= i < RightEdge(r) {
      assert !Stale(r, i);
    }
    SubsetSize(held, Range(r.writePtr, RightEdge(r)));
  }

  // ---- what the first loop leaves ----

  /** Nothing to write, nothing changed. */
  lemma {:induction false} AssembleIdle(pieces: seq<Piece>, w: nat, out: Stream)
    requires Settled(pieces, w)
    ensures Assemble(pieces, w, out) == Assembly(pieces, w, out)
    decreases pieces
  {
    if pieces != [] && pieces[0].key <= w {
      AssembleIdle(pieces[1..], w, out);
      assert [pieces[0]] + pieces[1..] == pieces;
    }
  }

  lemma {:induction false} AssembleAddsNothing(pieces: seq<Piece>, w: nat, out: Stream, i: nat)
    requires Holds(Assemble(pieces, w, out).pieces, i)
    ensures Holds(pieces, i)
    decreases pieces
  {
    if pieces != [] && pieces[0].key <= w {
      HoldsCons(pieces, i);
      if End(pieces[0]) > w {
        AssembleAddsNothing(pieces[1..], End(pieces[0]), Written(pieces[0], w, out), i);
      } else {
        var rest := Assemble(pieces[1..], w, out).pieces;
        HoldsCons([pieces[0]] + rest, i);
        assert ([pieces[0]] + rest)[1..] == rest;
        if Holds(rest, i) { AssembleAddsNothing(pieces[1..], w, out, i); }
      }
    }
  }

  // what one push leaves in the map is what the first loop leaves
  lemma PushHolds(r: Reassembler, data: seq<byte>, index: nat, eof: bool, i: nat)
    requires Sorted(r.pieces)
    ensures var stored := Store(r.pieces, index, Truncate(data, index, RightEdge(r)));
            var a := Assemble(stored, r.writePtr, r.output);
            && Push(r, data, index, eof).writePtr == a.writePtr
            && (Holds(Push(r, data, index, eof).pieces, i) <==> Holds(a.pieces, i))
  {
    var stored := Store(r.pieces, index, Truncate(data, index, RightEdge(r)));
    StoreSorted(r.pieces, index, Truncate(data, index, RightEdge(r)));
    AssembleSorted(stored, r.writePtr, r.output);
    MergeHolds(Assemble(stored, r.writePtr, r.output).pieces, i);
  }

  // ---- a push below the write pointer, or above a gap ----

  // the first index past what is kept of a push
  function KeptEnd(r: Reassembler, data: seq<byte>, index: nat): nat { Min(index + |data|, RightEdge(r)) }

  lemma StoreSettled(pieces: seq<Piece>, index: nat, data: seq<byte>, w: nat)
    requires Settled(pieces, w) && (index + |data| <= w || w < index)
    ensures Settled(Store(pieces, index, data), w)
  {
  }

  /** A push that does not reach the first gap is just stored. */
  lemma PushIdle(r: Reassembler, data: seq<byte>, index: nat, eof: bool, i: nat)
    requires Sound(r) && index <= RightEdge(r) < TWO64 && (KeptEnd(r, data, index) <= r.writePtr || r.writePtr < index)
    ensures var t := Push(r, data, index, eof);
            && t.writePtr == r.writePtr
            && (Holds(t.pieces, i) <==> Holds(r.pieces, i) || index <= i < KeptEnd(r, data, index))
  {
    var kept := Truncate(data, index, RightEdge(r));
    TruncateLength(data, index, RightEdge(r));
    StoreSettled(r.pieces, index, kept, r.writePtr);
    AssembleIdle(Store(r.pieces, index, kept), r.writePtr, r.output);
    StoreHolds(r.pieces, index, kept, i);
    PushHolds(r, data, index, eof, i);
  }

  // ---- a push across the first gap ----

  // the substring at j is the only one that reaches across w
  ghost predicate Crosses(pieces: seq<Piece>, w: nat, j: nat) {
    && Sorted(pieces) && j < |pieces| && pieces[j].key <= w < End(pieces[j])
    && forall k :: 0 <= k < |pieces| && k != j ==> End(pieces[k]) <= w || w < pieces[k].key
  }

  /** A push across the gap is stored between the others, which are as they were. */
  lemma StoreCrosses(r: Reassembler, index: nat, kept: seq<byte>) returns (j: nat)
    requires Sound(r) && index <= r.writePtr < index + |kept|
    ensures var stored := Store(r.pieces, index, kept);
            && Crosses(stored, r.writePtr, j) && stored[j] == Entry(index, kept)
            && stored[..j] == r.pieces[..j] && (stored[j + 1..] == r.pieces[j..]
                                                || (j < |r.pieces| && r.pieces[j].key == index
                                                    && stored[j + 1..] == r.pieces[j + 1..]))
  {
    j := LowerBound(r.pieces, index);
    StoreSorted(r.pieces, index, kept);
  }

  /** It is erased as it is written out. */
  lemma {:induction false} CrossingErased(pieces: seq<Piece>, w: nat, out: Stream, j: nat)
    requires Crosses(pieces, w, j)
    ensures !Holds(Assemble(pieces, w, out).pieces, w)
    decreases pieces
  {
    HoldsCons(pieces, w);
    if j == 0 {
      if Holds(Assemble(pieces, w, out).pieces, w) {
        AssembleAddsNothing(pieces[1..], End(pieces[0]), Written(pieces[0], w, out), w);
      }
    } else {
      var rest := Assemble(pieces[1..], w, out).pieces;
      CrossingErased(pieces[1..], w, out, j - 1);
      HoldsCons([pieces[0]] + rest, w);
      assert ([pieces[0]] + rest)[1..] == rest;
    }
  }

  /** A substring that ends at or below the write pointer stays. */
  lemma {:induction false} PieceStays(pieces: seq<Piece>, w: nat, out: Stream, k: nat, i: nat)
    requires k < |pieces| && End(pieces[k]) <= w && Covers(pieces[k], i)
    ensures Holds(Assemble(pieces, w, out).pieces, i)
    decreases pieces
  {
    if pieces[0].key > w {
      HoldsAt(pieces, k, i);
    } else if End(pieces[0]) > w {
      PieceStays(pieces[1..], End(pieces[0]), Written(pieces[0], w, out), k - 1, i);
    } else {
      var rest := Assemble(pieces[1..], w, out).pieces;
      HoldsCons([pieces[0]] + rest, i);
      assert ([pieces[0]] + rest)[1..] == rest;
      if k > 0 { PieceStays(pieces[1..], w, out, k - 1, i); }
    }
  }

  /** So does one that the crossing substring swallows. */
  lemma {:induction false} SwallowedStays(pieces: seq<Piece>, w: nat, out: Stream, j: nat, k: nat, i: nat)
    requires Crosses(pieces, w, j) && j < k < |pieces| && End(pieces[k]) <= End(pieces[j]) && Covers(pieces[k], i)
    ensures var a := Assemble(pieces, w, out); Holds(a.pieces, i) && i < a.writePtr
    decreases pieces
  {
    if j == 0 {
      PieceStays(pieces[1..], End(pieces[0]), Written(pieces[0], w, out), k - 1, i);
      AssembleSorted(pieces[1..], End(pieces[0]), Written(pieces[0], w, out));
    } else {
      SwallowedStays(pieces[1..], w, out, j - 1, k - 1, i);
      var rest := Assemble(pieces[1..], w, out).pieces;
      HoldsCons([pieces[0]] + rest, i);
      assert ([pieces[0]] + rest)[1..] == rest;
    }
  }

  // every substring with any bytes ends above w
  predicate Ahead(pieces: seq<Piece>, w: nat) {
    forall k :: 0 <= k < |pieces| && pieces[k].value != [] ==> w < End(pieces[k])
  }

  /** Disjoint substrings that all end above the write pointer leave nothing stale. */
  lemma {:induction false} AheadClean(pieces: seq<Piece>, w: nat, out: Stream, i: nat)
    requires Sorted(pieces) && Disjoint(pieces) && Ahead(pieces, w)
    ensures var a := Assemble(pieces, w, out); !(i < a.writePtr && Holds(a.pieces, i))
    decreases pieces
  {
    if pieces != [] && pieces[0].key <= w {
      if End(pieces[0]) > w {
        AheadClean(pieces[1..], End(pieces[0]), Written(pieces[0], w, out), i);
      } else {
        AheadClean(pieces[1..], w, out, i);
        var rest := Assemble(pieces[1..], w, out).pieces;
        HoldsCons([pieces[0]] + rest, i);
        assert ([pieces[0]] + rest)[1..] == rest;
      }
    }
  }

  lemma {:induction false} CrossingClean(pieces: seq<Piece>, w: nat, out: Stream, j: nat, i: nat)
    requires Crosses(pieces, w, j) && Disjoint(pieces[j + 1..]) && Ahead(pieces[j + 1..], End(pieces[j]))
    requires forall k :: 0 <= k < j ==> pieces[k].value == []
    ensures var a := Assemble(pieces, w, out); !(i < a.writePtr && Holds(a.pieces, i))
    decreases pieces
  {
    if j == 0 {
      AheadClean(pieces[1..], End(pieces[0]), Written(pieces[0], w, out), i);
    } else {
      assert pieces[1..][j..] == pieces[j + 1..];
      CrossingClean(pieces[1..], w, out, j - 1, i);
      var rest := Assemble(pieces[1..], w, out).pieces;
      HoldsCons([pieces[0]] + rest, i);
      assert ([pieces[0]] + rest)[1..] == rest;
    }
  }

  // ---- when it happens ----

  /** A push stays in the map whole, although all of it is written out, exactly when it ends at or below
      the write pointer. */
  lemma KeptWholeExact(r: Reassembler, data: seq<byte>, index: nat, eof: bool)
    requires Sound(r) && index <= RightEdge(r) < TWO64 && data != []
    ensures (forall i: nat :: index <= i < index + |data| ==> Stale(Push(r, data, index, eof), i))
       <==> index + |data| <= r.writePtr
  {
    var w, t := r.writePtr, Push(r, data, index, eof);
    if index + |data| <= w {
      forall i: nat | index <= i < index + |data| ensures Stale(t, i) { PushIdle(r, data, index, eof, i); }
    } else if w < index || KeptEnd(r, data, index) <= w {
      var i := if w < index then index else w;
      PushIdle(r, data, index, eof, i);
      assert !Stale(t, i);
    } else {
      GapErased(r, data, index, eof);
      assert !Stale(t, w);
    }
  }

  lemma GapErased(r: Reassembler, data: seq<byte>, index: nat, eof: bool)
    requires Sound(r) && index <= r.writePtr < KeptEnd(r, data, index) && RightEdge(r) < TWO64
    ensures !Holds(Push(r, data, index, eof).pieces, r.writePtr)
  {
    var kept := Truncate(data, index, RightEdge(r));
    TruncateLength(data, index, RightEdge(r));
    var j := StoreCrosses(r, index, kept);
    CrossingErased(Store(r.pieces, index, kept), r.writePtr, r.output, j);
    PushHolds(r, data, index, eof, r.writePtr);
  }

  // a waiting substring that lies inside what a push across w up to e writes out
  predicate Swallowed(p: Piece, w: nat, e: nat) { w < p.key < End(p) <= e }

  /** Exactly when a push leaves something stale behind: if what is kept of it ends at or below the write
      pointer, or if it crosses the first gap and swallows a waiting substring. */
  lemma CleanExact(r: Reassembler, data: seq<byte>, index: nat, eof: bool)
    requires Sound(r) && Clean(r) && index <= RightEdge(r) < TWO64
    ensures var w, e := r.writePtr, KeptEnd(r, data, index);
            Clean(Push(r, data, index, eof)) <==>
            && !(index < e <= w)
            && !(index <= w < e && exists k :: 0 <= k < |r.pieces| && Swallowed(r.pieces[k], w, e))
  {
    var w, e, t := r.writePtr, KeptEnd(r, data, index), Push(r, data, index, eof);
    if index <= w < e {
      if k :| 0 <= k < |r.pieces| && Swallowed(r.pieces[k], w, e) {
        SwallowingStale(r, data, index, eof, k);
      } else {
        forall i: nat ensures !Stale(t, i) { CrossingStaysClean(r, data, index, eof, i); }
      }
    } else {
      forall i: nat ensures Stale(t, i) <==> i < w && index <= i < e {
        PushIdle(r, data, index, eof, i);
        assert !Stale(r, i);
      }
      if index < e <= w { assert Stale(t, index); }
    }
  }

  lemma SwallowingStale(r: Reassembler, data: seq<byte>, index: nat, eof: bool, k: nat)
    requires Sound(r) && index <= r.writePtr < KeptEnd(r, data, index) && RightEdge(r) < TWO64
    requires k < |r.pieces| && Swallowed(r.pieces[k], r.writePtr, KeptEnd(r, data, index))
    ensures Stale(Push(r, data, index, eof), r.pieces[k].key)
  {
    var kept, i := Truncate(data, index, RightEdge(r)), r.pieces[k].key;
    TruncateLength(data, index, RightEdge(r));
    var j := StoreCrosses(r, index, kept);
    var stored := Store(r.pieces, index, kept);
    var at := if stored[j + 1..] == r.pieces[j..] then k + 1 else k;
    assert j <= k && stored[at] == stored[j + 1..][at - j - 1];
    SwallowedStays(stored, r.writePtr, r.output, j, at, i);
    PushHolds(r, data, index, eof, i);
  }

  lemma CleanAhead(r: Reassembler, k: nat)
    requires Sound(r) && Clean(r) && k < |r.pieces| && r.pieces[k].value != []
    ensures r.writePtr < r.pieces[k].key
  {
    assert !Stale(r, r.pieces[k].key);
    assert Covers(r.pieces[k], r.pieces[k].key);
  }

  // what lies behind the crossing substring: a tail of what was there
  lemma TailAhead(pieces: seq<Piece>, at: nat, e: nat)
    requires at <= |pieces| && Disjoint(pieces)
    requires forall k :: at <= k < |pieces| && pieces[k].value != [] ==> e < End(pieces[k])
    ensures Disjoint(pieces[at..]) && Ahead(pieces[at..], e)
  {
  }

  lemma CrossingStaysClean(r: Reassembler, data: seq<byte>, index: nat, eof: bool, i: nat)
    requires Sound(r) && Clean(r) && index <= r.writePtr < KeptEnd(r, data, index) && RightEdge(r) < TWO64
    requires forall k :: 0 <= k < |r.pieces| ==> !Swallowed(r.pieces[k], r.writePtr, KeptEnd(r, data, index))
    ensures !Stale(Push(r, data, index, eof), i)
  {
    var kept, e := Truncate(data, index, RightEdge(r)), KeptEnd(r, data, index);
    TruncateLength(data, index, RightEdge(r));
    var j := StoreCrosses(r, index, kept);
    AllAhead(r, e);
    CrossingStored(r, Store(r.pieces, index, kept), j, e, i);
    PushHolds(r, data, index, eof, i);
  }

  lemma AllAhead(r: Reassembler, e: nat)
    requires Sound(r) && Clean(r) && forall k :: 0 <= k < |r.pieces| ==> !Swallowed(r.pieces[k], r.writePtr, e)
    ensures forall k :: 0 <= k < |r.pieces| && r.pieces[k].value != [] ==>
                          r.writePtr < r.pieces[k].key && e < End(r.pieces[k])
  {
    forall k | 0 <= k < |r.pieces| && r.pieces[k].value != []
      ensures r.writePtr < r.pieces[k].key && e < End(r.pieces[k])
    {
      CleanAhead(r, k);
    }
  }

  lemma CrossingStored(r: Reassembler, stored: seq<Piece>, j: nat, e: nat, i: nat)
    requires Sound(r) && Crosses(stored, r.writePtr, j) && End(stored[j]) == e && j <= |r.pieces|
    requires stored[..j] == r.pieces[..j]
    requires stored[j + 1..] == r.pieces[j..] || (j < |r.pieces| && stored[j + 1..] == r.pieces[j + 1..])
    requires forall k :: 0 <= k < |r.pieces| && r.pieces[k].value != [] ==>
                           r.writePtr < r.pieces[k].key && e < End(r.pieces[k])
    ensures var a := Assemble(stored, r.writePtr, r.output); !(i < a.writePtr && Holds(a.pieces, i))
  {
    TailAhead(r.pieces, j, e);
    if j < |r.pieces| { TailAhead(r.pieces, j + 1, e); }
    forall k | 0 <= k < j ensures stored[k].value == [] {
      assert stored[k] == stored[..j][k] == r.pieces[k];
      assert stored[k].key < stored[j].key;
    }
    CrossingClean(stored, r.writePtr, r.output, j, i);
  }

  // ---- how far it goes ----

  /** Pushed once more from the start, all that was ever written out is stored again, whole: the map then
      holds more than the capacity as soon as more than that has been written. */
  lemma WholeStreamStored(r: Reassembler)
    requires Sound(r) && RightEdge(r) < TWO64
    ensures var t := Push(r, r.output.written, 0, false);
            Sound(t) && StoredBytes(t.pieces) >= |r.output.written| && t.capacity == r.capacity
  {
    var written := r.output.written;
    var t := Push(r, written, 0, false);
    PushRefines(r, written, 0, false);
    StoredCount(t.pieces, RightEdge(t));
    var held := HeldBelow(t.pieces, RightEdge(t));
    forall i: nat | i < |written| ensures i in held { PushIdle(r, written, 0, false, i); }
    SubsetSize(Range(0, |written|), held);
  }

  // the next data arrives, and one byte is read
  function Taken(r: Reassembler, data: seq<byte>): (t: Reassembler)
    requires Sorted(r.pieces)
    ensures Sorted(t.pieces)
  {
    var t := Push(r, data, r.writePtr, false);
    t.(output := Read(t.output, 1))
  }

  lemma TakesOne(r: Reassembler, data: seq<byte>)
    requires Sound(r) && r.capacity == 1 && RightEdge(r) == r.writePtr + 1 < TWO64 && |data| == 1
    ensures var t := Taken(r, data);
            && Sound(t) && t.capacity == 1 && t.writePtr == r.writePtr + 1 && RightEdge(t) == t.writePtr + 1
  {
    PushRefines(r, data, r.writePtr, false);
    PushFillsGap(r, data, r.writePtr, false);
  }

  /** The smallest failure: a limit of one byte, two bytes pushed and read in turn, then both pushed again. */
  lemma StoresBeyondCapacity(x: byte, y: byte)
    ensures var r := Taken(Taken(Initial(1), [x]), [y]);
            var t := Push(r, r.output.written, 0, false);
            |r.output.written| == 2 && StoredBytes(t.pieces) >= 2 > t.capacity == 1
  {
    TakesOne(Initial(1), [x]);
    TakesOne(Taken(Initial(1), [x]), [y]);
    WholeStreamStored(Taken(Taken(Initial(1), [x]), [y]));
  }
}
