/** Which bytes the reassembler keeps when substrings disagree: the one that starts first wins. */
module ReassemblyBytes {
  import opened FixedWidth
  import opened OrderedMaps
  import opened ByteStreams
  import opened Reassembly
  import opened ReassemblyRefinement

  // the byte at index i in the first substring that covers it
  ghost function ByteAt(pieces: seq<Piece>, i: nat): byte
    requires Holds(pieces, i)
    decreases pieces
  {
    if Covers(pieces[0], i) then pieces[0].value[i - pieces[0].key]
    else HoldsCons(pieces, i); ByteAt(pieces[1..], i)
  }

  lemma {:induction false} ByteOfFirst(pieces: seq<Piece>, k: nat, i: nat)
    requires k < |pieces| && Covers(pieces[k], i)
    requires forall j :: 0 <= j < k ==> !Covers(pieces[j], i)
    ensures Holds(pieces, i) && ByteAt(pieces, i) == pieces[k].value[i - pieces[k].key]
    decreases k
  {
    HoldsAt(pieces, k, i);
    if k > 0 { ByteOfFirst(pieces[1..], k - 1, i); }
  }

  lemma ByteOfRest(p: Piece, rest: seq<Piece>, i: nat)
    requires !Covers(p, i) && Holds([p] + rest, i)
    ensures Holds(rest, i) && ByteAt([p] + rest, i) == ByteAt(rest, i)
  {
    HoldsCons([p] + rest, i);
    assert ([p] + rest)[1..] == rest;
  }

  // ---- the second loop ----

  /** Merging keeps, of two bytes for one index, the one of the earlier substring. */
  lemma {:induction false} MergeBytes(pieces: seq<Piece>, i: nat)
    requires Sorted(pieces) && Holds(pieces, i)
    ensures Holds(Merge(pieces), i) && ByteAt(Merge(pieces), i) == ByteAt(pieces, i)
    decreases |pieces|
  {
    MergeHolds(pieces, i);
    if |pieces| > 1 {
      HoldsCons(pieces, i);
      if pieces[1].key < End(pieces[0]) {
        JoinBytes(pieces, i);
        MergeBytes([Joined(pieces[0], pieces[1])] + pieces[2..], i);
      } else if !Covers(pieces[0], i) {
        MergeBytes(pieces[1..], i);
        ByteOfRest(pieces[0], Merge(pieces[1..]), i);
      }
    }
  }

  lemma JoinBytes(pieces: seq<Piece>, i: nat)
    requires Sorted(pieces) && |pieces| > 1 && pieces[1].key < End(pieces[0]) && Holds(pieces, i)
    ensures var next := [Joined(pieces[0], pieces[1])] + pieces[2..];
            Holds(next, i) && ByteAt(next, i) == ByteAt(pieces, i)
  {
    var a, b := pieces[0], pieces[1];
    var next := [Joined(a, b)] + pieces[2..];
    JoinedCovers(a, b, i);
    HoldsCons(pieces, i);
    HoldsCons(next, i);
    assert next[1..] == pieces[2..] == pieces[1..][1..];
    if Covers(a, i) {
      ByteOfFirst(pieces, 0, i);
      ByteOfFirst(next, 0, i);
    } else {
      HoldsCons(pieces[1..], i);
      if Covers(b, i) { ByteOfFirst(next, 0, i); } else { ByteOfRest(Joined(a, b), pieces[2..], i); }
    }
  }

  // ---- the first loop ----

  lemma WrittenByte(p: Piece, w: nat, out: Stream, i: nat)
    requires p.key <= w < End(p) <= out.read + out.capacity && |out.written| == w <= i < End(p)
    ensures |Written(p, w, out).written| == End(p) && Written(p, w, out).written[i] == p.value[i - p.key]
  {
  }

  /** What is written out at an index is the byte of the first substring that covers it. */
  lemma {:induction false} AssembledByte(pieces: seq<Piece>, w: nat, out: Stream, i: nat)
    requires Sorted(pieces) && Below(pieces, out.read + out.capacity) && |out.written| == w <= i
    requires i < Assemble(pieces, w, out).writePtr
    ensures var a := Assemble(pieces, w, out);
            |a.output.written| == a.writePtr && Holds(pieces, i) && a.output.written[i] == ByteAt(pieces, i)
    decreases pieces
  {
    if End(pieces[0]) <= w {
      HoldsCons(pieces, i);
      AssembledByte(pieces[1..], w, out, i);
    } else if i < End(pieces[0]) {
      AssembleKeeps(pieces[1..], End(pieces[0]), Written(pieces[0], w, out));
      WrittenByte(pieces[0], w, out, i);
      ByteOfFirst(pieces, 0, i);
    } else {
      HoldsCons(pieces, i);
      AssembledByte(pieces[1..], End(pieces[0]), Written(pieces[0], w, out), i);
    }
  }

  /** What waits is as it was. */
  lemma {:induction false} WaitingByte(pieces: seq<Piece>, w: nat, out: Stream, i: nat)
    requires Sorted(pieces) && Assemble(pieces, w, out).writePtr <= i && Holds(Assemble(pieces, w, out).pieces, i)
    ensures Holds(pieces, i) && ByteAt(Assemble(pieces, w, out).pieces, i) == ByteAt(pieces, i)
    decreases pieces
  {
    AssembleSorted(pieces, w, out);
    if pieces != [] && pieces[0].key <= w {
      HoldsCons(pieces, i);
      if End(pieces[0]) > w {
        AssembleSorted(pieces[1..], End(pieces[0]), Written(pieces[0], w, out));
        WaitingByte(pieces[1..], End(pieces[0]), Written(pieces[0], w, out), i);
      } else {
        ByteOfRest(pieces[0], Assemble(pieces[1..], w, out).pieces, i);
        WaitingByte(pieces[1..], w, out, i);
      }
    }
  }

  // ---- storing ----

  // the substring stays in front of a new one at index
  predicate Prior(p: Piece, index: nat, len: nat) { p.key < index || (p.key == index && len <= |p.value|) }

  lemma StoreOld(pieces: seq<Piece>, index: nat, data: seq<byte>, k: nat, i: nat)
    requires Sorted(pieces) && Disjoint(pieces) && k < |pieces| && Covers(pieces[k], i)
    requires Prior(pieces[k], index, |data|) || !(index <= i < index + |data|)
    ensures var stored := Store(pieces, index, data);
            Holds(stored, i) && ByteAt(stored, i) == pieces[k].value[i - pieces[k].key]
  {
    var at, stored := LowerBound(pieces, index), Store(pieces, index, data);
    var pos := if HasKey(pieces, index) || k < at then k else k + 1;
    assert stored[pos] == pieces[k];
    forall j | 0 <= j < pos ensures !Covers(stored[j], i) {
      if HasKey(pieces, index) || j < at {
        if stored[j] == pieces[j] { assert End(pieces[j]) <= pieces[k].key; }
      } else if j > at {
        assert stored[j] == pieces[j - 1] && End(pieces[j - 1]) <= pieces[k].key;
      }
    }
    ByteOfFirst(stored, pos, i);
  }

  lemma StoreNew(pieces: seq<Piece>, index: nat, data: seq<byte>, i: nat)
    requires Sorted(pieces) && index <= i < index + |data|
    requires forall k :: 0 <= k < |pieces| && Prior(pieces[k], index, |data|) ==> !Covers(pieces[k], i)
    ensures var stored := Store(pieces, index, data);
            Holds(stored, i) && ByteAt(stored, i) == data[i - index]
  {
    var at, stored := LowerBound(pieces, index), Store(pieces, index, data);
    assert stored[at] == Entry(index, data);
    forall j | 0 <= j < at ensures !Covers(stored[j], i) {
      assert stored[j] == pieces[j] && Prior(pieces[j], index, |data|);
    }
    ByteOfFirst(stored, at, i);
  }

  // ---- one push ----

  /** The byte that the reassembler has for an accepted index. */
  ghost function Byte(r: Reassembler, i: nat): byte
    requires Sound(r) && Accepted(r, i)
  {
    if i < r.writePtr then r.output.written[i] else ByteAt(r.pieces, i)
  }

  lemma PushStored(r: Reassembler, data: seq<byte>, index: nat, eof: bool, i: nat)
    requires Sound(r) && index <= RightEdge(r) < TWO64 && r.writePtr <= i
    requires Accepted(Push(r, data, index, eof), i)
    ensures var t, stored := Push(r, data, index, eof), Store(r.pieces, index, Truncate(data, index, RightEdge(r)));
            Sound(t) && Holds(stored, i) && Byte(t, i) == ByteAt(stored, i)
  {
    var kept := Truncate(data, index, RightEdge(r));
    TruncateLength(data, index, RightEdge(r));
    StoreKeeps(r.pieces, index, kept, RightEdge(r));
    PushRefines(r, data, index, eof);
    var stored := Store(r.pieces, index, kept);
    AssembleSorted(stored, r.writePtr, r.output);
    var a := Assemble(stored, r.writePtr, r.output);
    if i < a.writePtr {
      AssembledByte(stored, r.writePtr, r.output, i);
    } else {
      MergeHolds(a.pieces, i);
      MergeBytes(a.pieces, i);
      WaitingByte(stored, r.writePtr, r.output, i);
    }
  }

  // the length of what is kept of a push
  function KeptLength(r: Reassembler, data: seq<byte>, index: nat): nat
    requires index <= RightEdge(r)
  {
    Min(|data|, RightEdge(r) - index)
  }

  // the waiting substring k gives the byte at i, rather than a push at index
  predicate Keeps(r: Reassembler, k: nat, index: nat, len: nat, i: nat)
    requires k < |r.pieces|
  {
    Covers(r.pieces[k], i) && (Prior(r.pieces[k], index, len) || !(index <= i < index + len))
  }

  lemma PushKeepsOld(r: Reassembler, data: seq<byte>, index: nat, eof: bool, i: nat, k: nat)
    requires Sound(r) && index <= RightEdge(r) < TWO64 && r.writePtr <= i
    requires k < |r.pieces| && Keeps(r, k, index, KeptLength(r, data, index), i)
    requires Accepted(Push(r, data, index, eof), i)
    ensures Sound(Push(r, data, index, eof))
    ensures Byte(Push(r, data, index, eof), i) == r.pieces[k].value[i - r.pieces[k].key]
  {
    var kept := Truncate(data, index, RightEdge(r));
    TruncateLength(data, index, RightEdge(r));
    StoreOld(r.pieces, index, kept, k, i);
    PushStored(r, data, index, eof, i);
  }

  lemma PushTakesNew(r: Reassembler, data: seq<byte>, index: nat, eof: bool, i: nat)
    requires Sound(r) && index <= RightEdge(r) < TWO64 && r.writePtr <= i
    requires index <= i < index + KeptLength(r, data, index)
    requires forall k :: 0 <= k < |r.pieces| ==> !Keeps(r, k, index, KeptLength(r, data, index), i)
    requires Accepted(Push(r, data, index, eof), i)
    ensures Sound(Push(r, data, index, eof))
    ensures Byte(Push(r, data, index, eof), i) == data[i - index]
  {
    var kept := Truncate(data, index, RightEdge(r));
    TruncateLength(data, index, RightEdge(r));
    forall k | 0 <= k < |r.pieces| && Prior(r.pieces[k], index, |kept|) ensures !Covers(r.pieces[k], i) {
      assert !Keeps(r, k, index, |kept|, i);
    }
    StoreNew(r.pieces, index, kept, i);
    PushStored(r, data, index, eof, i);
  }

  /** What a push does to the byte at an index, whatever the data: what was written out stays; else the byte is
      that of a waiting substring, if one covers the index and starts before the push, or starts with it and
      is no shorter, or the push does not offer the index; and else it is the pushed one. */
  lemma PushBytes(r: Reassembler, data: seq<byte>, index: nat, eof: bool, i: nat)
    requires Sound(r) && index <= RightEdge(r) < TWO64 && Accepted(Push(r, data, index, eof), i)
    ensures var t, len := Push(r, data, index, eof), KeptLength(r, data, index);
            && Sound(t)
            && (i < r.writePtr ==> Byte(t, i) == r.output.written[i])
            && (forall k :: r.writePtr <= i && 0 <= k < |r.pieces| && Keeps(r, k, index, len, i) ==>
                              Byte(t, i) == r.pieces[k].value[i - r.pieces[k].key])
            && (r.writePtr <= i && (forall k :: 0 <= k < |r.pieces| ==> !Keeps(r, k, index, len, i)) ==>
                  index <= i < index + len && Byte(t, i) == data[i - index])
  {
    var t, len := Push(r, data, index, eof), KeptLength(r, data, index);
    PushRefines(r, data, index, eof);
    if r.writePtr <= i {
      forall k | 0 <= k < |r.pieces| && Keeps(r, k, index, len, i)
        ensures Byte(t, i) == r.pieces[k].value[i - r.pieces[k].key]
      {
        PushKeepsOld(r, data, index, eof, i, k);
      }
      if forall k :: 0 <= k < |r.pieces| ==> !Keeps(r, k, index, len, i) {
        if Holds(r.pieces, i) {
          var k :| 0 <= k < |r.pieces| && Covers(r.pieces[k], i);
          assert !Keeps(r, k, index, len, i);
        }
        PushTakesNew(r, data, index, eof, i);
      }
    }
  }
}
