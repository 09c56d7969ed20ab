/** The reassembler over whole runs: pushes of excerpts of one logical stream, interleaved with reads,
    refine a small machine that knows nothing of substrings and maps. */
module ReassemblyRuns {
  import opened FixedWidth
  import opened OrderedMaps
  import opened ByteStreams
  import opened Reassembly
  import opened ReassemblyRefinement

  datatype Op = PushOp(data: seq<byte>, index: nat, eof: bool) | ReadOp(len: nat)

  predicate Offers(op: Op, i: nat) {
    op.PushOp? && op.index <= i < op.index + |op.data|
  }

  // ---- the specification ----

  /** Which indices were accepted, how many were read, and whether the end mark was seen. */
  datatype Spec = Spec(accepted: set<nat>, read: nat, capacity: nat, endSeen: bool)

  function Fresh(capacity: nat): Spec { Spec({}, 0, capacity, false) }

  ghost function GapFrom(accepted: set<nat>, n: nat): (g: nat)
    ensures n <= g && g !in accepted && forall i: nat :: n <= i < g ==> i in accepted
    decreases accepted
  {
    if n in accepted then GapFrom(accepted - {n}, n + 1) else n
  }

  // the least index that was not accepted
  ghost function FirstGap(t: Spec): nat { GapFrom(t.accepted, 0) }

  function WindowEnd(t: Spec): nat { t.read + t.capacity }

  ghost function BeyondGap(t: Spec): set<nat> {
    set i: nat | i in t.accepted && FirstGap(t) < i
  }

  /** A push is accepted index by index, up to the end of the window; its end mark counts if it fits. A
      read takes what is there before the first gap. */
  ghost function SpecStep(t: Spec, op: Op): Spec {
    match op
    case PushOp(data, index, eof) =>
      t.(accepted := t.accepted + (set i: nat | i < WindowEnd(t) && Offers(op, i)),
         endSeen := t.endSeen || (eof && index + |data| <= WindowEnd(t)))
    case ReadOp(len) =>
      t.(read := if t.read + len <= FirstGap(t) then t.read + len else FirstGap(t))
  }

  ghost function SpecRun(t: Spec, ops: seq<Op>): Spec
    decreases ops
  {
    if ops == [] then t else SpecRun(SpecStep(t, ops[0]), ops[1..])
  }

  /** Every push starts at or below the end of the window of its moment. */
  ghost predicate InWindow(t: Spec, ops: seq<Op>)
    decreases ops
  {
    ops == [] ||
    (&& WindowEnd(t) < TWO64
     && (ops[0].PushOp? ==> ops[0].index <= WindowEnd(t))
     && InWindow(SpecStep(t, ops[0]), ops[1..]))
  }

  /** Every push is an excerpt of the stream, marked as its end only if it is. */
  ghost predicate PushesOf(stream: seq<byte>, ops: seq<Op>) {
    forall k :: 0 <= k < |ops| && ops[k].PushOp? ==>
                  && Excerpt(stream, ops[k].index, ops[k].data)
                  && (ops[k].eof ==> ops[k].index + |ops[k].data| == |stream|)
  }

  // ---- the code ----

  function Step(r: Reassembler, op: Op): (t: Reassembler)
    requires Sorted(r.pieces)
    ensures Sorted(t.pieces)
  {
    match op
    case PushOp(data, index, eof) => Push(r, data, index, eof)
    case ReadOp(len) => r.(output := ByteStreams.Read(r.output, len))
  }

  function Run(r: Reassembler, ops: seq<Op>): Reassembler
    requires Sorted(r.pieces)
    decreases ops
  {
    if ops == [] then r else Run(Step(r, ops[0]), ops[1..])
  }

  // ---- refinement ----

  ghost predicate Refines(r: Reassembler, t: Spec) {
    && Sound(r)
    && (forall i: nat :: Accepted(r, i) <==> i in t.accepted)
    && r.output.read == t.read && r.capacity == t.capacity && r.eofFlag == t.endSeen
  }

  lemma GapIsWritePtr(r: Reassembler, t: Spec)
    requires Refines(r, t)
    ensures FirstGap(t) == r.writePtr
  {
    WritePtrIsFirstGap(r);
    assert Accepted(r, FirstGap(t)) <==> FirstGap(t) in t.accepted;
    assert Accepted(r, r.writePtr) <==> r.writePtr in t.accepted;
  }

  lemma StepRefines(r: Reassembler, t: Spec, op: Op)
    requires Refines(r, t) && WindowEnd(t) < TWO64 && (op.PushOp? ==> op.index <= WindowEnd(t))
    ensures Refines(Step(r, op), SpecStep(t, op))
  {
    match op
    case PushOp(data, index, eof) => PushRefines(r, data, index, eof);
    case ReadOp(len) => GapIsWritePtr(r, t);
  }

  lemma StepFaithful(r: Reassembler, op: Op, stream: seq<byte>)
    requires Sound(r) && Faithful(r, stream, true) && RightEdge(r) < TWO64
    requires op.PushOp? ==> op.index <= RightEdge(r) && Excerpt(stream, op.index, op.data)
                            && (op.eof ==> op.index + |op.data| == |stream|)
    ensures Faithful(Step(r, op), stream, true) && r.output.written <= Step(r, op).output.written
  {
    match op
    case PushOp(data, index, eof) =>
      PushRefines(r, data, index, eof);
      PushFaithful(r, data, index, eof, stream, true);
    case ReadOp(len) =>
  }

  lemma {:induction false} RunRefines(r: Reassembler, t: Spec, ops: seq<Op>, stream: seq<byte>)
    requires Refines(r, t) && Faithful(r, stream, true) && InWindow(t, ops) && PushesOf(stream, ops)
    ensures Refines(Run(r, ops), SpecRun(t, ops)) && (t.endSeen ==> SpecRun(t, ops).endSeen)
    ensures Faithful(Run(r, ops), stream, true) && r.output.written <= Run(r, ops).output.written
    decreases ops
  {
    if ops != [] {
      StepRefines(r, t, ops[0]);
      StepFaithful(r, ops[0], stream);
      RunRefines(Step(r, ops[0]), SpecStep(t, ops[0]), ops[1..], stream);
    }
  }

  /** What can be seen of a reassembler: its output, its counters, its end. */
  ghost predicate Shows(r: Reassembler, t: Spec, stream: seq<byte>) {
    && r.writePtr == FirstGap(t) <= |stream| && r.output.written == stream[..FirstGap(t)]
    && r.output.read == t.read && RightEdge(r) == WindowEnd(t)
    && Unassembled(r) == |BeyondGap(t)|
    && Size(r.output) + Unassembled(r) <= t.capacity
    && (r.output.ended <==> t.endSeen && FirstGap(t) == |stream|)
  }

  lemma RefinesShows(r: Reassembler, t: Spec, stream: seq<byte>)
    requires Refines(r, t) && Faithful(r, stream, true)
    ensures Shows(r, t, stream)
  {
    GapIsWritePtr(r, t);
    WithinCapacity(r);
    CountHeld(r.pieces, r.writePtr, RightEdge(r));
    forall i: nat ensures i in BeyondGap(t) <==> i in HeldAbove(r.pieces, r.writePtr, RightEdge(r)) {
      assert Accepted(r, i) <==> i in t.accepted;
    }
    assert BeyondGap(t) == HeldAbove(r.pieces, r.writePtr, RightEdge(r));
  }

  /** The reassembler computes its specification: after any run from the start the write pointer is the
      least index never accepted, the output is the stream up to it, the unassembled count counts each
      accepted index above it once, the capacity holds, and the output has ended exactly when the end
      mark was seen and every byte is assembled. */
  lemma RunMeetsSpecification(capacity: nat, ops: seq<Op>, stream: seq<byte>)
    requires InWindow(Fresh(capacity), ops) && PushesOf(stream, ops)
    ensures Shows(Run(Initial(capacity), ops), SpecRun(Fresh(capacity), ops), stream)
  {
    assert Refines(Initial(capacity), Fresh(capacity));
    RunRefines(Initial(capacity), Fresh(capacity), ops, stream);
    RefinesShows(Run(Initial(capacity), ops), SpecRun(Fresh(capacity), ops), stream);
  }

  /** Once the output has ended nothing more is written, and nothing written is ever changed. */
  lemma EndedIsFinal(r: Reassembler, t: Spec, ops: seq<Op>, stream: seq<byte>)
    requires Refines(r, t) && Faithful(r, stream, true) && InWindow(t, ops) && PushesOf(stream, ops)
    requires r.output.ended
    ensures Run(r, ops).output.written == r.output.written == stream
    ensures Run(r, ops).output.ended
  {
    RunRefines(r, t, ops, stream);
    assert stream[..|stream|] == stream;
  }

  // ---- order, overlap and repetition do not matter ----

  /** No push of the run is cut at the end of the window. */
  ghost predicate Untruncated(t: Spec, ops: seq<Op>)
    decreases ops
  {
    ops == [] ||
    (&& WindowEnd(t) < TWO64
     && (ops[0].PushOp? ==> ops[0].index + |ops[0].data| <= WindowEnd(t))
     && Untruncated(SpecStep(t, ops[0]), ops[1..]))
  }

  /** Index i is offered by some push, wherever in the run it stands. */
  ghost predicate Offered(ops: seq<Op>, i: nat) {
    exists op :: op in ops && Offers(op, i)
  }

  ghost predicate EndOffered(ops: seq<Op>) {
    exists op :: op in ops && op.PushOp? && op.eof
  }

  lemma {:induction false} UntruncatedAcceptsAll(t: Spec, ops: seq<Op>)
    requires Untruncated(t, ops)
    ensures InWindow(t, ops)
    ensures forall i: nat :: i in SpecRun(t, ops).accepted <==> i in t.accepted || Offered(ops, i)
    ensures SpecRun(t, ops).endSeen <==> t.endSeen || EndOffered(ops)
    decreases ops
  {
    if ops != [] {
      UntruncatedAcceptsAll(SpecStep(t, ops[0]), ops[1..]);
      assert forall op :: op in ops <==> op == ops[0] || op in ops[1..];
    }
  }

  /** Two runs of untruncated pushes that offer the same indices and the same end information leave
      the same output, write pointer, unassembled count and end of input, whatever the order, the
      overlaps and the repetitions of their pushes. */
  lemma OrderIndependent(capacity: nat, ops: seq<Op>, ops': seq<Op>, stream: seq<byte>)
    requires Untruncated(Fresh(capacity), ops) && Untruncated(Fresh(capacity), ops')
    requires PushesOf(stream, ops) && PushesOf(stream, ops')
    requires forall i: nat :: Offered(ops, i) <==> Offered(ops', i)
    requires EndOffered(ops) <==> EndOffered(ops')
    ensures var r, r' := Run(Initial(capacity), ops), Run(Initial(capacity), ops');
            && r.output.written == r'.output.written && r.writePtr == r'.writePtr
            && Unassembled(r) == Unassembled(r') && r.output.ended == r'.output.ended
  {
    UntruncatedAcceptsAll(Fresh(capacity), ops);
    UntruncatedAcceptsAll(Fresh(capacity), ops');
    RunMeetsSpecification(capacity, ops, stream);
    RunMeetsSpecification(capacity, ops', stream);
    var t, t' := SpecRun(Fresh(capacity), ops), SpecRun(Fresh(capacity), ops');
    assert t.accepted == t'.accepted;
    assert BeyondGap(t) == BeyondGap(t');
  }
}
