/** 32-bit sequence numbers relative to an initial sequence number (libsponge/wrapping_integers.cc). */
module WrappingIntegers {
  import opened FixedWidth

  function Wrap(n: nat, isn: uint32): uint32 {
    (n + isn) % 0x1_0000_0000
  }

  /** The code masks n to 32 bits first and then adds in 32 bits. */
  lemma WrapAsWritten(n: nat, isn: uint32)
    ensures Wrap(n, isn) == (n % 0x1_0000_0000 + isn) % 0x1_0000_0000
  {
  }

  // the 32-bit subtraction nn - mm of the code
  function Offset(n: uint32, isn: uint32, checkpoint: nat): uint32 {
    (n - Wrap(checkpoint, isn)) % 0x1_0000_0000
  }

  function Unwrap(n: uint32, isn: uint32, checkpoint: nat): uint64 {
    var offset := Offset(n, isn, checkpoint);
    if offset < TWO31 || checkpoint < TWO32 - offset
    then (checkpoint + offset) % 0x1_0000_0000_0000_0000
    else (checkpoint - TWO32 + offset) % 0x1_0000_0000_0000_0000
  }

  /** Unwrap without the 64-bit wrap-around. */
  lemma UnwrapValue(n: uint32, isn: uint32, checkpoint: uint64)
    ensures var offset := Offset(n, isn, checkpoint);
            Unwrap(n, isn, checkpoint) ==
            if offset < TWO31 || checkpoint < TWO32 - offset
            then if checkpoint + offset < TWO64 then checkpoint + offset else checkpoint + offset - TWO64
            else checkpoint + offset - TWO32
  {
    var offset := Offset(n, isn, checkpoint);
    SmallMod(checkpoint + offset);
    if checkpoint >= TWO32 - offset { SmallMod(checkpoint + offset - TWO32); }
  }

  lemma SmallMod(x: nat)
    requires x < 2 * TWO64
    ensures x % 0x1_0000_0000_0000_0000 == if x < TWO64 then x else x - TWO64
  {
  }

  function Distance(a: int, b: int): nat {
    if a <= b then b - a else a - b
  }

  /** v is the documented result: it wraps to n, no 64-bit number wrapping to n is closer
      to the checkpoint, and of two equally close ones it is the smaller. */
  ghost predicate Nearest(v: uint64, n: uint32, isn: uint32, checkpoint: uint64) {
    && Wrap(v, isn) == n
    && forall u: uint64 :: Wrap(u, isn) == n ==>
                             || Distance(v, checkpoint) < Distance(u, checkpoint)
                             || (Distance(v, checkpoint) == Distance(u, checkpoint) && v <= u)
  }

  /** Two numbers wrap to the same value exactly when they differ by a multiple of 2^32. */
  lemma WrapEqual(a: nat, b: nat, isn: uint32)
    ensures Wrap(a, isn) == Wrap(b, isn) <==> (a - b) % 0x1_0000_0000 == 0
  {
  }

  /** Addition of the initial sequence number commutes with stepping. */
  lemma WrapStep(a: nat, k: nat, isn: uint32)
    ensures Wrap(a + k, isn) == (Wrap(a, isn) + k) % 0x1_0000_0000
  {
  }

  lemma WrapBack(a: nat, isn: uint32)
    requires a >= TWO32
    ensures Wrap(a - TWO32, isn) == Wrap(a, isn)
    ensures a >= TWO64 ==> Wrap(a - TWO64, isn) == Wrap(a, isn)
  {
    WrapEqual(a - TWO32, a, isn);
    if a >= TWO64 { WrapEqual(a - TWO64, a, isn); }
  }

  lemma OffsetOfWrap(v: nat, isn: uint32, checkpoint: nat)
    ensures Offset(Wrap(v, isn), isn, checkpoint) == (v - checkpoint) % 0x1_0000_0000
  {
  }

  /** Stepping `Offset` up from the checkpoint reaches a number that wraps to n. */
  lemma OffsetReaches(n: uint32, isn: uint32, checkpoint: nat)
    ensures Wrap(checkpoint + Offset(n, isn, checkpoint), isn) == n
  {
    var offset := Offset(n, isn, checkpoint);
    WrapStep(checkpoint, offset, isn);
    assert (Wrap(checkpoint, isn) + offset) % 0x1_0000_0000 == n;
  }

  lemma UnwrapWraps(n: uint32, isn: uint32, checkpoint: uint64)
    ensures Wrap(Unwrap(n, isn, checkpoint), isn) == n
  {
    var offset := Offset(n, isn, checkpoint);
    OffsetReaches(n, isn, checkpoint);
    UnwrapValue(n, isn, checkpoint);
    if checkpoint + offset >= TWO32 { WrapBack(checkpoint + offset, isn); }
  }

  /** Any number wrapping to n is the checkpoint plus the offset plus a multiple of 2^32. */
  lemma SameResidue(u: nat, n: uint32, isn: uint32, checkpoint: nat) returns (k: int)
    requires Wrap(u, isn) == n
    ensures u == checkpoint + Offset(n, isn, checkpoint) + k * TWO32
  {
    OffsetOfWrap(u, isn, checkpoint);
    k := (u - checkpoint) / 0x1_0000_0000;
  }

  /** The code keeps the documented promise exactly when stepping up from the checkpoint
      does not leave the 64-bit range. */
  lemma UnwrapNearest(n: uint32, isn: uint32, checkpoint: uint64)
    ensures Nearest(Unwrap(n, isn, checkpoint), n, isn, checkpoint)
       <==> !(Offset(n, isn, checkpoint) < TWO31 && checkpoint + Offset(n, isn, checkpoint) >= TWO64)
  {
    var offset := Offset(n, isn, checkpoint);
    UnwrapWraps(n, isn, checkpoint);
    UnwrapValue(n, isn, checkpoint);
    if offset < TWO31 && checkpoint + offset >= TWO64 {
      var u: uint64 := checkpoint + offset - TWO32;
      OffsetReaches(n, isn, checkpoint);
      WrapEqual(u, checkpoint + offset, isn);
      assert Distance(u, checkpoint) < Distance(Unwrap(n, isn, checkpoint), checkpoint);
    } else {
      forall u: uint64 | Wrap(u, isn) == n
        ensures var v := Unwrap(n, isn, checkpoint);
                || Distance(v, checkpoint) < Distance(u, checkpoint)
                || (Distance(v, checkpoint) == Distance(u, checkpoint) && v <= u)
      {
        var k := SameResidue(u, n, isn, checkpoint);
        NearestOfResidue(offset, k, checkpoint);
      }
    }
  }

  lemma NearestOfResidue(offset: uint32, k: int, checkpoint: uint64)
    requires !(offset < TWO31 && checkpoint + offset >= TWO64)
    requires 0 <= checkpoint + offset + k * TWO32 < TWO64
    ensures var up := offset < TWO31 || checkpoint < TWO32 - offset;
            var v := if up then checkpoint + offset else checkpoint - TWO32 + offset;
            var u := checkpoint + offset + k * TWO32;
            || Distance(v, checkpoint) < Distance(u, checkpoint)
            || (Distance(v, checkpoint) == Distance(u, checkpoint) && v <= u)
  {
  }

  /** A checkpoint at the top of the range for which the promise fails. */
  lemma UnwrapFarAtTheTop()
    ensures !Nearest(Unwrap(0, 0, 0xFFFF_FFFF_FFFF_FFFF), 0, 0, 0xFFFF_FFFF_FFFF_FFFF)
  {
    assert Wrap(0xFFFF_FFFF_FFFF_FFFF, 0) == 0xFFFF_FFFF;
    assert Offset(0, 0, 0xFFFF_FFFF_FFFF_FFFF) == 1;
    UnwrapNearest(0, 0, 0xFFFF_FFFF_FFFF_FFFF);
  }

  /** Exactly which absolute numbers survive a trip through 32 bits: those within 2^31 of the
      checkpoint, those below 2^32 that the checkpoint cannot step below, and those reached by
      running off the top of the 64-bit range. */
  lemma UnwrapWrap(v: uint64, isn: uint32, checkpoint: uint64)
    ensures Unwrap(Wrap(v, isn), isn, checkpoint) == v
       <==> || checkpoint - TWO31 <= v < checkpoint + TWO31
            || checkpoint <= v < TWO32
            || v + TWO64 < checkpoint + TWO31
  {
    UnwrapValue(Wrap(v, isn), isn, checkpoint);
    var k := SameResidue(v, Wrap(v, isn), isn, checkpoint);
    ResidueRecovered(Offset(Wrap(v, isn), isn, checkpoint), k, checkpoint, v);
  }

  lemma ResidueRecovered(offset: uint32, k: int, checkpoint: uint64, v: uint64)
    requires v == checkpoint + offset + k * TWO32
    ensures v == (if offset < TWO31 || checkpoint < TWO32 - offset
                  then if checkpoint + offset < TWO64 then checkpoint + offset else checkpoint + offset - TWO64
                  else checkpoint + offset - TWO32)
       <==> || checkpoint - TWO31 <= v < checkpoint + TWO31
            || checkpoint <= v < TWO32
            || v + TWO64 < checkpoint + TWO31
  {
  }

  lemma UnwrapNear(v: uint64, isn: uint32, checkpoint: uint64)
    requires checkpoint - TWO31 <= v < checkpoint + TWO31
    ensures Unwrap(Wrap(v, isn), isn, checkpoint) == v
  {
    UnwrapWrap(v, isn, checkpoint);
  }

  /** A number between 2^31 and 2^32 below the checkpoint comes out one whole turn too high. */
  lemma UnwrapOld(v: nat, isn: uint32, checkpoint: uint64)
    requires checkpoint - TWO32 <= v < checkpoint - TWO31 && v + TWO32 < TWO64
    ensures Unwrap(Wrap(v, isn), isn, checkpoint) == v + TWO32
  {
    UnwrapValue(Wrap(v, isn), isn, checkpoint);
    var k := SameResidue(v, Wrap(v, isn), isn, checkpoint);
  }

  lemma WrapZero(isn: uint32)
    ensures Wrap(0, isn) == isn
  {
  }

  lemma WrapPrevious(a: nat, isn: uint32)
    requires a >= 1
    ensures (Wrap(a, isn) - 1) % 0x1_0000_0000 == Wrap(a - 1, isn)
  {
    WrapStep(a - 1, 1, isn);
    StepBack(Wrap(a - 1, isn));
  }

  lemma StepBack(x: uint32)
    ensures ((x + 1) % 0x1_0000_0000 - 1) % 0x1_0000_0000 == x
  {
  }
}
