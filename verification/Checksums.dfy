/** The Internet checksum (libsponge/util/util.cc, section 1 of RFC 1071). */
module Checksums {
  import opened FixedWidth

  datatype Checksum = Checksum(sum: uint32, parity: bool)

  // the big-endian 16-bit words of the data, summed without overflow; parity says that a word is half done
  function WordSum(data: seq<byte>, parity: bool): nat
    decreases data
  {
    if data == [] then 0 else (if parity then data[0] else data[0] * 0x100) + WordSum(data[1..], !parity)
  }

  function ParityAfter(data: seq<byte>, parity: bool): bool {
    if |data| % 2 == 0 then parity else !parity
  }

  function Add(c: Checksum, data: seq<byte>): Checksum {
    Checksum((c.sum + WordSum(data, c.parity)) % 0x1_0000_0000, ParityAfter(data, c.parity))
  }

  function Fold(x: nat): nat {
    if x > 0xffff then Fold(x / 0x1_0000 + x % 0x1_0000) else x
  }

  // ~ret, truncated to 16 bits
  function Value(c: Checksum): uint16 {
    FoldResidue(c.sum);
    0xffff - Fold(c.sum)
  }

  /** Folding keeps the residue modulo 65535 and reaches zero only from zero. */
  lemma {:induction false} FoldResidue(x: nat)
    ensures Fold(x) <= 0xffff
    ensures Fold(x) == 0 <==> x == 0
    ensures Fold(x) % 0xffff == x % 0xffff
  {
    if x > 0xffff {
      var q, r := x / 0x1_0000, x % 0x1_0000;
      assert x == (q + r) + 0xffff * q && q > 0;
      FoldResidue(q + r);
      AddMultiple(q + r, q);
    }
  }

  lemma AddMultiple(y: nat, q: nat)
    ensures (y + 0xffff * q) % 0xffff == y % 0xffff
  {
  }

  /** The value is the complement of the one 16-bit number that has the residue of the sum and is zero only
      with it. */
  lemma ValueExact(c: Checksum, f: uint16)
    ensures Value(c) == 0xffff - f <==> f % 0xffff == c.sum % 0xffff && (f == 0 <==> c.sum == 0)
  {
    FoldResidue(c.sum);
  }

  /** One byte is the high or the low half of a word, in turn, and the sum has 32 bits. */
  lemma AddByte(c: Checksum, x: byte)
    ensures var sum := c.sum + if c.parity then x else 256 * x;
            Add(c, [x]) == Checksum(if sum < TWO32 then sum else sum - TWO32, !c.parity)
  {
    assert WordSum([x], c.parity) == (if c.parity then x else x * 0x100) + WordSum([], !c.parity);
  }

  /** A checksum reads zero exactly when its sum is a positive multiple of 65535. */
  lemma ZeroValue(c: Checksum)
    ensures Value(c) == 0 <==> c.sum > 0 && c.sum % 0xffff == 0
  {
    FoldResidue(c.sum);
  }

  /** Adding in pieces is adding the concatenation, at either parity. */
  lemma {:induction false} WordSumSplit(a: seq<byte>, b: seq<byte>, parity: bool)
    ensures WordSum(a + b, parity) == WordSum(a, parity) + WordSum(b, ParityAfter(a, parity))
    decreases a
  {
    if a == [] {
      assert a + b == b;
    } else {
      WordSumSplit(a[1..], b, !parity);
      assert (a + b)[1..] == a[1..] + b;
    }
  }

  lemma AddSplit(c: Checksum, a: seq<byte>, b: seq<byte>)
    ensures Add(Add(c, a), b) == Add(c, a + b)
  {
    WordSumSplit(a, b, c.parity);
    ModSum(c.sum + WordSum(a, c.parity), WordSum(b, ParityAfter(a, c.parity)));
  }

  lemma ModSum(x: nat, y: nat)
    ensures (x % 0x1_0000_0000 + y) % 0x1_0000_0000 == (x + y) % 0x1_0000_0000
  {
  }

  /** Filling the computed value into a zero field of the summed data makes the whole read zero.
      The 32-bit sum may have overflowed before, but this last addition never overflows it:
      2^32 - 1 is itself a multiple of 65535. */
  lemma FilledInReadsZero(c: Checksum)
    ensures Value(Checksum((c.sum + Value(c)) % 0x1_0000_0000, c.parity)) == 0
  {
    FoldResidue(c.sum);
    var total := c.sum + Value(c);
    FilledTotal(c.sum, Fold(c.sum));
    assert total < TWO32;
    ZeroValue(Checksum(total, c.parity));
  }

  lemma FilledTotal(x: nat, f: nat)
    requires f <= 0xffff && (f == 0 <==> x == 0) && f % 0xffff == x % 0xffff
    ensures (x + (0xffff - f)) % 0xffff == 0 && x + (0xffff - f) > 0
  {
  }

  /** If the data reads zero, it no longer does after any one byte is changed. */
  lemma SingleByteErrorDetected(c: Checksum, data: seq<byte>, k: nat, b: byte)
    requires k < |data| && b != data[k]
    requires Value(Add(c, data)) == 0
    ensures Value(Add(c, data[k := b])) != 0
  {
    SingleByteChange(data, k, b, c.parity);
    ZeroValue(Add(c, data));
    ZeroValue(Add(c, data[k := b]));
    ShiftedSum(c.sum + WordSum(data, c.parity), WordSum(data[k := b], c.parity) - WordSum(data, c.parity));
  }

  lemma ShiftedSum(s: nat, d: int)
    requires -0xffff < d < 0xffff && d != 0 && s + d >= 0
    requires s % 0x1_0000_0000 > 0 && s % 0x1_0000_0000 % 0xffff == 0
    ensures var t := (s + d) % 0x1_0000_0000; t == 0 || t % 0xffff != 0
  {
    var r := s % 0x1_0000_0000;
    var q := s / 0x1_0000_0000;
    assert s + d == q * TWO32 + (r + d);
    assert (s + d) % 0x1_0000_0000 == if r + d < TWO32 then r + d else r + d - TWO32;
  }

  lemma SingleByteChange(data: seq<byte>, k: nat, b: byte, parity: bool)
    requires k < |data| && b != data[k]
    ensures var d := WordSum(data[k := b], parity) - WordSum(data, parity);
            -0xffff < d < 0xffff && d != 0
  {
    var head, tail := data[..k], data[k + 1..];
    assert data == head + ([data[k]] + tail);
    assert data[k := b] == head + ([b] + tail);
    WordSumSplit(head, [data[k]] + tail, parity);
    WordSumSplit(head, [b] + tail, parity);
    assert ([b] + tail)[1..] == tail && ([data[k]] + tail)[1..] == tail;
  }

  class InternetChecksum {
    var sum: uint32
    var parity: bool

    ghost function View(): Checksum
      reads this
    {
      Checksum(sum, parity)
    }

    constructor (initialSum: uint32)
      ensures View() == Checksum(initialSum, false)
    {
      sum, parity := initialSum, false;
    }

    method AddBytes(data: seq<byte>)
      modifies this
      ensures View() == Add(old(View()), data)
    {
      var i := 0;
      while i < |data|
        invariant i <= |data| && View() == Add(old(View()), data[..i])
      {
        AddSplit(old(View()), data[..i], [data[i]]);
        assert WordSum([data[i]], parity) == (if parity then data[i] else data[i] * 0x100) + WordSum([], !parity);
        assert data[..i + 1] == data[..i] + [data[i]];
        var val: nat := data[i];
        if !parity { val := val * 0x100; }
        sum := (sum + val) % 0x1_0000_0000;
        parity := !parity;
        i := i + 1;
      }
      assert data[..i] == data;
    }

    method ReadValue() returns (v: uint16)
      ensures v == Value(View())
    {
      var ret: nat := sum;
      FoldResidue(sum);
      while ret > 0xffff
        invariant Fold(ret) == Fold(sum)
      {
        ret := ret / 0x1_0000 + ret % 0x1_0000;
      }
      v := 0xffff - ret;
    }
  }
}
