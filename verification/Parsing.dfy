/** Network-order integers and the cursor that reads them (libsponge/util/parser.cc). */
module Parsing {
  import opened FixedWidth

  datatype ParseResult =
    | NoError | BadChecksum | PacketTooShort | WrongIPVersion | HeaderTooShort | TruncatedPacket | Unsupported

  datatype Parser = Parser(buffer: seq<byte>, error: ParseResult)

  function Pow256(n: nat): (p: nat)
    ensures p >= 1
  {
    if n == 0 then 1 else 0x100 * Pow256(n - 1)
  }

  // the value of a byte string read in network order
  function FromNetwork(bytes: seq<byte>): (v: nat)
    ensures v < Pow256(|bytes|)
  {
    if bytes == [] then 0 else FromNetwork(bytes[..|bytes| - 1]) * 0x100 + bytes[|bytes| - 1]
  }

  // the last `len` network-order digits of a value
  function ToNetwork(val: nat, len: nat): (bytes: seq<byte>)
    ensures |bytes| == len
  {
    if len == 0 then [] else ToNetwork(val / 0x100, len - 1) + [val % 0x100]
  }

  lemma {:induction false} NetworkRoundTrip(val: nat, len: nat)
    ensures val < Pow256(len) ==> FromNetwork(ToNetwork(val, len)) == val
  {
    if len > 0 {
      NetworkRoundTrip(val / 0x100, len - 1);
      assert ToNetwork(val, len)[..len - 1] == ToNetwork(val / 0x100, len - 1);
    }
  }

  function CheckSize(p: Parser, n: nat): Parser {
    if n > |p.buffer| then p.(error := PacketTooShort) else p
  }

  function ParsedInt(p: Parser, n: nat): (v: nat)
    ensures v < Pow256(n)
  {
    if CheckSize(p, n).error.NoError? then FromNetwork(p.buffer[..n]) else 0
  }

  function RemovePrefix(p: Parser, n: nat): Parser {
    var q := CheckSize(p, n);
    if q.error.NoError? then q.(buffer := q.buffer[n..]) else q
  }

  function U8(p: Parser): byte { ParsedInt(p, 1) }

  function U16(p: Parser): uint16 { assert Pow256(2) == 0x1_0000; ParsedInt(p, 2) }

  function U32(p: Parser): uint32 { assert Pow256(2) == 0x1_0000; ParsedInt(p, 4) }

  /** Reading back an integer at the front of the buffer leaves exactly what follows it. */
  lemma ParseUnparsed(val: nat, n: nat, rest: seq<byte>)
    requires val < Pow256(n)
    ensures var p := Parser(ToNetwork(val, n) + rest, NoError);
            ParsedInt(p, n) == val && RemovePrefix(p, n) == Parser(rest, NoError)
  {
    NetworkRoundTrip(val, n);
    assert (ToNetwork(val, n) + rest)[..n] == ToNetwork(val, n);
    assert (ToNetwork(val, n) + rest)[n..] == rest;
  }

  /** The value that the digit loop of the writer extracts at step i. */
  lemma {:induction false} DigitsOfQuotient(val: nat, k: nat)
    ensures val / Pow256(k) / 0x100 == val / Pow256(k + 1)
  {
    DivDiv(val, Pow256(k));
  }

  lemma DivDiv(x: nat, p: nat)
    requires p >= 1
    ensures x / p / 0x100 == x / (0x100 * p)
  {
    var q, s := x / p, x % p;
    var d, r := q / 0x100, q % 0x100;
    assert x == q * p + s && q == d * 0x100 + r;
    Regroup(d, r, p);
    QuotientUnique(x, 0x100 * p, d, r * p + s);
  }

  lemma Regroup(d: nat, r: nat, p: nat)
    requires r < 0x100
    ensures (d * 0x100 + r) * p == d * (0x100 * p) + r * p
    ensures r * p + p <= 0x100 * p
  {
    assert (d * 0x100 + r) * p == d * 0x100 * p + r * p;
    assert r * p + p == (r + 1) * p;
    MulMonotone(r + 1, 0x100, p);
  }

  lemma MulMonotone(a: nat, b: nat, p: nat)
    requires a <= b
    ensures a * p <= b * p
  {
    assert (b - a) * p >= 0;
  }

  lemma QuotientUnique(x: nat, m: nat, d: nat, r: nat)
    requires m >= 1 && x == d * m + r && r < m
    ensures x / m == d
  {
    var k := x / m - d;
    assert k * m == r - x % m by { assert x == (x / m) * m + x % m; }
    MulApart(k, m);
  }

  lemma MulApart(k: int, m: nat)
    ensures k >= 1 ==> k * m >= m
    ensures k <= -1 ==> k * m + m <= 0
  {
  }

  class NetParser {
    var buffer: seq<byte>
    var error: ParseResult

    ghost function View(): Parser
      reads this
    {
      Parser(buffer, error)
    }

    constructor (buffer: seq<byte>)
      ensures View() == Parser(buffer, NoError)
    {
      this.buffer, error := buffer, NoError;
    }

    method CheckRoom(size: nat)
      modifies this`error
      ensures View() == CheckSize(old(View()), size)
    {
      if size > |buffer| { error := PacketTooShort; }
    }

    method ParseInt(len: nat) returns (ret: nat)
      modifies this
      ensures ret == ParsedInt(old(View()), len) && ret < Pow256(len)
      ensures View() == RemovePrefix(old(View()), len)
    {
      CheckRoom(len);
      if !error.NoError? { return 0; }
      ret := 0;
      for i := 0 to len
        invariant ret == FromNetwork(buffer[..i])
      {
        assert buffer[..i + 1][..i] == buffer[..i];
        ret := ret * 0x100 + buffer[i];
      }
      buffer := buffer[len..];
    }

    method Skip(n: nat)
      modifies this
      ensures View() == RemovePrefix(old(View()), n)
    {
      CheckRoom(n);
      if !error.NoError? { return; }
      buffer := buffer[n..];
    }
  }

  // NetUnparser::_unparse_int: append the bytes of val, most significant first
  method UnparseInt(s: seq<byte>, val: nat, len: nat) returns (t: seq<byte>)
    ensures t == s + ToNetwork(val, len)
  {
    t := s;
    for i := 0 to len
      invariant t == s + ToNetwork(val / Pow256(len - i), i)
    {
      DigitsOfQuotient(val, len - i - 1);
      t := t + [val / Pow256(len - i - 1) % 0x100];
    }
  }
}
