/** The slice of the nom parser-combinator library that the decoder uses, in
    its "complete" flavour: every parser takes the remaining input and either
    returns a value together with the input it did not consume, or fails. */
module Nom {

  type byte = bv8

  /** nom's error kinds, as far as the decoder can produce them: `tag` fails
      with ErrorKind::Tag and every fixed-width read with ErrorKind::Eof. */
  datatype ParseError = MagicMismatch | UnexpectedEnd

  /** nom's IResult: the parsed value and the rest of the input, or an error. */
  datatype Parsed<+T> = Ok(value: T, rest: seq<byte>) | Err(error: ParseError)
  {
    predicate IsFailure() { Err? }

    function PropagateFailure<U>(): Parsed<U>
      requires Err?
    {
      Err(error)
    }

    function Extract(): (T, seq<byte>)
      requires Ok?
    {
      (value, rest)
    }
  }

  type Parser<T> = seq<byte> -> Parsed<T>

  /** A parser that, when it succeeds, has consumed exactly `k` bytes, and that
      fails exactly when fewer than `k` bytes are left. */
  ghost predicate ConsumesExactly<T>(p: Parser<T>, k: nat)
  {
    forall s: seq<byte> :: (p(s).Ok? <==> k <= |s|) && (p(s).Ok? ==> p(s).rest == s[k..])
  }

  // ---------------------------------------------------------------------------
  // Primitive parsers

  /** `take(n)`: the next `n` bytes. */
  function Take(n: nat, input: seq<byte>): (r: Parsed<seq<byte>>)
    ensures r.Ok? <==> n <= |input|
    ensures r.Ok? ==> |r.value| == n && r.value + r.rest == input
    ensures r.Err? ==> r.error == UnexpectedEnd
  {
    if |input| < n then Err(UnexpectedEnd) else Ok(input[..n], input[n..])
  }

  /** `tag(t)`: the input must start with `t`; a shorter input is a mismatch
      too, because the complete `tag` reports ErrorKind::Tag in both cases. */
  function Tag(t: seq<byte>, input: seq<byte>): (r: Parsed<seq<byte>>)
    ensures r.Ok? <==> |t| <= |input| && input[..|t|] == t
    ensures r.Ok? ==> r.value == t && t + r.rest == input
    ensures r.Err? ==> r.error == MagicMismatch
  {
    if |t| <= |input| && input[..|t|] == t then Ok(t, input[|t|..]) else Err(MagicMismatch)
  }

  /** `le_u8`: one byte. */
  function LeU8(input: seq<byte>): (r: Parsed<byte>)
    ensures r.Ok? <==> 1 <= |input|
    ensures r.Err? ==> r.error == UnexpectedEnd
    ensures r.Ok? ==> r.value == input[0] && r.rest == input[1..]
  {
    var (b, rest) :- Take(1, input);
    Ok(b[0], rest)
  }

  /** `le_u16`: two bytes, least significant first. */
  function LeU16(input: seq<byte>): (r: Parsed<bv16>)
    ensures r.Ok? <==> 2 <= |input|
    ensures r.Err? ==> r.error == UnexpectedEnd
    ensures r.Ok? ==> r.value == LittleEndian16(input[0], input[1]) && r.rest == input[2..]
  {
    var (b, rest) :- Take(2, input);
    Ok(LittleEndian16(b[0], b[1]), rest)
  }

  /** `be_u16`: two bytes, most significant first. */
  function BeU16(input: seq<byte>): (r: Parsed<bv16>)
    ensures r.Ok? <==> 2 <= |input|
    ensures r.Err? ==> r.error == UnexpectedEnd
    ensures r.Ok? ==> r.value == LittleEndian16(input[1], input[0]) && r.rest == input[2..]
  {
    var (b, rest) :- Take(2, input);
    Ok(LittleEndian16(b[1], b[0]), rest)
  }

  /** `le_u32`: four bytes, least significant first. */
  function LeU32(input: seq<byte>): (r: Parsed<bv32>)
    ensures r.Ok? <==> 4 <= |input|
    ensures r.Err? ==> r.error == UnexpectedEnd
    ensures r.Ok? ==> r.value == LittleEndian32(input[0], input[1], input[2], input[3]) && r.rest == input[4..]
  {
    var (b, rest) :- Take(4, input);
    Ok(LittleEndian32(b[0], b[1], b[2], b[3]), rest)
  }

  // ---------------------------------------------------------------------------
  // Byte order

  function LittleEndian16(b0: byte, b1: byte): bv16
  {
    (b0 as bv16) | ((b1 as bv16) << 8)
  }

  function LittleEndian32(b0: byte, b1: byte, b2: byte, b3: byte): bv32
  {
    (b0 as bv32) | ((b1 as bv32) << 8) | ((b2 as bv32) << 16) | ((b3 as bv32) << 24)
  }

  /** Byte `k` (0 = least significant) of a 16-bit value. */
  function Byte16(x: bv16, k: nat): byte
    requires k < 2
  {
    if k == 0 then (x & 0xFF) as byte else (x >> 8) as byte
  }

  /** Byte `k` (0 = least significant) of a 32-bit value. */
  function Byte32(x: bv32, k: nat): byte
    requires k < 4
  {
    match k
    case 0 => (x & 0xFF) as byte
    case 1 => ((x >> 8) & 0xFF) as byte
    case 2 => ((x >> 16) & 0xFF) as byte
    case _ => (x >> 24) as byte
  }

  lemma LittleEndian16RoundTrip(x: bv16, b0: byte, b1: byte)
    ensures LittleEndian16(Byte16(x, 0), Byte16(x, 1)) == x
    ensures var y := LittleEndian16(b0, b1); Byte16(y, 0) == b0 && Byte16(y, 1) == b1
  {
  }

  lemma LittleEndian32RoundTrip(x: bv32, b0: byte, b1: byte, b2: byte, b3: byte)
    ensures LittleEndian32(Byte32(x, 0), Byte32(x, 1), Byte32(x, 2), Byte32(x, 3)) == x
    ensures var y := LittleEndian32(b0, b1, b2, b3);
      Byte32(y, 0) == b0 && Byte32(y, 1) == b1 && Byte32(y, 2) == b2 && Byte32(y, 3) == b3
  {
  }

  /** The integer a little-endian pair of bytes stands for. */
  lemma LittleEndian16Value(b0: byte, b1: byte)
    ensures LittleEndian16(b0, b1) as int == b0 as int + 256 * b1 as int
  {
    var x := LittleEndian16(b0, b1);
    SplitAtByte(x);
    assert x & 0xFF == b0 as bv16 && x >> 8 == b1 as bv16;
    WidenByte(b0);
    WidenByte(b1);
  }

  lemma SplitAtByte(x: bv16)
    ensures x as int == (x & 0xFF) as int + 256 * (x >> 8) as int
  {
  }

  lemma WidenByte(b: byte)
    ensures (b as bv16) as int == b as int
  {
  }

  /** The byte whose value is `n`. */
  function ByteOf(n: nat): (b: byte)
    requires n < 256
    ensures b as int == n
  {
    if n == 0 then 0 else Successor(ByteOf(n - 1))
  }

  function Successor(x: byte): (y: byte)
    requires x < 255
    ensures y as int == x as int + 1
  {
    x + 1
  }

  lemma ByteInjective(x: byte, y: byte)
    requires x as int == y as int
    ensures x == y
  {
  }

  // ---------------------------------------------------------------------------
  // Combinators

  /** `map(p, f)` */
  function Map<T, U>(p: Parser<T>, f: T -> U): Parser<U>
  {
    s => match p(s)
         case Err(e) => Err(e)
         case Ok(v, rest) => Ok(f(v), rest)
  }

  /** `preceded(first, second)`: run both, keep the second value. */
  function Preceded<A, B>(first: Parser<A>, second: Parser<B>): Parser<B>
  {
    s => match first(s)
         case Err(e) => Err(e)
         case Ok(_, rest) => second(rest)
  }

  /** `peek(p)`: run `p` but give back the whole input as the rest. */
  function Peek<T>(p: Parser<T>): Parser<T>
  {
    s => match p(s)
         case Err(e) => Err(e)
         case Ok(v, _) => Ok(v, s)
  }

  /** `alt((b0, b1, ...))`: the first branch that succeeds; when all fail,
      the error of the last one (nom's `Error::or` keeps the later error). */
  function Alt<T>(branches: seq<Parser<T>>): Parser<T>
    requires |branches| > 0
  {
    s => FirstSuccess(branches, s)
  }

  function FirstSuccess<T>(branches: seq<Parser<T>>, input: seq<byte>): (r: Parsed<T>)
    requires |branches| > 0
    ensures r.Ok? ==>
      exists i :: 0 <= i < |branches| && branches[i](input) == r &&
        forall j :: 0 <= j < i ==> branches[j](input).Err?
    ensures r.Err? ==>
      r == branches[|branches| - 1](input) && forall i :: 0 <= i < |branches| ==> branches[i](input).Err?
    decreases |branches|
  {
    var first := branches[0](input);
    if first.Ok? || |branches| == 1 then first
    else
      var r := FirstSuccess(branches[1..], input);
      assert forall i :: 1 <= i < |branches| ==> branches[1..][i - 1] == branches[i];
      r
  }

  /** `count(p, n)`: `p` exactly `n` times in a row. */
  function Count<T>(p: Parser<T>, n: nat): Parser<seq<T>>
  {
    s => Repeat(p, n, s)
  }

  function Repeat<T>(p: Parser<T>, n: nat, input: seq<byte>): (r: Parsed<seq<T>>)
    ensures r.Ok? ==> |r.value| == n
  {
    if n == 0 then Ok([], input)
    else
      var (v, rest) :- p(input);
      var (vs, rest') :- Repeat(p, n - 1, rest);
      Ok([v] + vs, rest')
  }
}
