/** Outcomes, 32-bit signed integers and little-endian reads shared by every stage
    of the GEO decoder (geo.c). */
module Bytes {

  /** One byte of a buffer. */
  newtype byte = b: int | 0 <= b < 0x100

  const Int32Min: int := -0x8000_0000
  const Int32Max: int := 0x7FFF_FFFF
  const Two32: int := 0x1_0000_0000

  /** The range of the C `int` the decoder computes with. */
  predicate IsInt32(x: int) {
    Int32Min <= x <= Int32Max
  }

  datatype Option<+T> = None | Some(value: T)

  /** Places where the C code has no defined behaviour. The model stops there
      instead of guessing what a build would do. */
  datatype Hazard =
    | ReadOutside     // a read before the start or past the end of a buffer
    | NegativeLength  // a negative length handed to malloc/memcpy/uncompress
    | SignedOverflow  // an `int` sum or product that leaves the 32-bit range
    | Uninitialised   // a local read before it was ever assigned

  datatype Error =
    | BadArguments      // geoLoad / refDecode argument checks
    | BadHeader         // envelope or metadata header fields inconsistent
    | NoStream          // getZlib: declared unpacked size is zero
    | InflateFailed     // inflate reported an error or a different size
    | EndOfStream       // refDecode: tags or value bytes run past the stream
    | BadExponent       // refDecode: float exponent shift above 31
    | AllocFailed       // refDecode: a negative element count reaches malloc
    | BadNameOffset     // model name offset outside the model-name block
    | StreamsFailed     // one of a model's four streams did not decode
    | BadVertexIndex    // a face refers to a vertex the model does not have
    | BadTextureOffset  // texture-name offset outside the texture-name block
    | EndOfData         // model loop: no room for the next model block
    | BadTextureIndex   // texture-usage entry names a texture that does not exist
    | Unchecked(hazard: Hazard)

  datatype Result<+T> = Ok(value: T) | Err(error: Error) {
    predicate IsFailure() {
      Err?
    }

    function PropagateFailure<U>(): Result<U>
      requires Err?
    {
      Err(error)
    }

    function Extract(): T
      requires Ok?
    {
      value
    }
  }

  /** A signed `int` value the C code computes; leaving the 32-bit range is
      undefined behaviour there, so the model reports the hazard. */
  function Checked(x: int): (r: Result<int>)
    ensures r.Ok? <==> IsInt32(x)
    ensures r.Ok? ==> r.value == x
    ensures r.Err? ==> r.error == Unchecked(SignedOverflow)
  {
    if IsInt32(x) then Ok(x) else Err(Unchecked(SignedOverflow))
  }

  /** The two's-complement 32-bit value congruent to x. */
  function Wrap32(x: int): (r: int)
    ensures IsInt32(r)
    ensures IsInt32(x) ==> r == x
    ensures (x - r) % Two32 == 0
  {
    (x + 0x8000_0000) % Two32 - 0x8000_0000
  }

  /** `(short) (x & 0xFFFF)` on a two's-complement target. */
  function Short(x: int): (r: int)
    ensures -0x8000 <= r < 0x8000
    ensures (x - r) % 0x1_0000 == 0
  {
    (x + 0x8000) % 0x1_0000 - 0x8000
  }

  lemma WrapSame(a: int, b: int)
    requires (a - b) % Two32 == 0
    ensures Wrap32(a) == Wrap32(b)
  {
    var k := (a - b) / Two32;
    assert a == b + k * Two32;
    assert (a + 0x8000_0000) % Two32 == (b + 0x8000_0000) % Two32;
  }

  /** Adding wrapped values wraps the exact sum. */
  lemma WrapAddExact(a: int, b: int)
    ensures Wrap32(Wrap32(a) + b) == Wrap32(a + b)
  {
    WrapSame(Wrap32(a) + b, a + b);
  }

  /** Truncating to 16 bits after wrapping to 32 bits loses nothing more. */
  lemma ShortOfWrap(x: int)
    ensures Short(Wrap32(x)) == Short(x)
  {
    var w := Wrap32(x);
    var k := (x - w) / Two32;
    assert x == w + (k * 0x1_0000) * 0x1_0000;
    assert (x + 0x8000) % 0x1_0000 == (w + 0x8000) % 0x1_0000;
  }

  /** GetInt16: little-endian unsigned 16-bit read, never negative. */
  function U16(data: seq<byte>, at: int): (v: int)
    requires 0 <= at && at + 2 <= |data|
    ensures 0 <= v < 0x1_0000
  {
    data[at] as int + 0x100 * data[at + 1] as int
  }

  /** The four bytes at `at` as an unsigned little-endian number. */
  function U32(data: seq<byte>, at: int): (v: int)
    requires 0 <= at && at + 4 <= |data|
    ensures 0 <= v < Two32
  {
    data[at] as int + 0x100 * data[at + 1] as int
      + 0x1_0000 * data[at + 2] as int + 0x100_0000 * data[at + 3] as int
  }

  /** GetInt32: the four bytes read as a two's-complement `int`, the value
      compilers produce when the top byte is shifted into the sign bit. */
  function I32(data: seq<byte>, at: int): (v: int)
    requires 0 <= at && at + 4 <= |data|
    ensures IsInt32(v)
  {
    var u := U32(data, at);
    if u <= Int32Max then u else u - Two32
  }

  /** A read the C code performs without a bounds check. */
  function ReadI32(data: seq<byte>, at: int): (r: Result<int>)
    ensures r.Ok? <==> 0 <= at && at + 4 <= |data|
    ensures r.Ok? ==> r.value == I32(data, at)
    ensures r.Err? ==> r.error == Unchecked(ReadOutside)
  {
    if 0 <= at && at + 4 <= |data| then Ok(I32(data, at)) else Err(Unchecked(ReadOutside))
  }

  /** A 16-bit read the C code performs without a bounds check. */
  function ReadU16(data: seq<byte>, at: int): (r: Result<int>)
    ensures r.Ok? <==> 0 <= at && at + 2 <= |data|
    ensures r.Ok? ==> r.value == U16(data, at)
    ensures r.Err? ==> r.error == Unchecked(ReadOutside)
  {
    if 0 <= at && at + 2 <= |data| then Ok(U16(data, at)) else Err(Unchecked(ReadOutside))
  }

  /** Little-endian encoding of an unsigned 16-bit value. */
  function EncodeU16(v: int): (b: seq<byte>)
    requires 0 <= v < 0x1_0000
    ensures |b| == 2
  {
    [(v % 0x100) as byte, (v / 0x100) as byte]
  }

  /** Little-endian two's-complement encoding of an `int`. */
  function EncodeI32(v: int): (b: seq<byte>)
    requires IsInt32(v)
    ensures |b| == 4
  {
    var u := if v < 0 then v + Two32 else v;
    [(u % 0x100) as byte, (u / 0x100 % 0x100) as byte,
     (u / 0x1_0000 % 0x100) as byte, (u / 0x100_0000) as byte]
  }

  /** GetInt16 reads back what EncodeU16 wrote. */
  lemma U16RoundTrip(v: int)
    requires 0 <= v < 0x1_0000
    ensures U16(EncodeU16(v), 0) == v
  {
  }

  /** Every two bytes are the encoding of what GetInt16 reads from them. */
  lemma U16Bytes(data: seq<byte>, at: int)
    requires 0 <= at && at + 2 <= |data|
    ensures EncodeU16(U16(data, at)) == data[at..at + 2]
  {
    var v := U16(data, at);
    assert (v % 0x100) as byte == data[at];
    assert (v / 0x100) as byte == data[at + 1];
  }

  /** GetInt32 reads back what EncodeI32 wrote, sign included. */
  lemma I32RoundTrip(v: int)
    requires IsInt32(v)
    ensures I32(EncodeI32(v), 0) == v
  {
    var u := if v < 0 then v + Two32 else v;
    var b := EncodeI32(v);
    var q1 := u / 0x100;
    var q2 := q1 / 0x100;
    var q3 := q2 / 0x100;
    assert u == u % 0x100 + 0x100 * q1;
    assert q1 == q1 % 0x100 + 0x100 * q2;
    assert q2 == q2 % 0x100 + 0x100 * q3;
    assert u / 0x1_0000 == q2 by {
      assert u == (u % 0x100 + 0x100 * (q1 % 0x100)) + 0x1_0000 * q2;
      Split16(u % 0x100 + 0x100 * (q1 % 0x100), q2);
    }
    assert u / 0x100_0000 == q3 by {
      assert u == (u % 0x100 + 0x100 * (q1 % 0x100) + 0x1_0000 * (q2 % 0x100)) + 0x100_0000 * q3;
      Split24(u % 0x100 + 0x100 * (q1 % 0x100) + 0x1_0000 * (q2 % 0x100), q3);
    }
    assert b[0] as int == u % 0x100 && b[1] as int == q1 % 0x100;
    assert b[2] as int == q2 % 0x100 && b[3] as int == q3;
    assert U32(b, 0) == u;
  }

  /** Splitting a number into its low byte and the rest. */
  lemma Split8(lo: int, hi: int)
    requires 0 <= lo < 0x100
    ensures (lo + 0x100 * hi) / 0x100 == hi && (lo + 0x100 * hi) % 0x100 == lo
  {
  }

  lemma Split16(lo: int, hi: int)
    requires 0 <= lo < 0x1_0000
    ensures (lo + 0x1_0000 * hi) / 0x1_0000 == hi
  {
  }

  lemma Split24(lo: int, hi: int)
    requires 0 <= lo < 0x100_0000
    ensures (lo + 0x100_0000 * hi) / 0x100_0000 == hi
  {
  }

  /** Every four bytes are the encoding of what GetInt32 reads from them. */
  lemma I32Bytes(data: seq<byte>, at: int)
    requires 0 <= at && at + 4 <= |data|
    ensures EncodeI32(I32(data, at)) == data[at..at + 4]
  {
    var v := I32(data, at);
    var u := U32(data, at);
    var b0, b1, b2, b3 := data[at] as int, data[at + 1] as int, data[at + 2] as int, data[at + 3] as int;
    assert (if v < 0 then v + Two32 else v) == u;
    var r2 := b2 + 0x100 * b3;
    var r1 := b1 + 0x100 * r2;
    assert u == b0 + 0x100 * r1;
    Split8(b0, r1);
    Split8(b1, r2);
    Split8(b2, b3);
    assert u == (b0 + 0x100 * b1) + 0x1_0000 * r2;
    Split16(b0 + 0x100 * b1, r2);
    assert u == (b0 + 0x100 * b1 + 0x1_0000 * b2) + 0x100_0000 * b3;
    Split24(b0 + 0x100 * b1 + 0x1_0000 * b2, b3);
    var e := EncodeI32(v);
    assert e[0] == data[at] && e[1] == data[at + 1] && e[2] == data[at + 2] && e[3] == data[at + 3];
  }

  /** GetInt32 reads back an encoded word wherever it sits in a buffer. */
  lemma I32At(data: seq<byte>, at: int, v: int)
    requires IsInt32(v) && 0 <= at && at + 4 <= |data|
    requires data[at..at + 4] == EncodeI32(v)
    ensures I32(data, at) == v
  {
    I32RoundTrip(v);
    var b := EncodeI32(v);
    assert data[at] == b[0] && data[at + 1] == b[1] && data[at + 2] == b[2] && data[at + 3] == b[3];
  }
}
