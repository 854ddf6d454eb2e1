/** refDecode (geo.c:97-198): the 2-bit-tagged, per-column delta codec that
    carries face indices, positions, normals and texture coordinates. */
module Codec {
  import opened Bytes

  /** An IEEE-754 single, kept as its 32-bit pattern. */
  type Float32 = u: int | 0 <= u < 0x1_0000_0000

  /** +0.0f, the value a float accumulator starts from. */
  const FloatZero: Float32 := 0

  /** The float arithmetic the decoder leaves to the C compiler:
      `scale(v, e)` is `(float) v / (float) (1 << e)` for an exponent e of at most
      30 and `add` is float addition. */
  datatype FloatOps = FloatOps(scale: (int, int) -> Float32, add: (Float32, Float32) -> Float32)

  /** The decoded array, one variant per mode: 0 floats, 1 ints, 2 shorts. */
  datatype Values = Floats(floats: seq<Float32>) | Ints(ints: seq<int>) | Shorts(shorts: seq<int>)
  {
    function Length(): nat {
      match this
      case Floats(f) => |f|
      case Ints(i) => |i|
      case Shorts(s) => |s|
    }
  }

  /** Bytes holding the tags of n scalars: `(n >> 2) + ((n & 3) ? 1 : 0)`.
      Dafny's `/` and `%` by 4 agree with an arithmetic shift and a mask for
      every sign of n. */
  function TagBytes(n: int): (tlen: int)
    ensures 0 <= n ==> 0 <= tlen && 4 * tlen - 4 < n <= 4 * tlen
    ensures n < 0 ==> tlen <= 0
  {
    n / 4 + (if n % 4 != 0 then 1 else 0)
  }

  /** Bit pair r (0 to 3) of byte b, least significant pair first. */
  function Pair(b: int, r: int): int {
    if r == 0 then b % 4 else if r == 1 then b / 4 % 4 else if r == 2 then b / 16 % 4 else b / 64 % 4
  }

  /** The tag of scalar i: bit pair i % 4 of byte i / 4, least significant pair first. */
  function TagAt(data: seq<byte>, i: nat): (t: int)
    requires i / 4 < |data|
    ensures 0 <= t < 4
  {
    Pair(data[i / 4] as int, i % 4)
  }

  /** 2^k. */
  function Pow2(k: nat): nat {
    if k == 0 then 1 else 2 * Pow2(k - 1)
  }

  /** Value bytes a scalar consumes: none for tag 0, else one, two or four. */
  function ValueSize(t: int): (s: nat)
    // the C computes it as `8 >> (4 - tag)`
    ensures 0 <= t < 4 ==> s == 8 / Pow2(4 - t)
  {
    assert Pow2(1) == 2 && Pow2(2) == 4 && Pow2(3) == 8 && Pow2(4) == 16;
    if t == 0 then 0 else if t == 1 then 1 else if t == 2 then 2 else 4
  }

  /** Value bytes the first n scalars consume (`y` after the tag loop). */
  function SizeSum(data: seq<byte>, n: nat): (s: nat)
    requires TagBytes(n) <= |data|
    ensures s <= 4 * n
  {
    if n == 0 then 0 else SizeSum(data, n - 1) + ValueSize(TagAt(data, n - 1))
  }

  lemma SizeSumMono(data: seq<byte>, i: nat, j: nat)
    requires i <= j && TagBytes(j) <= |data|
    ensures SizeSum(data, i) <= SizeSum(data, j)
    decreases j - i
  {
    if i < j {
      SizeSumMono(data, i, j - 1);
    }
  }

  /** The stream holds the tags of n scalars, the byte after them, and every value byte. */
  predicate Fits(data: seq<byte>, n: nat) {
    TagBytes(n) + 1 <= |data| && TagBytes(n) + 1 + SizeSum(data, n) <= |data|
  }

  /** Where scalar j's value bytes start: after the tags, the extra byte, and the
      value bytes of every scalar before it. */
  function ValueStart(data: seq<byte>, n: nat, j: nat): int
    requires j <= n && TagBytes(n) <= |data|
  {
    TagBytes(n) + 1 + SizeSum(data, j)
  }

  /** The value field of a scalar, before the mode decides what it means. */
  function RawValue(data: seq<byte>, t: int, at: int): (v: int)
    requires 0 <= t < 4 && 0 <= at && at + ValueSize(t) <= |data|
    // the 8- and 16-bit fields are biased to straddle zero; tag 0 has no field
    ensures t == 0 ==> v == 0
    ensures t == 1 ==> -0x7F <= v <= 0x80
    ensures t == 2 ==> -0x7FFF <= v <= 0x8000
    ensures IsInt32(v)
  {
    if t == 0 then 0
    else if t == 1 then data[at] as int - 0x7F
    else if t == 2 then U16(data, at) - 0x7FFF
    else I32(data, at)
  }

  /** Int modes: the delta is 1 for tag 0 and the value plus one otherwise (`bits++`),
      wrapped to `int`. */
  function IntDelta(t: int, raw: int): (d: int)
    ensures IsInt32(d)
    ensures t == 0 ==> d == 1
    // the value plus one, exact whenever that is an `int`, else wrapped
    ensures t != 0 && IsInt32(raw + 1) ==> d == raw + 1
    ensures t != 0 ==> (d - (raw + 1)) % Two32 == 0
  {
    if t == 0 then 1 else Wrap32(raw + 1)
  }

  /** The same delta without the wrap-around. */
  function ExactDelta(t: int, raw: int): int {
    if t == 0 then 1 else raw + 1
  }

  /** `iaccum[y] += bits` on a 32-bit `int`. */
  function WrapAdd(a: int, b: int): int {
    Wrap32(a + b)
  }

  /** `*(float *)&bits`: the 32-bit pattern of a signed value. */
  function Reinterpret(raw: int): (f: Float32)
    // the same 32 bits: congruent modulo 2^32
    ensures (raw - f) % Two32 == 0
  {
    raw % Two32
  }

  /** Float mode: tag 0 adds 0.0, tags 1 and 2 add the scaled value, and tag 3
      adds the raw pattern itself. */
  function FloatDelta(ops: FloatOps, e: int, t: int, raw: int): (f: Float32)
    ensures t == 0 ==> f == FloatZero
    ensures t == 3 ==> (raw - f) % Two32 == 0
  {
    if t == 0 then FloatZero else if t == 3 then Reinterpret(raw) else ops.scale(raw, e)
  }

  /** The int modes' delta per tag, read from the stream: 1 for tag 0, the
      byte minus 0x7E, the 16-bit word minus 0x7FFE, and the 32-bit value
      plus one. */
  lemma IntDeltaTable(data: seq<byte>, t: int, at: int)
    requires 0 <= t < 4 && 0 <= at && at + ValueSize(t) <= |data|
    ensures IntDelta(t, RawValue(data, t, at))
            == if t == 0 then 1
               else if t == 1 then data[at] as int - 0x7E
               else if t == 2 then U16(data, at) - 0x7FFE
               else Wrap32(I32(data, at) + 1)
  {
  }

  /** Float mode's tag-3 value is the stored 32-bit word itself. */
  lemma ReinterpretIsPattern(data: seq<byte>, at: int)
    requires 0 <= at && at + 4 <= |data|
    ensures Reinterpret(I32(data, at)) == U32(data, at)
  {
  }

  /** The float mode's value per tag, read from the stream: +0.0 for tag 0,
      the biased byte or 16-bit word scaled by 2^-e, and the stored word's
      bits for tag 3. */
  lemma FloatDeltaTable(ops: FloatOps, e: int, data: seq<byte>, t: int, at: int)
    requires 0 <= t < 4 && 0 <= at && at + ValueSize(t) <= |data|
    ensures FloatDelta(ops, e, t, RawValue(data, t, at))
            == if t == 0 then FloatZero
               else if t == 1 then ops.scale(data[at] as int - 0x7F, e)
               else if t == 2 then ops.scale(U16(data, at) - 0x7FFF, e)
               else U32(data, at)
  {
    if t == 3 {
      ReinterpretIsPattern(data, at);
    }
  }

  function FloatValue(ops: FloatOps, e: int): (int, int) -> Float32 {
    (t: int, raw: int) => FloatDelta(ops, e, t, raw)
  }

  /** The second loop of refDecode from scalar x on: read tag x, consume its value
      bytes at `at`, add the mode's value to the accumulator of column x % m and
      emit the accumulator. */
  function ValueLoop<T>(data: seq<byte>, n: nat, m: nat, x: nat, at: int, acc: seq<T>,
                        conv: (int, int) -> T, op: (T, T) -> T): (out: seq<T>)
    requires 0 < m && |acc| == m && x <= n
    requires Fits(data, n)
    requires at == ValueStart(data, n, x)
    ensures |out| == n - x
    decreases n - x
  {
    if x == n then []
    else
      var t := TagAt(data, x);
      SizeSumMono(data, x + 1, n);
      var c := x % m;
      var a := op(acc[c], conv(t, RawValue(data, t, at)));
      [a] + ValueLoop(data, n, m, x + 1, at + ValueSize(t), acc[c := a], conv, op)
  }

  /** refDecode. `data` is the whole extracted stream, so `len` is |data|; the
      C null-buffer check has no counterpart. The callers pass members 3 or 2. */
  function RefDecode(data: seq<byte>, count: int, members: int, mode: int, ops: FloatOps)
    : (r: Result<Values>)
    requires 0 <= members && |data| <= Int32Max
    ensures var n := count * members;
      r.Ok? <==>
      && 0 < |data| && count != 0 && members != 0 && 0 <= mode <= 2
      && IsInt32(n) && n > 0 && Fits(data, n)
      && (mode == 0 ==> data[TagBytes(n)] as int <= 30)
    // an exponent of 31 makes `1 << 31` overflow a signed `int`
    ensures var n := count * members;
      0 < |data| && count != 0 && members != 0 && mode == 0 && IsInt32(n)
      && 0 <= TagBytes(n) < |data| && (n < 0 || Fits(data, n)) && data[TagBytes(n)] as int == 31
      ==> r == Err(Unchecked(SignedOverflow))
    ensures r.Ok? ==> r.value.Length() == count * members
    ensures r.Ok? ==> (r.value.Floats? <==> mode == 0) && (r.value.Ints? <==> mode == 1)
                      && (r.value.Shorts? <==> mode == 2)
  {
    if |data| == 0 || count == 0 || members == 0 || mode < 0 || mode > 2 then Err(BadArguments)
    else
      var n :- Checked(count * members);
      DecodeScalars(data, n, members, mode, ops)
  }

  /** refDecode once `count *= members` has been formed: n scalars in columns of m. */
  function DecodeScalars(data: seq<byte>, n: int, m: int, mode: int, ops: FloatOps)
    : (r: Result<Values>)
    requires 0 < m && 0 <= mode <= 2 && n != 0 && 0 < |data| <= Int32Max
    ensures r.Ok? <==> n > 0 && Fits(data, n) && (mode == 0 ==> data[TagBytes(n)] as int <= 30)
    // an exponent of 31 makes `1 << 31` overflow a signed `int`
    ensures (mode == 0 && 0 <= TagBytes(n) < |data| && (n < 0 || Fits(data, n))
             && data[TagBytes(n)] as int == 31) ==> r == Err(Unchecked(SignedOverflow))
    ensures r.Ok? ==> r.value.Length() == n
    ensures r.Ok? ==> (r.value.Floats? <==> mode == 0) && (r.value.Ints? <==> mode == 1)
                      && (r.value.Shorts? <==> mode == 2)
  {
    var tlen := TagBytes(n);
    if tlen + 1 > |data| then Err(EndOfStream)
    else if n < 0 then
      // neither loop runs; float mode still reads the exponent byte, then the
      // negative size handed to malloc yields NULL
      if mode == 0 && tlen < 0 then Err(Unchecked(ReadOutside))
      else if mode == 0 && data[tlen] as int > 31 then Err(BadExponent)
      else if mode == 0 && data[tlen] as int == 31 then Err(Unchecked(SignedOverflow))
      else Err(AllocFailed)
    else
      var need :- Checked(tlen + SizeSum(data, n) + 1);
      if need > |data| then Err(EndOfStream)
      else if mode == 0 then
        var e := data[tlen] as int;
        if e > 31 then Err(BadExponent)
        else if e == 31 then Err(Unchecked(SignedOverflow))
        else Ok(Floats(ValueLoop<Float32>(data, n, m, 0, tlen + 1, seq(m, _ => FloatZero),
                                 FloatValue(ops, e), ops.add)))
      else
        var acc := ValueLoop<int>(data, n, m, 0, tlen + 1, seq(m, _ => 0), IntDelta, WrapAdd);
        if mode == 1 then Ok(Ints(acc))
        else Ok(Shorts(seq(|acc|, i requires 0 <= i < |acc| => Short(acc[i]))))
  }

  // ---------------------------------------------------------------------------
  // Reference definitions: what the running accumulators compute.

  /** The contribution of scalar j, from its tag and its value bytes. */
  function Delta<T>(data: seq<byte>, n: nat, j: nat, conv: (int, int) -> T): T
    requires Fits(data, n) && j < n
  {
    var t := TagAt(data, j);
    SizeSumMono(data, j + 1, n);
    conv(t, RawValue(data, t, ValueStart(data, n, j)))
  }

  /** The contributions of the first k of n scalars, in order. */
  function DeltaPrefix<T>(data: seq<byte>, n: nat, k: nat, conv: (int, int) -> T): (d: seq<T>)
    requires Fits(data, n) && k <= n
    ensures |d| == k
    ensures forall j :: 0 <= j < k ==> d[j] == Delta(data, n, j, conv)
  {
    if k == 0 then [] else DeltaPrefix(data, n, k - 1, conv) + [Delta(data, n, k - 1, conv)]
  }

  /** The contributions of all n scalars. */
  function Deltas<T>(data: seq<byte>, n: nat, conv: (int, int) -> T): (d: seq<T>)
    requires Fits(data, n)
    ensures |d| == n
    ensures forall j :: 0 <= j < n ==> d[j] == Delta(data, n, j, conv)
  {
    DeltaPrefix(data, n, n, conv)
  }

  /** `zero` combined by `op` with every xs[j], j < k, of column c (j % m == c), in order. */
  function ColumnFold<T>(xs: seq<T>, m: nat, c: nat, k: nat, zero: T, op: (T, T) -> T): T
    requires 0 < m && k <= |xs|
  {
    if k == 0 then zero
    else
      var prev := ColumnFold(xs, m, c, k - 1, zero, op);
      if (k - 1) % m == c then op(prev, xs[k - 1]) else prev
  }

  /** The exact integer sum of xs[j] over j < k with j % m == c. */
  function ColumnSum(xs: seq<int>, m: nat, c: nat, k: nat): int
    requires 0 < m && k <= |xs|
  {
    if k == 0 then 0
    else ColumnSum(xs, m, c, k - 1) + (if (k - 1) % m == c then xs[k - 1] else 0)
  }

  /** refDecode's second loop with the contributions already in hand: add each
      to the accumulator of its column and emit the accumulator. */
  function ColumnLoop<T>(ds: seq<T>, m: nat, x: nat, acc: seq<T>, op: (T, T) -> T): (out: seq<T>)
    requires 0 < m && |acc| == m && x <= |ds|
    ensures |out| == |ds| - x
    decreases |ds| - x
  {
    if x == |ds| then []
    else
      var c := x % m;
      var a := op(acc[c], ds[x]);
      [a] + ColumnLoop(ds, m, x + 1, acc[c := a], op)
  }

  /** One turn of the byte-reading loop adds scalar x's contribution to its
      column and moves on to scalar x + 1's value bytes. */
  lemma ValueLoopStep<T>(data: seq<byte>, n: nat, m: nat, x: nat, at: int,
                         acc: seq<T>, conv: (int, int) -> T, op: (T, T) -> T)
    requires 0 < m && |acc| == m && x < n
    requires Fits(data, n)
    requires at == ValueStart(data, n, x)
    ensures var a := op(acc[x % m], Deltas(data, n, conv)[x]);
      ValueLoop(data, n, m, x, at, acc, conv, op)
      == [a] + ValueLoop(data, n, m, x + 1, ValueStart(data, n, x + 1), acc[x % m := a], conv, op)
  {
    var t := TagAt(data, x);
    SizeSumMono(data, x + 1, n);
    assert ValueStart(data, n, x + 1) == at + ValueSize(t);
    assert Deltas(data, n, conv)[x] == conv(t, RawValue(data, t, at));
  }

  /** The byte-reading loop adds exactly the contributions Deltas lists. */
  lemma {:induction false} ValueLoopIsColumnLoop<T>(data: seq<byte>, n: nat, m: nat, x: nat, at: int,
                                                    acc: seq<T>, conv: (int, int) -> T, op: (T, T) -> T)
    requires 0 < m && |acc| == m && x <= n
    requires Fits(data, n)
    requires at == ValueStart(data, n, x)
    ensures ValueLoop(data, n, m, x, at, acc, conv, op) == ColumnLoop(Deltas(data, n, conv), m, x, acc, op)
    decreases n - x
  {
    if x < n {
      var next := ValueStart(data, n, x + 1);
      var a := op(acc[x % m], Deltas(data, n, conv)[x]);
      ValueLoopStep(data, n, m, x, at, acc, conv, op);
      ColumnLoopStep(Deltas(data, n, conv), m, x, acc, op);
      ValueLoopIsColumnLoop(data, n, m, x + 1, next, acc[x % m := a], conv, op);
    }
  }

  /** One turn of the column loop. */
  lemma ColumnLoopStep<T>(ds: seq<T>, m: nat, x: nat, acc: seq<T>, op: (T, T) -> T)
    requires 0 < m && |acc| == m && x < |ds|
    ensures var a := op(acc[x % m], ds[x]);
      ColumnLoop(ds, m, x, acc, op) == [a] + ColumnLoop(ds, m, x + 1, acc[x % m := a], op)
  {
  }

  /** The loop keeps, for every column, the fold of that column's contributions so far. */
  lemma {:induction false} ColumnLoopFolds<T>(ds: seq<T>, m: nat, x: nat, acc: seq<T>, op: (T, T) -> T, zero: T)
    requires 0 < m && |acc| == m && x <= |ds|
    requires forall c :: 0 <= c < m ==> acc[c] == ColumnFold(ds, m, c, x, zero, op)
    ensures var out := ColumnLoop(ds, m, x, acc, op);
      forall i :: x <= i < |ds| ==> out[i - x] == ColumnFold(ds, m, i % m, i + 1, zero, op)
    decreases |ds| - x
  {
    if x < |ds| {
      var c := x % m;
      var a := op(acc[c], ds[x]);
      var acc' := acc[c := a];
      forall c' | 0 <= c' < m
        ensures acc'[c'] == ColumnFold(ds, m, c', x + 1, zero, op)
      {
        if c' == c {
          assert acc'[c'] == a;
        } else {
          assert acc'[c'] == acc[c'];
        }
      }
      ColumnLoopFolds(ds, m, x + 1, acc', op, zero);
      var out := ColumnLoop(ds, m, x, acc, op);
      var rest := ColumnLoop(ds, m, x + 1, acc', op);
      assert out == [a] + rest;
      forall i | x <= i < |ds|
        ensures out[i - x] == ColumnFold(ds, m, i % m, i + 1, zero, op)
      {
        if i == x {
          assert out[0] == acc'[c];
        } else {
          assert out[i - x] == rest[i - (x + 1)];
        }
      }
    }
  }
  /** Every output is its column's fold of contributions up to and including itself. */
  lemma DecodeFolds<T>(data: seq<byte>, n: nat, m: nat, acc: seq<T>, conv: (int, int) -> T, op: (T, T) -> T, zero: T)
    requires 0 < m && Fits(data, n)
    requires |acc| == m && forall c :: 0 <= c < m ==> acc[c] == zero
    ensures var out := ValueLoop(data, n, m, 0, TagBytes(n) + 1, acc, conv, op);
      forall i :: 0 <= i < n ==> out[i] == ColumnFold(Deltas(data, n, conv), m, i % m, i + 1, zero, op)
  {
    var ds := Deltas(data, n, conv);
    ValueLoopIsColumnLoop(data, n, m, 0, TagBytes(n) + 1, acc, conv, op);
    forall c | 0 <= c < m
      ensures acc[c] == ColumnFold(ds, m, c, 0, zero, op)
    {
    }
    ColumnLoopFolds(ds, m, 0, acc, op, zero);
    var out := ColumnLoop(ds, m, 0, acc, op);
    assert ValueLoop(data, n, m, 0, TagBytes(n) + 1, acc, conv, op) == out;
    forall i | 0 <= i < n
      ensures out[i] == ColumnFold(ds, m, i % m, i + 1, zero, op)
    {
      assert out[i - 0] == ColumnFold(ds, m, i % m, i + 1, zero, op);
    }
  }

  /** Folding wrapped values with wrapping addition wraps the exact column sum. */
  lemma {:induction false} WrapFoldIsExactSum(xs: seq<int>, ws: seq<int>, m: nat, c: nat, k: nat)
    requires 0 < m && k <= |xs| == |ws|
    requires forall j :: 0 <= j < |xs| ==> ws[j] == Wrap32(xs[j])
    ensures ColumnFold(ws, m, c, k, 0, WrapAdd) == Wrap32(ColumnSum(xs, m, c, k))
  {
    if k > 0 {
      WrapFoldIsExactSum(xs, ws, m, c, k - 1);
      var s := ColumnSum(xs, m, c, k - 1);
      WrapAddExact(s, ws[k - 1]);
      WrapAddExact(xs[k - 1], s);
    }
  }

  lemma IntDeltasWrapExact(data: seq<byte>, n: nat)
    requires Fits(data, n)
    ensures forall j :: 0 <= j < n ==>
      Deltas(data, n, IntDelta)[j] == Wrap32(Deltas(data, n, ExactDelta)[j])
  {
  }

  /** Once its arguments pass, refDecode is the decode of count * members scalars. */
  lemma RefDecodeIsScalars(data: seq<byte>, count: int, members: int, mode: int, ops: FloatOps)
    requires 0 <= members && |data| <= Int32Max
    requires RefDecode(data, count, members, mode, ops).Ok?
    ensures 0 < members && 0 <= mode <= 2 && 0 < count * members && 0 < |data|
    ensures RefDecode(data, count, members, mode, ops) == DecodeScalars(data, count * members, members, mode, ops)
  {
  }

  /** On success the decode is the value loop over the scalars' contributions. */
  lemma DecodeScalarsOk(data: seq<byte>, n: int, m: int, mode: int, ops: FloatOps)
    requires 0 < m && 0 <= mode <= 2 && n != 0 && 0 < |data| <= Int32Max
    requires DecodeScalars(data, n, m, mode, ops).Ok?
    ensures n > 0 && Fits(data, n)
    ensures mode == 0 ==> (DecodeScalars(data, n, m, mode, ops) ==
      Ok(Floats(ValueLoop<Float32>(data, n, m, 0, TagBytes(n) + 1, seq(m, _ => FloatZero),
                                   FloatValue(ops, data[TagBytes(n)] as int), ops.add))))
    ensures mode != 0 ==>
      var acc := ValueLoop<int>(data, n, m, 0, TagBytes(n) + 1, seq(m, _ => 0), IntDelta, WrapAdd);
      DecodeScalars(data, n, m, mode, ops) ==
        if mode == 1 then Ok(Ints(acc)) else Ok(Shorts(seq(|acc|, i requires 0 <= i < |acc| => Short(acc[i]))))
  {
  }

  /** The int accumulators of n scalars in columns of m are the exact running
      column sums, wrapped to `int`. */
  lemma IntLoopSums(data: seq<byte>, n: nat, m: nat)
    requires 0 < m && Fits(data, n)
    ensures var acc := ValueLoop<int>(data, n, m, 0, TagBytes(n) + 1, seq(m, _ => 0), IntDelta, WrapAdd);
      forall i :: 0 <= i < n ==> acc[i] == Wrap32(ColumnSum(Deltas(data, n, ExactDelta), m, i % m, i + 1))
  {
    DecodeFolds<int>(data, n, m, seq(m, _ => 0), IntDelta, WrapAdd, 0);
    IntDeltasWrapExact(data, n);
    forall i | 0 <= i < n
      ensures ColumnFold(Deltas(data, n, IntDelta), m, i % m, i + 1, 0, WrapAdd)
           == Wrap32(ColumnSum(Deltas(data, n, ExactDelta), m, i % m, i + 1))
    {
      WrapFoldIsExactSum(Deltas(data, n, ExactDelta), Deltas(data, n, IntDelta), m, i % m, i + 1);
    }
  }

  /** Int32 mode: output i is the running sum, wrapped to `int`, of the deltas
      seen so far in column i % members (tag 0 adds 1, the others value + 1). */
  lemma IntDecodeIsRunningSum(data: seq<byte>, count: int, members: int, ops: FloatOps)
    requires 0 <= members && |data| <= Int32Max
    requires RefDecode(data, count, members, 1, ops).Ok?
    ensures var v := RefDecode(data, count, members, 1, ops).value;
      var n := count * members;
      v.Ints? && |v.ints| == n &&
      forall i :: 0 <= i < n ==>
        v.ints[i] == Wrap32(ColumnSum(Deltas(data, n, ExactDelta), members, i % members, i + 1))
  {
    RefDecodeIsScalars(data, count, members, 1, ops);
    var n := count * members;
    DecodeScalarsOk(data, n, members, 1, ops);
    IntLoopSums(data, n, members);
  }

  /** Int16 mode stores the low 16 bits of the same running sums: the accumulator
      itself is not truncated between steps. */
  lemma ShortDecodeIsTruncatedSum(data: seq<byte>, count: int, members: int, ops: FloatOps)
    requires 0 <= members && |data| <= Int32Max
    requires RefDecode(data, count, members, 2, ops).Ok?
    ensures var v := RefDecode(data, count, members, 2, ops).value;
      var n := count * members;
      v.Shorts? && |v.shorts| == n &&
      forall i :: 0 <= i < n ==>
        v.shorts[i] == Short(ColumnSum(Deltas(data, n, ExactDelta), members, i % members, i + 1))
  {
    RefDecodeIsScalars(data, count, members, 2, ops);
    var n := count * members;
    DecodeScalarsOk(data, n, members, 2, ops);
    IntLoopSums(data, n, members);
    var acc := ValueLoop<int>(data, n, members, 0, TagBytes(n) + 1, seq(members, _ => 0), IntDelta, WrapAdd);
    forall i | 0 <= i < n
      ensures Short(acc[i]) == Short(ColumnSum(Deltas(data, n, ExactDelta), members, i % members, i + 1))
    {
      ShortOfWrap(ColumnSum(Deltas(data, n, ExactDelta), members, i % members, i + 1));
    }
  }

  /** Output i of a float decode folds float addition over column i % m. */
  predicate FloatColumns(v: seq<Float32>, data: seq<byte>, n: nat, m: nat, ops: FloatOps, e: int)
    requires 0 < m && Fits(data, n) && |v| == n
  {
    forall i :: 0 <= i < n ==>
      v[i] == ColumnFold(Deltas(data, n, FloatValue(ops, e)), m, i % m, i + 1, FloatZero, ops.add)
  }

  /** Float mode on n scalars: the column folds of float addition. */
  lemma FloatScalarsFold(data: seq<byte>, n: int, m: int, ops: FloatOps)
    requires 0 < m && n != 0 && 0 < |data| <= Int32Max
    requires DecodeScalars(data, n, m, 0, ops).Ok?
    ensures 0 < n && TagBytes(n) < |data| && Fits(data, n)
    ensures var v := DecodeScalars(data, n, m, 0, ops).value;
      v.Floats? && |v.floats| == n && data[TagBytes(n)] as int <= 30 &&
      FloatColumns(v.floats, data, n, m, ops, data[TagBytes(n)] as int)
  {
    DecodeScalarsOk(data, n, m, 0, ops);
    var e := data[TagBytes(n)] as int;
    var conv: (int, int) -> Float32 := FloatValue(ops, e);
    var acc: seq<Float32> := seq(m, _ => FloatZero);
    var out := ValueLoop<Float32>(data, n, m, 0, TagBytes(n) + 1, acc, conv, ops.add);
    DecodeFolds<Float32>(data, n, m, acc, conv, ops.add, FloatZero);
    assert FloatColumns(out, data, n, m, ops, e);
  }

  /** Float mode: output i folds float addition over column i % members, starting
      from 0.0; tag-3 patterns are added like any other value. */
  lemma FloatDecodeIsColumnFold(data: seq<byte>, count: int, members: int, ops: FloatOps)
    requires 0 <= members && |data| <= Int32Max
    requires RefDecode(data, count, members, 0, ops).Ok?
    ensures 0 < count * members && TagBytes(count * members) < |data|
    ensures var v := RefDecode(data, count, members, 0, ops).value;
      var n := count * members;
      var e := data[TagBytes(n)] as int;
      v.Floats? && |v.floats| == n && e <= 30 &&
      forall i :: 0 <= i < n ==>
        v.floats[i] == ColumnFold(Deltas(data, n, FloatValue(ops, e)), members, i % members, i + 1,
                                  FloatZero, ops.add)
  {
    RefDecodeIsScalars(data, count, members, 0, ops);
    FloatScalarsFold(data, count * members, members, ops);
  }

  /** Scalar j's value bytes lie after the tag bytes and the extra byte, and
      before the end of the stream. */
  lemma ValueBytesInBounds(data: seq<byte>, n: nat, j: nat)
    requires Fits(data, n) && j < n
    ensures TagBytes(n) + 1 <= ValueStart(data, n, j)
    ensures ValueStart(data, n, j) + ValueSize(TagAt(data, j)) <= |data|
  {
    SizeSumMono(data, j + 1, n);
  }

  /** The value loop over three all-zero tags in one column counts 1, 2, 3. */
  lemma RepeatTagsLoop()
    ensures ValueLoop([0, 0], 3, 1, 0, 2, [0], IntDelta, WrapAdd) == [1, 2, 3]
  {
    var data: seq<byte> := [0, 0];
    assert TagBytes(3) == 1;
    assert TagAt(data, 0) == 0 && TagAt(data, 1) == 0 && TagAt(data, 2) == 0;
    assert SizeSum(data, 1) == 0;
    assert SizeSum(data, 2) == 0;
    assert SizeSum(data, 3) == 0;
    assert WrapAdd(0, 1) == 1 && WrapAdd(1, 1) == 2 && WrapAdd(2, 1) == 3;
    assert ValueLoop(data, 3, 1, 3, 2, [3], IntDelta, WrapAdd) == [];
    assert ValueLoop(data, 3, 1, 2, 2, [2], IntDelta, WrapAdd) == [3];
    assert ValueLoop(data, 3, 1, 1, 2, [1], IntDelta, WrapAdd) == [2, 3];
  }

  /** Three int scalars with all-zero tags decode to 1, 2, 3. */
  lemma RepeatTagsCount(ops: FloatOps)
    ensures RefDecode([0, 0], 3, 1, 1, ops) == Ok(Ints([1, 2, 3]))
  {
    var data: seq<byte> := [0, 0];
    RepeatTagsLoop();
    assert TagBytes(3) == 1 && SizeSum(data, 3) == 0;
    assert seq(1, _ => 0) == [0];
    assert RefDecode(data, 3, 1, 1, ops) == DecodeScalars(data, 3, 1, 1, ops);
  }

  // ---------------------------------------------------------------------------
  // Tag packing, the inverse of TagAt.

  /** The byte holding up to four tags, first tag in the low bits. */
  function PackGroup(g: seq<int>): (b: byte)
    requires 0 < |g| <= 4 && forall k :: 0 <= k < |g| ==> 0 <= g[k] < 4
  {
    var t0 := g[0];
    var t1 := if |g| > 1 then g[1] else 0;
    var t2 := if |g| > 2 then g[2] else 0;
    var t3 := if |g| > 3 then g[3] else 0;
    (t0 + 4 * t1 + 16 * t2 + 64 * t3) as byte
  }

  /** The tag bytes an encoder writes for a sequence of tags. */
  function PackTags(ts: seq<int>): (b: seq<byte>)
    requires forall k :: 0 <= k < |ts| ==> 0 <= ts[k] < 4
    ensures |b| == TagBytes(|ts|)
    decreases |ts|
  {
    if |ts| == 0 then []
    else if |ts| <= 4 then [PackGroup(ts)]
    else [PackGroup(ts[..4])] + PackTags(ts[4..])
  }

  lemma GroupTag(g: seq<int>, r: nat)
    requires 0 < |g| <= 4 && forall k :: 0 <= k < |g| ==> 0 <= g[k] < 4
    requires r < |g|
    ensures Pair(PackGroup(g) as int, r) == g[r]
  {
    var t0 := g[0];
    var t1 := if |g| > 1 then g[1] else 0;
    var t2 := if |g| > 2 then g[2] else 0;
    var t3 := if |g| > 3 then g[3] else 0;
    var v := PackGroup(g) as int;
    assert v == t0 + 4 * (t1 + 4 * (t2 + 4 * t3));
    var q1 := t1 + 4 * (t2 + 4 * t3);
    var q2 := t2 + 4 * t3;
    assert v / 4 == q1 && v % 4 == t0;
    assert q1 / 4 == q2 && q1 % 4 == t1;
    assert q2 / 4 == t3 && q2 % 4 == t2;
    assert v / 16 == q2 by {
      assert v == 16 * q2 + (t0 + 4 * t1);
    }
    assert v / 64 == t3 by {
      assert v == 64 * t3 + (t0 + 4 * t1 + 16 * t2);
    }
  }

  /** Tags read back from packed bytes are the tags packed, two bits each,
      least significant pair first. */
  lemma {:induction false} PackTagsRoundTrip(ts: seq<int>, i: nat)
    requires forall k :: 0 <= k < |ts| ==> 0 <= ts[k] < 4
    requires i < |ts|
    ensures i / 4 < |PackTags(ts)| && TagAt(PackTags(ts), i) == ts[i]
    decreases |ts|
  {
    if |ts| <= 4 {
      GroupTag(ts, i);
    } else if i < 4 {
      GroupTag(ts[..4], i);
    } else {
      PackTagsRoundTrip(ts[4..], i - 4);
      assert (i - 4) / 4 == i / 4 - 1 && (i - 4) % 4 == i % 4;
    }
  }
}
