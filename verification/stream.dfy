/** getZlib (geo.c:33-55): a sub-stream is either stored (packed length zero) or
    inflated, and must come out at exactly its declared unpacked size. */
module Stream {
  import opened Bytes

  /** The zlib `uncompress` primitive (RFC 1950), which the decoder links from a
      foreign library: given the packed bytes and the output capacity it reports
      an error (None) or the bytes it produced. The capacity is passed exactly,
      as on a target whose `unsigned long` has the width of the `int` that
      holds it. */
  type Inflater = (seq<byte>, int) -> Option<seq<byte>>

  /** getZlib on the bytes of `buf` from position `at` onwards. */
  function GetZlib(buf: seq<byte>, at: int, packed: int, unpacked: int, inflate: Inflater)
    : (r: Result<seq<byte>>)
    // an empty stream is never extracted
    ensures unpacked == 0 ==> r == Err(NoStream)
    // whatever comes out has exactly the declared size
    ensures r.Ok? ==> 0 < unpacked && |r.value| == unpacked
    // stored: the first `unpacked` source bytes, verbatim
    ensures packed == 0 && 0 < unpacked && 0 <= at && at + unpacked <= |buf| ==>
      r == Ok(buf[at..at + unpacked])
    // inflated: success exactly when inflate succeeds at the declared size, never truncated or padded
    ensures packed > 0 && 0 < unpacked && 0 <= at && at + packed <= |buf| ==>
      (r.Ok? <==> inflate(buf[at..at + packed], unpacked).Some?
                  && |inflate(buf[at..at + packed], unpacked).value| == unpacked)
    ensures packed != 0 && r.Ok? ==>
      0 < packed && 0 <= at && at + packed <= |buf|
      && inflate(buf[at..at + packed], unpacked) == Some(r.value)
  {
    if unpacked == 0 then Err(NoStream)
    // malloc of a negative size yields NULL, which memcpy/uncompress then write to
    else if unpacked < 0 then Err(Unchecked(NegativeLength))
    else if packed == 0 then
      // memcpy reads `unpacked` bytes from the source without checking its size
      if at < 0 || at + unpacked > |buf| then Err(Unchecked(ReadOutside))
      else Ok(buf[at..at + unpacked])
    // a negative source length reaches uncompress
    else if packed < 0 then Err(Unchecked(NegativeLength))
    // uncompress is told the source holds `packed` bytes without that being checked
    else if at < 0 || at + packed > |buf| then Err(Unchecked(ReadOutside))
    else
      match inflate(buf[at..at + packed], unpacked)
      case None => Err(InflateFailed)
      case Some(out) => if |out| != unpacked then Err(InflateFailed) else Ok(out)
  }

  /** Round trip: a packed stream that inflates to `x` is extracted as `x` when
      its declared size is |x|, and rejected at any other declared size, given an
      inflate whose output does not depend on the capacity it is offered. */
  lemma InflateRoundTrip(buf: seq<byte>, at: int, packed: int, x: seq<byte>,
                         unpacked: int, inflate: Inflater)
    requires 0 < packed && 0 <= at && at + packed <= |buf| && |x| > 0
    requires inflate(buf[at..at + packed], |x|) == Some(x)
    requires inflate(buf[at..at + packed], unpacked) in {None, Some(x)}
    ensures GetZlib(buf, at, packed, |x|, inflate) == Ok(x)
    ensures GetZlib(buf, at, packed, unpacked, inflate).Ok? <==> unpacked == |x|
  {
  }
}
