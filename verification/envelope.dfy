/** getMeta (geo.c:58-94): the container envelope around the metadata stream.
    A legacy header is two words (packed size + 4, unpacked size); a modern
    header has a zero second word followed by the version and the unpacked size. */
module Envelope {
  import opened Bytes
  import opened Stream

  /** The unpacked metadata stream, the format version, and the file position
      where the pool of model streams starts. */
  datatype Envelope = Envelope(meta: seq<byte>, version: int, poolAt: int)

  /** A modern header is flagged by a zero word at offset 4. */
  predicate Modern(data: seq<byte>)
    requires 16 <= |data|
  {
    I32(data, 4) == 0
  }

  /** The declared size of the unpacked metadata stream. */
  function UnpackedSize(data: seq<byte>): (n: int)
    requires 16 <= |data|
    // a legacy size word is never 0: a zero there flags the modern header
    ensures Modern(data) || n != 0
    ensures IsInt32(n)
    // the modern header keeps it at 12, the legacy one at 4
    ensures Modern(data) ==> n == I32(data, 12)
    ensures !Modern(data) ==> n == I32(data, 4)
  {
    if Modern(data) then I32(data, 12) else I32(data, 4)
  }

  /** How far past MetaSize the pool starts (geo.c:89): the packed stream ends
      at MetaSize + 4, and version 0 leaves a further word before the pool. */
  function PoolSkip(version: int): int
  {
    if version == 0 then 8 else 4
  }

  /** getMeta on a file of at least 16 bytes (geoLoad checks the length first). */
  function GetMeta(data: seq<byte>, inflate: Inflater): (r: Result<Envelope>)
    requires 16 <= |data| <= Int32Max
    // the header's own checks
    ensures I32(data, 0) < 12 ==> r == Err(BadHeader)
    ensures I32(data, 0) + 4 > |data| ==> r.Err?
    ensures UnpackedSize(data) == 0 ==> r.Err?
    // legacy: version 0, packed stream at offset 8 of MetaSize - 4 bytes
    ensures r.Ok? && !Modern(data) ==>
      r.value.version == 0 &&
      GetZlib(data, 8, I32(data, 0) - 4, I32(data, 4), inflate) == Ok(r.value.meta)
    // modern: version and size at 8 and 12, packed stream at 16 of MetaSize - 12 bytes
    ensures r.Ok? && Modern(data) ==>
      r.value.version == I32(data, 8) &&
      GetZlib(data, 16, I32(data, 0) - 12, I32(data, 12), inflate) == Ok(r.value.meta)
    // the pool follows the packed stream: MetaSize + 8 for version 0, MetaSize + 4 otherwise
    ensures r.Ok? ==> 12 <= I32(data, 0) && I32(data, 0) + 4 <= |data|
                      && |r.value.meta| == UnpackedSize(data) > 0
                      && r.value.poolAt == I32(data, 0) + PoolSkip(r.value.version)
  {
    var metaSize := I32(data, 0);
    var modern := Modern(data);
    var version := if modern then I32(data, 8) else 0;
    var unpacked := UnpackedSize(data);
    var payloadAt := if modern then 16 else 8;
    var zipBias := if modern then 12 else 4;
    if metaSize < 12 then Err(BadHeader)
    else
      var end :- Checked(metaSize + 4);
      if end > |data| || unpacked == 0 then Err(BadHeader)
      else
        var meta :- GetZlib(data, payloadAt, metaSize - zipBias, unpacked, inflate);
        // the further `+= 4` for version 0 tests the pointer, not the version,
        // so it never runs
        var poolAt :- Checked(metaSize + PoolSkip(version));
        Ok(Envelope(meta, version, poolAt))
  }

  /** The four bytes between the packed stream and the pool that the loader
      steps over for version 0: the packed stream ends at MetaSize + 4, and
      the pool offset is MetaSize + 8. Their content is never read. */
  const Gap: seq<byte> := [0, 0, 0, 0]

  /** A legacy container: packed size + 4, unpacked size, the packed stream,
      the skipped word, the pool. */
  function LegacyFile(packed: seq<byte>, size: int, pool: seq<byte>): (f: seq<byte>)
    requires 0 < size <= Int32Max && |packed| + 4 <= Int32Max
    ensures |f| == |packed| + 12 + |pool|
    ensures f[|f| - |pool|..] == pool
  {
    EncodeI32(|packed| + 4) + EncodeI32(size) + packed + Gap + pool
  }

  /** A modern container: packed size + 12, zero, version, unpacked size, the
      packed stream, then the pool; for version 0 the pool is preceded by the
      skipped word. */
  function ModernFile(packed: seq<byte>, version: int, size: int, pool: seq<byte>): (f: seq<byte>)
    requires IsInt32(version) && 0 < size <= Int32Max && |packed| + 12 <= Int32Max
    ensures |f| == |packed| + 16 + (if version == 0 then 4 else 0) + |pool|
    ensures f[|f| - |pool|..] == pool
  {
    EncodeI32(|packed| + 12) + EncodeI32(0) + EncodeI32(version) + EncodeI32(size) + packed
      + ((if version == 0 then Gap else []) + pool)
  }

  /** getMeta inverts LegacyFile, and the pool offset it reports is where the
      pool starts: the packed stream must hold at least 8 bytes for its size
      word to pass the MetaSize >= 12 check. */
  lemma LegacyRoundTrip(packed: seq<byte>, meta: seq<byte>, pool: seq<byte>, inflate: Inflater)
    requires 8 <= |packed| && 0 < |meta| <= Int32Max
    requires 12 + |packed| + |pool| <= Int32Max
    requires inflate(packed, |meta|) == Some(meta)
    ensures GetMeta(LegacyFile(packed, |meta|, pool), inflate)
            == Ok(Envelope(meta, 0, |packed| + 12))
    ensures |packed| + 12 == |LegacyFile(packed, |meta|, pool)| - |pool|
  {
    var data := LegacyFile(packed, |meta|, pool);
    I32At(data, 0, |packed| + 4);
    I32At(data, 4, |meta|);
    assert data[8..8 + |packed|] == packed;
  }

  /** getMeta inverts ModernFile, whatever the version, and the pool offset
      it reports is where the pool starts: right after the packed stream, or
      after the skipped word for version 0. */
  lemma ModernRoundTrip(packed: seq<byte>, version: int, meta: seq<byte>, pool: seq<byte>,
                        inflate: Inflater)
    requires 0 < |packed| && IsInt32(version) && 0 < |meta| <= Int32Max
    requires 20 + |packed| + |pool| <= Int32Max
    requires inflate(packed, |meta|) == Some(meta)
    ensures GetMeta(ModernFile(packed, version, |meta|, pool), inflate)
            == Ok(Envelope(meta, version, |packed| + 12 + PoolSkip(version)))
    ensures |packed| + 12 + PoolSkip(version)
            == |ModernFile(packed, version, |meta|, pool)| - |pool|
  {
    ModernHeader(packed, version, |meta|, (if version == 0 then Gap else []) + pool);
  }

  /** The four header words and the packed stream of a modern container read
      back whatever follows them. */
  lemma ModernHeader(packed: seq<byte>, version: int, size: int, rest: seq<byte>)
    requires IsInt32(version) && 0 < size <= Int32Max && |packed| + 12 <= Int32Max
    ensures var data := EncodeI32(|packed| + 12) + EncodeI32(0) + EncodeI32(version)
                        + EncodeI32(size) + packed + rest;
            I32(data, 0) == |packed| + 12 && I32(data, 4) == 0 && I32(data, 8) == version
            && I32(data, 12) == size && data[16..16 + |packed|] == packed
  {
    var data := EncodeI32(|packed| + 12) + EncodeI32(0) + EncodeI32(version)
                + EncodeI32(size) + packed + rest;
    I32At(data, 0, |packed| + 12);
    I32At(data, 4, 0);
    I32At(data, 8, version);
    I32At(data, 12, size);
    assert data[16..16 + |packed|] == packed;
  }
}
