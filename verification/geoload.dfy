/** geoLoad (geo.c:622-656): unwrap the metadata stream, then build the graph
    from it and the pool of model streams that follows it in the file. */
module Load {
  import opened Bytes
  import opened Stream
  import opened Codec
  import opened Graph
  import opened Envelope
  import opened Meta

  /** geoLoad on the `len` bytes of `data`; `len` is a C `int`. A graph is
      returned whole or not at all: on any failure the partial structure is
      released and nothing survives. */
  function GeoLoad(data: seq<byte>, inflate: Inflater, ops: FloatOps): (r: Result<Geo>)
    requires |data| <= Int32Max
    ensures |data| < 16 ==> r == Err(BadArguments)
    // an envelope the loader cannot open fails the load with the envelope's error
    ensures 16 <= |data| && GetMeta(data, inflate).Err? ==> r == Err(GetMeta(data, inflate).error)
    // a returned graph stands on an opened envelope, carries its metadata
    // stream, and is well formed
    ensures r.Ok? ==> 16 <= |data| && GetMeta(data, inflate).Ok?
                      && r.value.meta == GetMeta(data, inflate).value.meta
                      && WellFormed(r.value)
  {
    if |data| < 16 then Err(BadArguments)
    else
      match GetMeta(data, inflate)
      case Err(e) => Err(e)
      case Ok(env) => GetModels(env.meta, data, env.poolAt, |data| - env.poolAt, env.version, inflate, ops)
  }

  /** Once the envelope opens, loading is getModels on what it holds: the
      inflated metadata stream, the version, and the pool from the offset
      getMeta computed to the end of the file. */
  lemma LoadOpened(data: seq<byte>, meta: seq<byte>, version: int, poolAt: int, poolLen: int,
                   inflate: Inflater, ops: FloatOps)
    requires 16 <= |data| <= Int32Max && poolAt + poolLen == |data|
    requires GetMeta(data, inflate) == Ok(Envelope(meta, version, poolAt))
    ensures GeoLoad(data, inflate, ops) == GetModels(meta, data, poolAt, poolLen, version, inflate, ops)
  {
  }

  /** Loading a legacy container is getModels on the stream packed into it,
      at version 0, with exactly the container's pool, which starts
      |packed| + 12 bytes in. */
  lemma LoadLegacyFile(packed: seq<byte>, meta: seq<byte>, pool: seq<byte>,
                       inflate: Inflater, ops: FloatOps)
    requires 8 <= |packed| && 0 < |meta| <= Int32Max
    requires 12 + |packed| + |pool| <= Int32Max
    requires inflate(packed, |meta|) == Some(meta)
    ensures GeoLoad(LegacyFile(packed, |meta|, pool), inflate, ops)
            == GetModels(meta, LegacyFile(packed, |meta|, pool), |packed| + 12, |pool|, 0, inflate, ops)
  {
    LegacyRoundTrip(packed, meta, pool, inflate);
    LoadOpened(LegacyFile(packed, |meta|, pool), meta, 0, |packed| + 12, |pool|, inflate, ops);
  }

  /** Loading a modern container is getModels on the stream packed into it,
      at the container's version, with exactly the container's pool. */
  lemma LoadModernFile(packed: seq<byte>, version: int, meta: seq<byte>, pool: seq<byte>,
                       inflate: Inflater, ops: FloatOps)
    requires 0 < |packed| && IsInt32(version) && 0 < |meta| <= Int32Max
    requires 20 + |packed| + |pool| <= Int32Max
    requires inflate(packed, |meta|) == Some(meta)
    ensures GeoLoad(ModernFile(packed, version, |meta|, pool), inflate, ops)
            == GetModels(meta, ModernFile(packed, version, |meta|, pool),
                         |packed| + 12 + PoolSkip(version), |pool|, version, inflate, ops)
  {
    ModernRoundTrip(packed, version, meta, pool, inflate);
    LoadOpened(ModernFile(packed, version, |meta|, pool), meta, version,
               |packed| + 12 + PoolSkip(version), |pool|, inflate, ops);
  }
}
