# GEO container decoder, modelled in Dafny

This project models the GEO loader in `geo.c`. The loader takes the bytes of a
`.geo` file and builds an object graph (`geo.h`): a texture-name table and a list
of models, each with faces and vertices. Every stage is modelled as a pure
function over a byte sequence that returns a `Result`:

- `GetInt16`/`GetInt32`: little-endian reads (`Bytes`).
- `getZlib`: extracts a sub-stream, either stored or inflated (`Stream`).
- `getMeta`: handles the legacy and the modern container envelope (`Envelope`).
- `refDecode`: the 2-bit-tagged, per-column delta codec for face indexes and vertex data (`Codec`).
- `getModel`/`getModelv2`: the two model-block layouts (`ModelBlock`).
- `getModels`: the metadata header, the texture-name table and the model loop (`Meta`).
- The texture-usage pass, a run-length table (`Textures`).
- `geoLoad`: the all-or-nothing composition (`Load`).

Some C operations have no defined behaviour. Examples are a read outside a
buffer, a negative length handed to `malloc`/`memcpy`/`uncompress`, a signed
`int` overflow in offset or size arithmetic, and a read of a variable that was
never assigned. At such a point the model does not guess what a compiled build
would do. It stops with `Err(Unchecked(hazard))`, and the contracts keep these
outcomes apart from the loader's own failures. The exceptions are the few
points under "Left out" where the model follows what compilers produce:
- the sign bit of `GetInt32`;
- the wrap-around of the codec's `int` accumulators;
- the width of zlib's length argument.

Two parts of the loader are not computed by the model; they are passed in as
function parameters:

- **zlib's `uncompress` (RFC 1950).** Modelled as an `Inflater`: packed bytes and
  an output capacity in, `None` or the produced bytes out.
- **The float arithmetic of `refDecode`'s float mode.** Modelled as `FloatOps`:
  scaling by `2^e`, and addition. Floats are kept as their 32-bit patterns.

`int` arithmetic is exact, and the 32-bit wrap-around of the codec's
accumulators is written out (`Wrap32`, `Short`).

Pointers into the metadata stream, such as model and texture names and the
graph id, are kept as positions in that stream. The returned `Geo` carries the
stream itself.

The pointer comparison at geo.c:91 (`version == 0` on the pointer, not the
value) means the extra `+= 4` for version 0 never runs. The model follows the
code here: the pool starts at `MetaSize + 8` for version 0 and at
`MetaSize + 4` otherwise.

## Model

| member | source | states |
|---|---|---|
| `Bytes.Checked` | geo.c:109 | a signed `int` result exists exactly when it lies in the 32-bit range, and is reported as a signed-overflow hazard otherwise |
| `Bytes.Wrap32` | geo.c:186 | the two's-complement wrap of an integer is in `int` range, fixes `int` values, and is congruent modulo 2^32 |
| `Bytes.Short` | geo.c:187 | `(short)(x & 0xFFFF)` lies in the 16-bit signed range and is congruent to x modulo 2^16 |
| `Bytes.WrapAddExact` | geo.c:186 | adding to a wrapped accumulator wraps the exact sum, so repeated `+=` on an `int` wraps the exact total |
| `Bytes.ShortOfWrap` | geo.c:187 | truncating to 16 bits after a 32-bit wrap equals truncating the exact value |
| `Bytes.U16` | geo.c:17-18 | GetInt16 is never negative and below 65536, which makes the `< 0` tests at 532 and 595 dead |
| `Bytes.I32` | geo.c:19-21 | GetInt32 yields a signed 32-bit value |
| `Bytes.ReadI32` | geo.c:19-21 | an unguarded GetInt32 succeeds exactly when the four bytes lie in the buffer, and otherwise is a read-outside hazard |
| `Bytes.ReadU16` | geo.c:17-18 | an unguarded GetInt16 succeeds exactly when the two bytes lie in the buffer, and otherwise is a read-outside hazard |
| `Bytes.EncodeU16` | geo.c:17-18 | the little-endian encoder for GetInt16 writes two bytes |
| `Bytes.EncodeI32` | geo.c:19-21 | the little-endian two's-complement encoder for GetInt32 writes four bytes |
| `Bytes.U16RoundTrip` | geo.c:17-18 | GetInt16 reads back every 16-bit value that was encoded |
| `Bytes.U16Bytes` | geo.c:17-18 | every two bytes are the encoding of what GetInt16 reads from them |
| `Bytes.I32RoundTrip` | geo.c:19-21 | GetInt32 reads back every `int` that was encoded, sign included |
| `Bytes.I32Bytes` | geo.c:19-21 | every four bytes are the encoding of what GetInt32 reads from them |
| `Bytes.I32At` | geo.c:19-21 | an encoded word is read back wherever it sits in a buffer |
| `Stream.GetZlib` | geo.c:33-55 | an unpacked size of 0 gives no stream; packed 0 gives exactly the first `unpacked` source bytes; otherwise success exactly when inflate succeeds and yields exactly `unpacked` bytes, never truncated or padded |
| `Stream.InflateRoundTrip` | geo.c:47-54 | a packed stream that inflates to x is extracted as x at its own length as declared size and rejected at any other declared size |
| `Envelope.GetMeta` | geo.c:58-94 | fails when MetaSize < 12, when MetaSize + 4 passes the file, or when the unpacked size is 0; legacy: version 0, payload at 8 of MetaSize - 4 bytes; modern: version and size at 8 and 12, payload at 16 of MetaSize - 12 bytes; the pool starts at MetaSize + 8 for version 0 and at MetaSize + 4 otherwise |
| `Envelope.UnpackedSize` | geo.c:68-77 | the declared size is the word at 12 under a modern header (a zero second word) and the word at 4 otherwise; a legacy size word is never 0, and the size is always an `int` |
| `Envelope.LegacyFile` | geo.c:68-92 | a legacy container is the two header words, the packed stream, the 4 skipped bytes and the pool, and ends with the pool |
| `Envelope.ModernFile` | geo.c:68-92 | a modern container is the four header words, the packed stream, 4 skipped bytes for version 0 only, and the pool, and ends with the pool |
| `Envelope.ModernHeader` | geo.c:68-72 | a modern container's header reads back MetaSize, the zero flag, the version and the unpacked size, with the packed stream at 16 |
| `Envelope.LegacyRoundTrip` | geo.c:67-93 | a legacy container built from a packed stream and a pool opens to its inflated stream, version 0, with the pool at the container's last pool-length bytes, packed length + 12 in |
| `Envelope.ModernRoundTrip` | geo.c:67-93 | a modern container opens to its inflated stream and its version, whatever the version, with the pool at the container's last pool-length bytes, packed length + 16 in (+ 4 for version 0) |
| `Codec.TagBytes` | geo.c:110 | the tag block is ceil(n/4) bytes for n >= 0 and never positive for negative n |
| `Codec.TagAt` | geo.c:118-119 | a tag is one of the four 2-bit values |
| `Codec.ValueSize` | geo.c:123 | a tag t consumes `8 >> (4 - t)` value bytes |
| `Codec.RawValue` | geo.c:148-175 | tag 0 reads nothing; an 8-bit value is biased by 0x7F into -0x7F..0x80 and a 16-bit one by 0x7FFF into -0x7FFF..0x8000; every value is an `int` |
| `Codec.IntDelta` | geo.c:148-174 | int mode adds 1 for tag 0 and the value plus one otherwise: exactly when that is an `int`, else its 32-bit wrap |
| `Codec.IntDeltaTable` | geo.c:148-174 | the int delta read at a position: 1, byte - 0x7E, u16 - 0x7FFE, or the wrap of i32 + 1 by tag |
| `Codec.Reinterpret` | geo.c:173 | reading an `int`'s bits as a float keeps the same 32 bits |
| `Codec.ReinterpretIsPattern` | geo.c:171-173 | the float a tag-3 value becomes is the four bytes read as an unsigned pattern |
| `Codec.FloatDelta` | geo.c:148-175 | float mode adds 0.0 for tag 0 and the raw bit pattern for tag 3 |
| `Codec.FloatDeltaTable` | geo.c:148-175 | the float delta read at a position: 0.0, the scaled byte - 0x7F, the scaled u16 - 0x7FFF, or the four bytes' pattern by tag |
| `Codec.SizeSum` | geo.c:115-125 | the value bytes of n scalars are at most 4n |
| `Codec.SizeSumMono` | geo.c:115-125 | the value bytes consumed grow with the number of scalars |
| `Codec.ValueLoop` | geo.c:143-191 | the value loop emits one output per remaining scalar |
| `Codec.RefDecode` | geo.c:97-198 | success exactly when the stream is non-empty, count and members are non-zero, the mode is 0..2, count * members is a positive `int`, the tags, the extra byte and every value byte fit, and in float mode the exponent byte is at most 30; an exponent of 31 overflows `1 << 31` and is a signed-overflow hazard; the output has count * members entries of the mode's type |
| `Codec.DecodeScalars` | geo.c:109-140 | once count * members is formed: success exactly when it is positive, everything fits, and in float mode the exponent is at most 30, with 31 a signed-overflow hazard; one output per scalar |
| `Codec.DeltaPrefix` | geo.c:144-178 | the first k contributions, entry j being scalar j's tag and value bytes read at its own start |
| `Codec.Deltas` | geo.c:144-178 | one contribution per scalar, each read from that scalar's own value bytes |
| `Codec.ColumnLoop` | geo.c:180-189 | the column loop emits one output per remaining contribution |
| `Codec.ValueLoopStep` | geo.c:144-189 | one turn of the value loop adds scalar x's contribution to its column and moves on to scalar x + 1's bytes |
| `Codec.ValueLoopIsColumnLoop` | geo.c:143-191 | the byte-reading loop equals the column loop over the listed contributions |
| `Codec.ColumnLoopFolds` | geo.c:180-189 | every output is its column's fold of the contributions up to and including itself |
| `Codec.DecodeFolds` | geo.c:134-189 | from all-zero accumulators, output i is the fold of column i % m up to scalar i |
| `Codec.WrapFoldIsExactSum` | geo.c:186 | folding wrapped contributions with wrapping addition wraps the exact column sum |
| `Codec.IntDeltasWrapExact` | geo.c:148-174 | every int-mode contribution is the wrap of its exact value |
| `Codec.IntLoopSums` | geo.c:180-188 | the int accumulators are the wrapped exact running column sums |
| `Codec.IntDecodeIsRunningSum` | geo.c:144-188 | int32 mode: output i is the running sum, wrapped to `int`, of column i % members, with deltas 1 for tag 0 and value + 1 otherwise (byte - 0x7E, u16 - 0x7FFE, i32 + 1) |
| `Codec.ShortDecodeIsTruncatedSum` | geo.c:186-187 | int16 mode stores the low 16 bits of the same running sums, and the accumulator is not truncated between steps |
| `Codec.FloatScalarsFold` | geo.c:131-184 | float mode: the exponent byte follows the tags and is at most 30, and each output folds float addition over its column |
| `Codec.FloatDecodeIsColumnFold` | geo.c:144-184 | float mode of refDecode: output i folds float addition over column i % members from 0.0; tag 0 adds 0.0 and tag 3 adds the raw pattern |
| `Codec.ValueBytesInBounds` | geo.c:127-128 | every value byte lies after the tags and the extra byte and before the end of the stream |
| `Codec.RepeatTagsLoop` | geo.c:144-189 | three all-zero tags in one column make the value loop count 1, 2, 3 |
| `Codec.RepeatTagsCount` | geo.c:148-151 | refDecode with all-zero tags, count 3, members 1, mode 1 gives [1, 2, 3] |
| `Codec.PackTags` | geo.c:115-120 | an encoder's tag bytes take ceil(n/4) bytes |
| `Codec.GroupTag` | geo.c:118-120 | bit pair r of a packed byte is the r-th tag packed into it |
| `Codec.PackTagsRoundTrip` | geo.c:115-120 | reading tags back from packed bytes gives the tags packed, two bits each, least significant pair first |
| `Graph.Indexes` | geo.c:295-312 | a face list lays out as three vertex indexes per face |
| `Graph.Positions` | geo.c:316-320 | vertex positions lay out as three coordinates per vertex |
| `Graph.Normals` | geo.c:324-328 | vertex normals lay out as three components per vertex |
| `Graph.TexCoords` | geo.c:332-335 | texture coordinates lay out as two per vertex |
| `Graph.FaceTextures` | geo.c:584-609 | one texture per face in (model, face) order |
| `ModelBlock.LayoutOf` | geo.c:208-244 | version >= 8: counts at +16, name at +64, streams from +108; versions 3 to 7: name at +60, streams from +104; before version 3 (geo.c:357-382): counts at +28, name at +80, streams from +132 |
| `ModelBlock.Field` | geo.c:217-218 | a block field is read only when its offset is an `int` and its four bytes lie in the stream; otherwise it is a hazard |
| `ModelBlock.LoadStream` | geo.c:242-249 | a stream triple's decode has count * members entries of the mode's type, and a positive count |
| `ModelBlock.FirstHazard` | geo.c:283-292 | a hazard is found exactly when one of the streams met one, and it is one of theirs |
| `ModelBlock.GetModel` | geo.c:201-340 | a loaded model: version >= 3 read the size word; name offset in 0..namelen; vertex and face counts as stored and both positive; every face in range; the four streams decode to exactly the faces' indexes, positions, normals and texture coordinates |
| `ModelBlock.Assemble` | geo.c:294-336 | success exactly when every face index is in 0..vertexnum, otherwise a bad-vertex-index failure; the faces and vertices give back the four streams |
| `ModelBlock.FacesOf` | geo.c:295-312 | one face per index triple, each in range when every index is |
| `ModelBlock.FacesOfIndexes` | geo.c:295-312 | the faces give back the index stream they were built from |
| `ModelBlock.VerticesOf` | geo.c:316-335 | one vertex per coordinate triple |
| `ModelBlock.VerticesOfStreams` | geo.c:316-335 | the vertices give back the position, normal and texture-coordinate streams |
| `ModelBlock.FaceAt` | geo.c:299-310 | face k is index-stream entries 3k, 3k+1, 3k+2 |
| `ModelBlock.VertexAt` | geo.c:316-335 | vertex i is coordinates and normals 3i..3i+2 and texture coordinates 2i, 2i+1 |
| `Textures.Step` | geo.c:587-606 | within a run the texture stays; once fewer than four table bytes remain the face gets 0, unchecked, and the table is never read again; a pair read names an existing texture or the load fails |
| `Textures.AssignFaces` | geo.c:585-608 | one texture per face, each one the loader can hand out |
| `Textures.AssignModels` | geo.c:584-609 | only the faces' textures change, and every texture is one the loader can hand out |
| `Textures.AvailReach` | geo.c:588 | a pair is reachable exactly when it starts at most size - 4 bytes into the table |
| `Textures.Retexture` | geo.c:605 | retexturing a model sets face k's texture to the k-th given texture and keeps its id, vertices and every face's indexes |
| `Textures.ExpandListed` | geo.c:584-609 | the reference expansion of the (texture, run) table: every face gets a texture some pair names, or 0 past the table |
| `Textures.ReadsValidMono` | geo.c:593-600 | if the pairs read for n faces all name existing textures, so do those read for fewer faces |
| `Textures.StepReadsValid` | geo.c:587-606 | one step succeeds exactly when the pair it reads, if any, names an existing texture, and the validity of what is read after shifts by one face |
| `Textures.StepFollowsExpand` | geo.c:587-606 | one face takes the reference texture and the reference shifts by one face, the run counter staying in range |
| `Textures.AssignReadsValid` | geo.c:585-608 | a walk over n faces succeeds exactly when every pair it reads for them names an existing texture |
| `Textures.AssignFollowsExpand` | geo.c:585-608 | a walk over n faces that succeeds hands out exactly the reference expansion and shifts it by n faces |
| `Textures.RetexturedTextures` | geo.c:605 | retexturing a model puts exactly the given textures first in (model, face) order |
| `Textures.AssignModelsFollowsExpand` | geo.c:584-609 | over whole models: success exactly when every pair read names an existing texture, and then the faces' textures are the reference expansion from the cursor on |
| `Textures.PassIsExpansion` | geo.c:580-609 | the pass succeeds exactly when every pair the expansion reads for the faces names an existing texture, and then face j, in (model, face) order, gets the j-th texture of the expanded table |
| `Textures.ShortTableGivesZero` | geo.c:588-591 | with fewer than four table bytes every face gets texture 0 and the pass succeeds, even with no textures |
| `Textures.ZeroRunCoversAll` | geo.c:593-606 | a first pair with a run of 0 naming an existing texture gives it to every face, whatever the later pairs hold |
| `Meta.TextureLoop` | geo.c:526-540 | one name per table entry, each inside the texture-name block |
| `Meta.TextureLoopAccepts` | geo.c:528-540 | every table whose entries are readable and point into the name block is accepted |
| `Meta.TextureLoopEntries` | geo.c:531-539 | name i is where the 16-bit entry at 4i points |
| `Meta.TextureTable` | geo.c:528-540 | an accepted table has every entry readable and inside the name block, and name i is the block start plus the 16-bit entry at 4i |
| `Meta.Stride` | geo.c:555-560 | the stride is 0xD8 before version 3 and the block's first word after, refreshed only when four bytes remain, else stale |
| `Meta.GetModelSound` | geo.c:555-576 | the block parser only accepts blocks the loop could read a stride from, and only returns usable models |
| `Meta.BlockReadable` | geo.c:208-218 | a block that loads starts at least four bytes before the end of the stream |
| `Meta.ParseModels` | geo.c:550-578 | one model per block in order, the first from the block at the start; the stride read before ever being assigned is a hazard |
| `Meta.ParsedUsable` | geo.c:550-578 | every model the loop returns is usable |
| `Meta.NameTables` | geo.c:494-547 | fails on a header under 16 bytes, PoolSize > pool length, TexNamesSize < 4, ModNamesSize == 0, or TexEnumsSize == 0; a success passed all header checks, read the texture count after the header (and the level-of-detail word of versions 2 to 6), accepted the texture table over the name block, and places the names, enums and graph header after the three blocks |
| `Meta.TextureNamesInBlock` | geo.c:520-540 | every texture name is the name block's start plus the 16-bit entry read for it, inside the block |
| `Meta.GetModels` | geo.c:483-613 | every header or table failure is the load's failure; a returned graph has the id, texture count and names the header and table give, carries the stream and is well formed; a zero model count ends the load with no models |
| `Meta.ModelArea` | geo.c:542-612 | the graph id and texture table are kept; the model count is the word 0x88 bytes into the graph header; a zero count returns the graph with no models; the result is well formed |
| `Meta.ModelList` | geo.c:549-609 | one model per counted block, each usable, every face naming an existing texture |
| `Meta.RetexturedWellFormed` | geo.c:580-609 | the texture pass keeps every model usable |
| `Meta.BlockOverrun` | geo.c:561-565 | a block that does not fit by its stride ends the load with an end-of-data failure |
| `Meta.ModelStep` | geo.c:552-578 | a loaded block fits by its stride and the loop goes on one stride further |
| `Meta.LegacyStep` | geo.c:556-577 | before version 3 one turn of the loop moves 0xD8 bytes on |
| `Meta.LegacyNext` | geo.c:556-577 | before version 3, if the loop x - 1 blocks on produces the remaining models, the loop x blocks on produces the rest after one more |
| `Meta.LegacySuffix` | geo.c:550-578 | before version 3 the loop x blocks on starts at at + 0xD8 * x and produces the remaining models |
| `Meta.LegacyBlockAt` | geo.c:556-577 | before version 3 model x is the block at at + 0xD8 * x, which fits in the stream |
| `Load.GeoLoad` | geo.c:622-656 | under 16 bytes is rejected; an envelope failure fails the load with its error; a returned graph stands on an opened envelope, carries its metadata stream, and is well formed |
| `Load.LoadLegacyFile` | geo.c:622-656 | loading a legacy container is getModels on its inflated stream at version 0, with exactly the container's pool, from packed length + 12 to the end |
| `Load.LoadModernFile` | geo.c:622-656 | loading a modern container is getModels on its inflated stream at its version, with exactly the container's pool, from packed length + 16 (+ 4 for version 0) to the end |

## Left out

- zlib `uncompress` (RFC 1950/1951) is a foreign library. It is the `Inflater` parameter.
- Stream.GetZlib: assumes a target where `unsigned long` is 32 bits, so the prototype at geo.c:7 matches zlib's `uLongf *destLen, uLong sourceLen`. The inflater then receives exactly `unpacked` as the output capacity.
  - On 64-bit Linux, which the program also builds for, `unsigned long` is 8 bytes.
  - There zlib reads the capacity as 8 bytes through `&err2`, the 4-byte `int` of geo.c:35, so the upper half is whatever lies next to it on the stack.
  - zlib also writes 8 bytes back through that pointer, which is an out-of-bounds write on every inflated stream.
  - An over-long stream is then no longer reliably refused by the size test at geo.c:51.
  - None of this is reported as a hazard.
- Bytes.I32: a top byte of 0x80 or more is read as the two's-complement value compilers produce. C leaves the shift of geo.c:20 undefined there, because it moves a bit into the sign bit of a positive `int`. Flagging it as a hazard would make every negative field a hazard.
- IEEE-754 float arithmetic (scaling by `2^e`, addition) is the `FloatOps` parameter. Float mode is modelled for its structure only: the exponent check, byte consumption, and column folding.
- Logging under `GEO_VERBOSE` is not modelled, and neither is the unconditional `printf` of the version at geo.c:639.
- Allocation failure of `malloc`/`calloc` for a non-negative size is not modelled. A negative element count in refDecode is modelled as an allocation failure.
- `geoFree` (geo.c:659-687) is not modelled: a failed load returns no graph, and the partial one is simply dropped.
- The NULL-buffer tests of `geoLoad` and `refDecode` have no counterpart, because a sequence is never NULL.
- Forming a pointer outside a buffer (`&pool[pooloff]`, `&names[x]`) is not flagged. Only the reads through such a pointer are.
- An offset that overflows is reported where the C code computes it, even when the value would never be read.
- The texture-name pointers, model names and graph id are kept as positions in the metadata stream, not as C strings.
- Faces carry texture 0 between model assembly and the texture pass. The pass gives every face its texture before a graph is returned.
- Codec.RefDecode: requires `members >= 0`. The callers only pass 2 and 3; a negative `members` would make C compute with a negative column count.
- Codec.ValueLoop: its own contract states only the output length. What the outputs are is stated by `ValueLoopIsColumnLoop`, `IntDecodeIsRunningSum`, `ShortDecodeIsTruncatedSum` and `FloatDecodeIsColumnFold`.
- Meta.ParseModels: the end-of-data failure and the usability of the models are stated in `BlockOverrun` and `ParsedUsable`, not in its own contract.
- Meta.GetModels: its contract covers the header, the texture table and the zero-model case, but does not describe the models themselves. `ModelArea`, `ModelList`, `ParseModels`, `GetModel` and the `Textures` lemmas state them.
- Textures.PassIsExpansion: stated for at most 2^31 faces. The run counter keeps decrementing after a run of 0, and past that many faces the decrement is a signed overflow, which the model reports.
- Textures.AssignModelsFollowsExpand: has the same face-count bound as `PassIsExpansion`.
- Textures.ShortTableGivesZero: has the same face-count bound as `PassIsExpansion`.
- Textures.ZeroRunCoversAll: has the same face-count bound as `PassIsExpansion`.
- Textures.PassIsExpansion: stated only for tables whose every reachable pair, all `Avail(size)` of them, lies inside the metadata stream (`Table`). The walk may stop reading earlier, at a run of 0 or after the last face. For versions 2 to 6 the header check at geo.c:507-508 leaves the level-of-detail word out, so a table can end up to 4 bytes past the stream while the loader never reads there. Such tables are excluded; a pair actually read past the stream is a hazard that `Step` reports. These lemmas also require `IsInt32(size - 4)`, which excludes a TexEnumsSize within 4 of INT_MIN. The header checks let such a value through, and `Step` reports the overflow of `blocksize - 4` at geo.c:588 as a hazard. The same holds for `AssignModelsFollowsExpand`, `AssignFollowsExpand`, `AssignReadsValid`, `StepFollowsExpand`, `StepReadsValid` and `ZeroRunCoversAll`.
- Codec.IntDelta: the `bits++` of a tag-3 value equal to INT_MAX, and the accumulator additions at geo.c:186, are signed overflow in C. They are modelled as 32-bit wrap-around, which is what the loader's accumulators evidently rely on.
