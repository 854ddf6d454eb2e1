/** getModels (geo.c:483-613): the metadata stream's header, its texture-name
    table, the model blocks and the texture-usage pass. */
module Meta {
  import opened Bytes
  import opened Stream
  import opened Codec
  import opened Graph
  import opened ModelBlock
  import opened Textures

  /** Table entry i is readable and points into the name block. */
  predicate EntryOk(meta: seq<byte>, at: int, i: int, blocksize: int) {
    0 <= at + 4 * i && at + 4 * i + 2 <= |meta| && U16(meta, at + 4 * i) < blocksize
  }

  /** The texture-name table: `count` 16-bit offsets, one every 4 bytes from
      `at`, each into the name block at `base` of `blocksize` bytes. Returns
      the name positions and the last offset read (`last` if none is read,
      since the C variable keeps its previous value). */
  function TextureLoop(meta: seq<byte>, at: int, count: int, blocksize: int, base: int, last: Option<int>)
    : (r: Result<(seq<int>, Option<int>)>)
    decreases count
    ensures r.Ok? ==> |r.value.0| == (if count < 0 then 0 else count)
    // every name lies in the name block
    ensures r.Ok? ==> forall i :: 0 <= i < |r.value.0| ==> base <= r.value.0[i] < base + blocksize
    // the offset left behind is the last one read, or the previous one if none was
    ensures r.Ok? && count <= 0 ==> r.value.1 == last
    ensures r.Ok? && count > 0 ==> r.value.1.Some? && 0 <= r.value.1.value < blocksize
                                   && r.value.0[count - 1] == base + r.value.1.value
  {
    if count <= 0 then Ok(([], last))
    else
      var y :- ReadU16(meta, at);
      var next :- Checked(at + 4);
      if y >= blocksize then Err(BadTextureOffset)
      else
        var rest :- TextureLoop(meta, next, count - 1, blocksize, base, Some(y));
        Ok(([base + y] + rest.0, rest.1))
  }

  /** Every table whose entries are readable and point into the name block is
      accepted. */
  lemma {:induction false} TextureLoopAccepts(meta: seq<byte>, at: int, count: int, blocksize: int, base: int,
                                              last: Option<int>)
    requires forall i :: 0 <= i < count ==> EntryOk(meta, at, i, blocksize)
    requires IsInt32(at + 4 * count)
    ensures TextureLoop(meta, at, count, blocksize, base, last).Ok?
    decreases count
  {
    if count > 0 {
      assert EntryOk(meta, at, 0, blocksize);
      var next := at + 4;
      forall i | 0 <= i < count - 1
        ensures EntryOk(meta, next, i, blocksize)
      {
        assert EntryOk(meta, at, i + 1, blocksize);
      }
      TextureLoopAccepts(meta, next, count - 1, blocksize, base, Some(U16(meta, at)));
    }
  }

  /** Name i is where table entry i, at `at + 4 * i`, points. */
  lemma {:induction false} TextureLoopEntries(meta: seq<byte>, at: int, count: int, blocksize: int, base: int,
                                              last: Option<int>, i: nat)
    requires TextureLoop(meta, at, count, blocksize, base, last).Ok? && i < count
    ensures 0 <= at + 4 * i && at + 4 * i + 2 <= |meta|
    ensures TextureLoop(meta, at, count, blocksize, base, last).value.0[i] == base + U16(meta, at + 4 * i)
    decreases i
  {
    if i > 0 {
      TextureLoopEntries(meta, at + 4, count - 1, blocksize, base, Some(U16(meta, at)), i - 1);
    }
  }

  /** A table the loop accepts has every entry readable and inside the name
      block, and each name is where its entry points: with TextureLoopAccepts,
      the loop succeeds exactly on such tables. */
  lemma TextureTable(meta: seq<byte>, at: int, count: int, blocksize: int, base: int, last: Option<int>)
    requires TextureLoop(meta, at, count, blocksize, base, last).Ok?
    ensures var names := TextureLoop(meta, at, count, blocksize, base, last).value.0;
            forall i :: 0 <= i < |names| ==>
              EntryOk(meta, at, i, blocksize) && names[i] == base + U16(meta, at + 4 * i)
  {
    var names := TextureLoop(meta, at, count, blocksize, base, last).value.0;
    forall i | 0 <= i < |names|
      ensures EntryOk(meta, at, i, blocksize) && names[i] == base + U16(meta, at + 4 * i)
    {
      TextureLoopEntries(meta, at, count, blocksize, base, last, i);
    }
  }

  /** The stride of the block at `at`: 0xD8 before version 3, else the block's
      own first word. It is only refreshed when four bytes remain at `at`;
      otherwise the variable keeps whatever it last held (None: never assigned). */
  function Stride(meta: seq<byte>, at: int, version: int, stale: Option<int>): (r: Result<Option<int>>)
    ensures at <= |meta| - 4 && version < 3 ==> r == Ok(Some(0xD8))
    ensures 0 <= at <= |meta| - 4 && version >= 3 ==> r == Ok(Some(I32(meta, at)))
    ensures at > |meta| - 4 ==> r == Ok(stale)
  {
    if at <= |meta| - 4 then
      if version < 3 then Ok(Some(0xD8))
      else
        var y :- ReadI32(meta, at);
        Ok(Some(y))
    else Ok(stale)
  }

  /** The distance to the next block: fixed before version 3, else the block's first word. */
  function BlockStride(meta: seq<byte>, at: int, version: int): int
    requires at <= |meta| - 4 && (version >= 3 ==> 0 <= at)
  {
    if version < 3 then 0xD8 else I32(meta, at)
  }

  /** The block parser for the file's version: a block's position to the model
      it holds. The model loop is stated over any parser; GetModels passes
      GetModel, which only accepts blocks the loop could have read a stride
      from and only returns usable models. */
  type BlockParser = int -> Result<Model>

  /** The parser only accepts blocks with four bytes (the stride word) to read. */
  ghost predicate BlocksReadable(meta: seq<byte>, version: int, parse: BlockParser) {
    forall a :: parse(a).Ok? ==> a <= |meta| - 4 && (version >= 3 ==> 0 <= a)
  }

  /** The parser only returns usable models. */
  ghost predicate ModelsUsable(parse: BlockParser) {
    forall a :: parse(a).Ok? ==> Usable(parse(a).value)
  }

  /** GetModel is such a parser. */
  lemma GetModelSound(meta: seq<byte>, names: int, namelen: int, file: seq<byte>, poolAt: int,
                      version: int, inflate: Inflater, ops: FloatOps, parse: BlockParser)
    requires forall a :: parse(a) == GetModel(meta, a, names, namelen, file, poolAt, version, inflate, ops)
    ensures BlocksReadable(meta, version, parse) && ModelsUsable(parse)
  {
    forall a | parse(a).Ok?
      ensures a <= |meta| - 4 && (version >= 3 ==> 0 <= a)
    {
      BlockReadable(meta, a, names, namelen, file, poolAt, version, inflate, ops);
    }
  }

  /** A block that loads lies far enough inside the stream for the loop to
      have read its stride. */
  lemma BlockReadable(meta: seq<byte>, at: int, names: int, namelen: int, file: seq<byte>, poolAt: int,
                      version: int, inflate: Inflater, ops: FloatOps)
    requires GetModel(meta, at, names, namelen, file, poolAt, version, inflate, ops).Ok?
    ensures at <= |meta| - 4 && (version >= 3 ==> 0 <= at)
  {
    assert Field(meta, at, LayoutOf(version).countsAt).Ok?;
  }

  /** The model loop from the block at `at`, `count` blocks to go, with the
      stride variable holding `stride` on entry. */
  function ParseModels(meta: seq<byte>, at: int, count: int, stride: Option<int>, version: int,
                       parse: BlockParser): (r: Result<seq<Model>>)
    decreases count
    ensures r.Ok? ==> |r.value| == (if count < 0 then 0 else count)
    // the first model is the block at `at`
    ensures r.Ok? && count > 0 ==> parse(at) == Ok(r.value[0])
    // the stride is read before it was ever assigned
    ensures count > 0 && at > |meta| - 4 && stride.None? ==> r == Err(Unchecked(Uninitialised))
  {
    if count <= 0 then Ok([])
    else
      var y :- Stride(meta, at, version, stride);
      match y
      case None => Err(Unchecked(Uninitialised))
      case Some(s) =>
        var room :- Checked(|meta| - s);
        if at > room then Err(EndOfData)
        else
          var m :- parse(at);
          var next :- Checked(at + s);
          var rest :- ParseModels(meta, next, count - 1, Some(s), version, parse);
          assert ([m] + rest)[1..] == rest;
          Ok([m] + rest)
  }

  /** Every model the loop returns came from the parser, so it is usable when
      the parser's models are. */
  lemma {:induction false} ParsedUsable(meta: seq<byte>, at: int, count: int, stride: Option<int>, version: int,
                                        parse: BlockParser)
    requires ModelsUsable(parse)
    requires ParseModels(meta, at, count, stride, version, parse).Ok?
    ensures var r := ParseModels(meta, at, count, stride, version, parse);
      forall x :: 0 <= x < |r.value| ==> Usable(r.value[x])
    decreases count
  {
    if count > 0 {
      var r := ParseModels(meta, at, count, stride, version, parse);
      var s := Stride(meta, at, version, stride).value.value;
      var rest := ParseModels(meta, at + s, count - 1, Some(s), version, parse);
      assert rest == Ok(r.value[1..]);
      ParsedUsable(meta, at + s, count - 1, Some(s), version, parse);
      forall x | 0 <= x < |r.value|
        ensures Usable(r.value[x])
      {
        if x > 0 {
          assert r.value[x] == rest.value[x - 1];
        }
      }
    }
  }

  /** What the part of getModels ahead of the graph header yields: the graph
      header's position, the model-name block and its size, the
      texture-usage entries, the texture count, the name positions, and the
      last offset the texture-name table left in the stride variable. */
  datatype Tables = Tables(id: int, names: int, namelen: int, enums: int, texturenum: int,
                           textures: seq<int>, stride: Option<int>)

  /** 4 for the versions 2 to 6, which carry a level-of-detail size after the header. */
  function Fix(version: int): int
  {
    if 2 <= version <= 6 then 4 else 0
  }

  /** The name block's size: what the TexNamesSize bytes leave after the
      table of `texturenum` four-byte entries and four more bytes. */
  function NameBlockSize(texNames: int, texturenum: int): int {
    texNames - 4 * texturenum - 4
  }

  /** The metadata header and the texture-name table (geo.c:494-547), on the
      stream `meta` with `poolLen` bytes of pool in the file. */
  function NameTables(meta: seq<byte>, poolLen: int, version: int): (r: Result<Tables>)
    requires |meta| <= Int32Max
    ensures |meta| < 16 ==> r == Err(BadHeader)
    // the header's own checks, in the order the C code makes them
    ensures (16 <= |meta| && (I32(meta, 0) > poolLen || I32(meta, 4) < 4 || I32(meta, 8) == 0
                              || I32(meta, 12) == 0)) ==> r == Err(BadHeader)
    ensures r.Ok? ==> 16 <= |meta| && I32(meta, 0) <= poolLen && 4 <= I32(meta, 4)
                      && I32(meta, 8) != 0 && I32(meta, 12) != 0
                      && I32(meta, 4) + I32(meta, 8) + I32(meta, 12) + 16 <= |meta|
    // the texture count follows the header (and the level-of-detail word);
    // the three blocks follow it, and the graph header follows them
    ensures r.Ok? ==> var fix := Fix(version);
                      ReadI32(meta, 16 + fix) == Ok(r.value.texturenum)
                      && |r.value.textures| == (if r.value.texturenum < 0 then 0 else r.value.texturenum)
                      && r.value.names == 16 + fix + I32(meta, 4)
                      && r.value.namelen == I32(meta, 8) && r.value.enums == I32(meta, 12)
                      && r.value.id == 16 + fix + I32(meta, 4) + I32(meta, 8) + I32(meta, 12)
                                       + (if fix == 4 then I32(meta, 16) else 0)
    // the texture names are what the table at 20 + fix yields for the name
    // block of NameBlockSize bytes that ends where the model names start
    // (TextureTable: name i is where entry i points, inside that block)
    ensures r.Ok? ==> var size := NameBlockSize(I32(meta, 4), r.value.texturenum);
                      TextureLoop(meta, 20 + Fix(version), r.value.texturenum, size,
                                  16 + Fix(version) + I32(meta, 4) - size, None)
                      == Ok((r.value.textures, r.value.stride))
  {
    if |meta| < 16 then Err(BadHeader)
    else
      var poolSize, texNames, modNames, texEnums := I32(meta, 0), I32(meta, 4), I32(meta, 8), I32(meta, 12);
      if poolSize > poolLen || texNames < 4 || modNames == 0 || texEnums == 0 then Err(BadHeader)
      else
        var s1 :- Checked(texNames + modNames);
        var s2 :- Checked(s1 + texEnums);
        var s3 :- Checked(s2 + 16);
        if s3 > |meta| then Err(BadHeader)
        else
          var fix := Fix(version);
          var lodSize :- if fix == 4 then ReadI32(meta, 16) else Ok(0);
          var texturenum :- ReadI32(meta, 16 + fix);
          // the texture-name block follows the offset table
          var t1 :- Checked(texturenum * 4);
          var t2 :- Checked(texNames - t1);
          var blocksize :- Checked(t2 - 4);
          var modelNames :- Checked(16 + fix + texNames);
          var textureNames :- Checked(modelNames - blocksize);
          assert blocksize == NameBlockSize(texNames, texturenum);
          var textures :- TextureLoop(meta, 20 + fix, texturenum, blocksize, textureNames, None);
          // the graph header follows the three blocks; the size check above
          // left out the level-of-detail size and `fix`
          var i1 :- Checked(s2 + lodSize);
          var i2 :- Checked(i1 + fix);
          var id :- Checked(i2 + 16);
          Ok(Tables(id, modelNames, modNames, texEnums, texturenum, textures.0, textures.1))
  }

  /** getModels on the metadata stream `meta`, with the pool at `poolAt` in
      `file` and `poolLen` bytes left after it. */
  function GetModels(meta: seq<byte>, file: seq<byte>, poolAt: int, poolLen: int, version: int,
                     inflate: Inflater, ops: FloatOps): (r: Result<Geo>)
    requires |meta| <= Int32Max
    // every failure ahead of the graph header is the header's or the table's
    ensures NameTables(meta, poolLen, version).Err? ==> r == Err(NameTables(meta, poolLen, version).error)
    // a returned graph has the position and the texture names the header and
    // the table give, the metadata stream, and the structure every graph has
    ensures r.Ok? ==> NameTables(meta, poolLen, version).Ok?
                      && r.value.id == NameTables(meta, poolLen, version).value.id
                      && r.value.texturenum == NameTables(meta, poolLen, version).value.texturenum
                      && r.value.textures == NameTables(meta, poolLen, version).value.textures
                      && r.value.meta == meta && WellFormed(r.value)
    // a graph header with a zero model count ends the load with no models
    ensures NameTables(meta, poolLen, version).Ok? ==>
              var t := NameTables(meta, poolLen, version).value;
              0 <= t.id + 0x88 && t.id + 0x8C <= |meta| && I32(meta, t.id + 0x88) == 0
              ==> r == Ok(Geo(t.id, t.texturenum, t.textures, 0, [], meta))
  {
    match NameTables(meta, poolLen, version)
    case Err(e) => Err(e)
    case Ok(t) =>
      ModelArea(meta, file, poolAt, version, inflate, ops, t.id, t.names, t.namelen, t.enums,
                t.texturenum, t.textures, t.stride)
  }

  /** The texture names a graph gets (GetModels passes them on unchanged):
      name i is where the table entry at 20 + fix + 4i points, and lies
      inside the name block that ends where the model names start. */
  lemma TextureNamesInBlock(meta: seq<byte>, poolLen: int, version: int)
    requires |meta| <= Int32Max
    requires NameTables(meta, poolLen, version).Ok?
    ensures var g := NameTables(meta, poolLen, version).value;
            var size := NameBlockSize(I32(meta, 4), g.texturenum);
            forall i :: 0 <= i < |g.textures| ==>
              EntryOk(meta, 20 + Fix(version), i, size)
              && g.textures[i] == 16 + Fix(version) + I32(meta, 4) - size + U16(meta, 20 + Fix(version) + 4 * i)
  {
    var t := NameTables(meta, poolLen, version).value;
    var size := NameBlockSize(I32(meta, 4), t.texturenum);
    TextureTable(meta, 20 + Fix(version), t.texturenum, size, 16 + Fix(version) + I32(meta, 4) - size, None);
  }

  /** The graph header at `id` and what follows it: the model count, the model
      blocks (the stride variable still holding `stride` from the texture-name
      table) and the texture-usage pass over the entries at names + namelen. */
  function ModelArea(meta: seq<byte>, file: seq<byte>, poolAt: int, version: int, inflate: Inflater,
                     ops: FloatOps, id: int, names: int, namelen: int, enums: int, texturenum: int,
                     textures: seq<int>, stride: Option<int>): (r: Result<Geo>)
    ensures r.Ok? ==> r.value.id == id && r.value.texturenum == texturenum && r.value.textures == textures
                      && r.value.meta == meta
    // the model count sits 0x88 bytes into the graph header
    ensures r.Ok? ==> 0 <= id + 0x88 && id + 0x8C <= |meta| && r.value.modelnum == I32(meta, id + 0x88)
    ensures r.Ok? && |textures| == (if texturenum < 0 then 0 else texturenum) ==> WellFormed(r.value)
    // a zero model count, read inside the stream, yields no models
    ensures IsInt32(id + 0x8C) && 0 <= id + 0x88 && id + 0x8C <= |meta| && I32(meta, id + 0x88) == 0
            ==> r == Ok(Geo(id, texturenum, textures, 0, [], meta))
  {
    var p1 :- Checked(id + 0x84);
    var p2 :- Checked(p1 + 4);
    var modelnum :- ReadI32(meta, p2);
    var first :- Checked(p2 + 4);
    if modelnum == 0 then Ok(Geo(id, texturenum, textures, 0, [], meta))
    else
      var models :- ModelList(meta, file, poolAt, version, inflate, ops, first, modelnum, names, namelen,
                              enums, texturenum, stride);
      Ok(Geo(id, texturenum, textures, modelnum, models, meta))
  }

  /** The `modelnum` model blocks from `first` on, and the texture-usage pass
      over them with the entries at names + namelen. */
  function ModelList(meta: seq<byte>, file: seq<byte>, poolAt: int, version: int, inflate: Inflater,
                     ops: FloatOps, first: int, modelnum: int, names: int, namelen: int, enums: int,
                     texturenum: int, stride: Option<int>): (r: Result<seq<Model>>)
    ensures r.Ok? ==> |r.value| == (if modelnum < 0 then 0 else modelnum)
    // every model can be used as it is, and every face names a texture
    ensures r.Ok? ==> (forall x :: 0 <= x < |r.value| ==> Usable(r.value[x]))
                      && forall j :: 0 <= j < |FaceTextures(r.value)| ==>
                                       TextureOk(FaceTextures(r.value)[j], texturenum)
  {
    var parse: BlockParser := a => GetModel(meta, a, names, namelen, file, poolAt, version, inflate, ops);
    GetModelSound(meta, names, namelen, file, poolAt, version, inflate, ops, parse);
    var models :- ParseModels(meta, first, modelnum, stride, version, parse);
    ParsedUsable(meta, first, modelnum, stride, version, parse);
    var enumBase :- Checked(names + namelen);
    var textured :- AssignModels(meta, enumBase, enums, texturenum, Start, models);
    RetexturedWellFormed(models, textured, texturenum);
    Ok(textured)
  }

  /** The texture pass keeps every model's shape. */
  lemma RetexturedWellFormed(models: seq<Model>, textured: seq<Model>, texturenum: int)
    requires |textured| == |models|
    requires forall x :: 0 <= x < |models| ==> Usable(models[x])
    requires forall x :: 0 <= x < |models| ==>
      textured[x].vertices == models[x].vertices && |textured[x].faces| == |models[x].faces|
      && forall k :: 0 <= k < |models[x].faces| ==>
           textured[x].faces[k] == models[x].faces[k].(texture := textured[x].faces[k].texture)
    ensures forall x :: 0 <= x < |textured| ==> Usable(textured[x])
  {
    forall x | 0 <= x < |textured|
      ensures Usable(textured[x])
    {
      assert Usable(models[x]);
      forall k | 0 <= k < |textured[x].faces|
        ensures textured[x].faces[k].v1 == models[x].faces[k].v1
             && textured[x].faces[k].v2 == models[x].faces[k].v2
             && textured[x].faces[k].v3 == models[x].faces[k].v3
      {
      }
    }
  }

  /** A block that does not fit before the end of the stream by its stride
      ends the load. */
  lemma BlockOverrun(meta: seq<byte>, at: int, count: int, stride: Option<int>, version: int,
                     parse: BlockParser)
    requires |meta| <= Int32Max && BlocksReadable(meta, version, parse) && count > 0
    requires at <= |meta| - 4 && (version >= 3 ==> 0 <= at)
    requires IsInt32(|meta| - BlockStride(meta, at, version))
    requires at > |meta| - BlockStride(meta, at, version)
    ensures ParseModels(meta, at, count, stride, version, parse) == Err(EndOfData)
  {
    assert Stride(meta, at, version, stride) == Ok(Some(BlockStride(meta, at, version)));
  }

  /** One turn of the model loop: the block at `at` fits before the end of the
      stream by its stride, becomes the first model, and the loop goes on one
      stride further. */
  lemma ModelStep(meta: seq<byte>, at: int, count: int, stride: Option<int>, version: int,
                  parse: BlockParser)
    requires |meta| <= Int32Max && BlocksReadable(meta, version, parse) && count > 0
    requires ParseModels(meta, at, count, stride, version, parse).Ok?
    ensures at <= |meta| - 4 && (version >= 3 ==> 0 <= at)
    ensures var r := ParseModels(meta, at, count, stride, version, parse);
      var s := BlockStride(meta, at, version);
      at <= |meta| - s
      && ParseModels(meta, at + s, count - 1, Some(s), version, parse) == Ok(r.value[1..])
  {
    var r := ParseModels(meta, at, count, stride, version, parse);
    assert parse(at).Ok?;
    var s := BlockStride(meta, at, version);
    assert Stride(meta, at, version, stride) == Ok(Some(s));
  }

  /** Before version 3 one turn of the loop moves 0xD8 bytes on. */
  lemma LegacyStep(meta: seq<byte>, at: int, count: int, stride: Option<int>, version: int,
                   parse: BlockParser, models: seq<Model>, next: int, left: int)
    requires |meta| <= Int32Max && BlocksReadable(meta, version, parse) && version < 3 && count > 0
    requires ParseModels(meta, at, count, stride, version, parse) == Ok(models)
    requires next == at + 0xD8 && left == count - 1
    ensures |models| == count && at <= |meta| - 0xD8 && parse(at) == Ok(models[0])
    ensures ParseModels(meta, next, left, Some(0xD8), version, parse) == Ok(models[1..])
  {
    ModelStep(meta, at, count, stride, version, parse);
    assert BlockStride(meta, at, version) == 0xD8;
  }

  /** Before version 3 the loop, x blocks on, is the loop from the block at
      at + 0xD8 * x, and it produces the remaining models. */
  lemma {:induction false} LegacySuffix(meta: seq<byte>, at: int, count: int, stride: Option<int>, version: int,
                                        parse: BlockParser, models: seq<Model>, x: nat)
    requires |meta| <= Int32Max && BlocksReadable(meta, version, parse) && version < 3
    requires ParseModels(meta, at, count, stride, version, parse) == Ok(models) && 0 < x <= |models|
    ensures ParseModels(meta, at + 0xD8 * x, count - x, Some(0xD8), version, parse) == Ok(models[x..])
    decreases x
  {
    if x == 1 {
      LegacyStep(meta, at, count, stride, version, parse, models, at + 0xD8 * x, count - x);
      assert models[1..] == models[x..];
    } else {
      LegacySuffix(meta, at, count, stride, version, parse, models, x - 1);
      LegacyNext(meta, at, count, version, parse, models, x);
    }
  }

  /** One more block: the loop x - 1 blocks on moves to the loop x blocks on. */
  lemma LegacyNext(meta: seq<byte>, at: int, count: int, version: int, parse: BlockParser,
                   models: seq<Model>, x: nat)
    requires |meta| <= Int32Max && BlocksReadable(meta, version, parse) && version < 3
    requires 0 < x <= |models| <= count
    requires ParseModels(meta, at + 0xD8 * (x - 1), count - (x - 1), Some(0xD8), version, parse)
             == Ok(models[x - 1..])
    ensures ParseModels(meta, at + 0xD8 * x, count - x, Some(0xD8), version, parse) == Ok(models[x..])
  {
    var tail := models[x - 1..];
    assert tail[1..] == models[x..];
    LegacyStep(meta, at + 0xD8 * (x - 1), count - (x - 1), Some(0xD8), version, parse, tail,
               at + 0xD8 * x, count - x);
  }

  /** Before version 3 the blocks lie 0xD8 bytes apart: model x of a load is
      the block at at + 0xD8 * x, and that block fits before the end of the
      stream. */
  lemma LegacyBlockAt(meta: seq<byte>, at: int, count: int, stride: Option<int>, version: int,
                      parse: BlockParser, models: seq<Model>, x: nat)
    requires |meta| <= Int32Max && BlocksReadable(meta, version, parse) && version < 3
    requires ParseModels(meta, at, count, stride, version, parse) == Ok(models) && x < |models|
    ensures at + 0xD8 * x <= |meta| - 0xD8 && parse(at + 0xD8 * x) == Ok(models[x])
  {
    if x == 0 {
      LegacyStep(meta, at, count, stride, version, parse, models, at + 0xD8, count - 1);
    } else {
      var b := at + 0xD8 * x;
      var tail := models[x..];
      assert ParseModels(meta, b, count - x, Some(0xD8), version, parse) == Ok(tail) by {
        LegacySuffix(meta, at, count, stride, version, parse, models, x);
      }
      LegacyStep(meta, b, count - x, Some(0xD8), version, parse, tail, b + 0xD8, count - x - 1);
      assert tail[0] == models[x];
    }
  }
}
