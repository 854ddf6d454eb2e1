/** getModel (version 3 on, geo.c:201-340) and getModelv2 (before version 3,
    geo.c:342-480): one model block of the metadata stream, whose four stream
    triples name refDecode streams in the file's pool. */
module ModelBlock {
  import opened Bytes
  import opened Stream
  import opened Codec
  import opened Graph

  /** Where a block keeps its fields, relative to the block's start. */
  datatype Layout = Layout(sizeField: bool, countsAt: int, nameAt: int, streamsAt: int)

  /** The field offsets, following the C code's walk through the block. */
  function LayoutOf(version: int): (l: Layout)
    ensures version < 3 ==> l == Layout(false, 28, 80, 132)
    ensures 3 <= version < 8 ==> l == Layout(true, 16, 60, 104)
    ensures 8 <= version ==> l == Layout(true, 16, 64, 108)
  {
    if version < 3 then
      // 28 bytes of unknowns, the two counts, 44 more, the name, 48 more
      var counts := 28;
      var name := counts + 8 + 44;
      Layout(false, counts, name, name + 4 + 48)
    else
      // the size word, 12 bytes of unknowns, the two counts (before version 8
      // the face count's slot is also the first of the next 40 bytes), 40 more,
      // the name, 40 more
      var counts := 4 + 12;
      var name := counts + 8 - (if version < 8 then 4 else 0) + 40;
      Layout(true, counts, name, name + 4 + 40)
  }

  /** The `int` k bytes into the block at `at`. The C code checks neither the
      offset arithmetic nor the read. */
  function Field(meta: seq<byte>, at: int, k: int): (r: Result<int>)
    ensures r.Ok? <==> IsInt32(at + k) && 0 <= at + k && at + k + 4 <= |meta|
    ensures r.Ok? ==> r.value == I32(meta, at + k)
    ensures r.Err? ==> r.error.Unchecked?
  {
    var p :- Checked(at + k);
    ReadI32(meta, p)
  }

  /** The (packed, unpacked, pool offset) triple k bytes into the block, the
      stream it names in the pool (which starts at `poolAt` in the file), and
      that stream decoded as `count` groups of `members` scalars. */
  function LoadStream(meta: seq<byte>, at: int, k: int, file: seq<byte>, poolAt: int,
                      count: int, members: int, mode: int, inflate: Inflater, ops: FloatOps)
    : (r: Result<Values>)
    requires 0 <= members
    ensures r.Ok? ==> 0 < count && r.value.Length() == count * members
    ensures r.Ok? ==> (r.value.Floats? <==> mode == 0) && (r.value.Ints? <==> mode == 1)
  {
    var packed :- Field(meta, at, k);
    var unpacked :- Field(meta, at, k + 4);
    var poolOff :- Field(meta, at, k + 8);
    var raw :- GetZlib(file, poolAt + poolOff, packed, unpacked, inflate);
    var d := RefDecode(raw, count, members, mode, ops);
    if d.Ok? then PositiveFactor(count, members); d else d
  }

  lemma PositiveFactor(a: int, b: int)
    requires 0 <= b && a * b > 0
    ensures 0 < a
  {
  }

  /** The first undefined-behaviour outcome among the streams, in the order the
      C code meets them. */
  function FirstHazard(rs: seq<Result<Values>>): (h: Option<Hazard>)
    ensures h.Some? <==> exists i :: 0 <= i < |rs| && rs[i].Err? && rs[i].error.Unchecked?
    ensures h.Some? ==> exists i :: 0 <= i < |rs| && rs[i] == Err(Unchecked(h.value))
  {
    if |rs| == 0 then None
    else if rs[0].Err? && rs[0].error.Unchecked? then Some(rs[0].error.hazard)
    else
      var h := FirstHazard(rs[1..]);
      assert forall i :: 1 <= i < |rs| ==> rs[i] == rs[1..][i - 1];
      h
  }

  /** The block at `at`: counts, name offset (into the model-name block at
      `names`, of `namelen` bytes) and the four streams. Every stream triple is
      read and extracted even after an earlier stream failed, so undefined
      behaviour in any of them decides the outcome before a plain failure does. */
  function GetModel(meta: seq<byte>, at: int, names: int, namelen: int, file: seq<byte>, poolAt: int,
                    version: int, inflate: Inflater, ops: FloatOps): (r: Result<Model>)
    // from version 3 on the block starts with its size word
    ensures r.Ok? && version >= 3 ==> Field(meta, at, 0).Ok?
    // the name offset must lie in the model-name block
    ensures r.Ok? ==>
      var l := LayoutOf(version);
      Field(meta, at, l.nameAt).Ok? && 0 <= Field(meta, at, l.nameAt).value < namelen
      && r.value.id == names + Field(meta, at, l.nameAt).value
    // a model has faces and vertices, as many as its counts say, and its faces
    // refer to its own vertices
    ensures r.Ok? ==>
      var l := LayoutOf(version);
      Field(meta, at, l.countsAt) == Ok(|r.value.vertices|) && 0 < |r.value.vertices|
      && Field(meta, at, l.countsAt + 4) == Ok(|r.value.faces|) && 0 < |r.value.faces|
      && FacesInRange(r.value)
    // faces and vertices are exactly the decoded streams
    ensures r.Ok? ==>
      var l := LayoutOf(version);
      var nf, nv := |r.value.faces|, |r.value.vertices|;
      LoadStream(meta, at, l.streamsAt, file, poolAt, nf, 3, 1, inflate, ops) == Ok(Ints(Indexes(r.value.faces)))
      && LoadStream(meta, at, l.streamsAt + 12, file, poolAt, nv, 3, 0, inflate, ops)
         == Ok(Floats(Positions(r.value.vertices)))
      && LoadStream(meta, at, l.streamsAt + 24, file, poolAt, nv, 3, 0, inflate, ops)
         == Ok(Floats(Normals(r.value.vertices)))
      && LoadStream(meta, at, l.streamsAt + 36, file, poolAt, nv, 2, 0, inflate, ops)
         == Ok(Floats(TexCoords(r.value.vertices)))
  {
    var l := LayoutOf(version);
    // the block size word is read but not used
    var size :- if l.sizeField then Field(meta, at, 0) else Ok(0);
    var vertexnum :- Field(meta, at, l.countsAt);
    var facenum :- Field(meta, at, l.countsAt + 4);
    var nameOff :- Field(meta, at, l.nameAt);
    if nameOff < 0 || nameOff >= namelen then Err(BadNameOffset)
    else
      var faces := LoadStream(meta, at, l.streamsAt, file, poolAt, facenum, 3, 1, inflate, ops);
      var coords := LoadStream(meta, at, l.streamsAt + 12, file, poolAt, vertexnum, 3, 0, inflate, ops);
      var normals := LoadStream(meta, at, l.streamsAt + 24, file, poolAt, vertexnum, 3, 0, inflate, ops);
      var texcoords := LoadStream(meta, at, l.streamsAt + 36, file, poolAt, vertexnum, 2, 0, inflate, ops);
      var hazard := FirstHazard([faces, coords, normals, texcoords]);
      if hazard.Some? then Err(Unchecked(hazard.value))
      else if !(faces.Ok? && coords.Ok? && normals.Ok? && texcoords.Ok?) then Err(StreamsFailed)
      else
        Assemble(names + nameOff, facenum, vertexnum, faces.value.ints,
                 coords.value.floats, normals.value.floats, texcoords.value.floats)
  }

  /** The face and vertex arrays, filled from the decoded streams once every
      vertex index has been checked. Textures are left 0 here and assigned by
      the texture pass, which gives every face one before the graph is returned. */
  function Assemble(id: int, facenum: nat, vertexnum: nat, idx: seq<int>,
                    coords: seq<Float32>, normals: seq<Float32>, texcoords: seq<Float32>)
    : (r: Result<Model>)
    requires |idx| == 3 * facenum && |coords| == 3 * vertexnum
    requires |normals| == 3 * vertexnum && |texcoords| == 2 * vertexnum
    ensures r.Ok? <==> forall j :: 0 <= j < |idx| ==> 0 <= idx[j] < vertexnum
    ensures r.Err? ==> r.error == BadVertexIndex
    ensures r.Ok? ==> r.value.id == id && |r.value.faces| == facenum && FacesInRange(r.value)
    // the model holds exactly what the streams decoded to
    ensures r.Ok? ==> Indexes(r.value.faces) == idx && Positions(r.value.vertices) == coords
                      && Normals(r.value.vertices) == normals && TexCoords(r.value.vertices) == texcoords
  {
    if exists j :: 0 <= j < |idx| && !(0 <= idx[j] < vertexnum) then Err(BadVertexIndex)
    else
      FacesOfIndexes(idx, facenum, vertexnum);
      VerticesOfStreams(coords, normals, texcoords, vertexnum);
      Ok(Model(id, FacesOf(idx, facenum, vertexnum), VerticesOf(coords, normals, texcoords, vertexnum)))
  }

  /** Face k takes indexes 3k, 3k+1 and 3k+2. */
  function FacesOf(idx: seq<int>, n: nat, vertexnum: int): (faces: seq<Face>)
    requires |idx| == 3 * n
    ensures |faces| == n
    ensures (forall j :: 0 <= j < |idx| ==> 0 <= idx[j] < vertexnum) ==>
      forall k :: 0 <= k < n ==>
        0 <= faces[k].v1 < vertexnum && 0 <= faces[k].v2 < vertexnum && 0 <= faces[k].v3 < vertexnum
  {
    if n == 0 then []
    else
      var rest := FacesOf(idx[3..], n - 1, vertexnum);
      var faces := [Face(idx[0], idx[1], idx[2], 0)] + rest;
      assert faces[1..] == rest;
      faces
  }

  /** The faces give back the index stream they were built from. */
  lemma {:induction false} FacesOfIndexes(idx: seq<int>, n: nat, vertexnum: int)
    requires |idx| == 3 * n
    ensures Indexes(FacesOf(idx, n, vertexnum)) == idx
    decreases n
  {
    if n > 0 {
      var faces := FacesOf(idx, n, vertexnum);
      FacesOfIndexes(idx[3..], n - 1, vertexnum);
      assert faces[1..] == FacesOf(idx[3..], n - 1, vertexnum);
      assert idx == idx[..3] + idx[3..];
    }
  }

  /** Vertex i takes coordinates and normals 3i..3i+2 and texture coordinates 2i, 2i+1. */
  function VerticesOf(coords: seq<Float32>, normals: seq<Float32>, texcoords: seq<Float32>, n: nat)
    : (vs: seq<Vertex>)
    requires |coords| == 3 * n && |normals| == 3 * n && |texcoords| == 2 * n
    ensures |vs| == n
  {
    if n == 0 then []
    else
      [Vertex(coords[0], coords[1], coords[2], normals[0], normals[1], normals[2], texcoords[0], texcoords[1])]
      + VerticesOf(coords[3..], normals[3..], texcoords[2..], n - 1)
  }

  /** The vertices give back the three streams they were built from. */
  lemma {:induction false} VerticesOfStreams(coords: seq<Float32>, normals: seq<Float32>, texcoords: seq<Float32>,
                                             n: nat)
    requires |coords| == 3 * n && |normals| == 3 * n && |texcoords| == 2 * n
    ensures var vs := VerticesOf(coords, normals, texcoords, n);
      Positions(vs) == coords && Normals(vs) == normals && TexCoords(vs) == texcoords
    decreases n
  {
    if n > 0 {
      var vs := VerticesOf(coords, normals, texcoords, n);
      VerticesOfStreams(coords[3..], normals[3..], texcoords[2..], n - 1);
      assert vs[1..] == VerticesOf(coords[3..], normals[3..], texcoords[2..], n - 1);
      assert coords == coords[..3] + coords[3..];
      assert normals == normals[..3] + normals[3..];
      assert texcoords == texcoords[..2] + texcoords[2..];
    }
  }

  /** Face k of the assembled model is stream entries 3k..3k+2. */
  lemma {:induction false} FaceAt(idx: seq<int>, n: nat, vertexnum: int, k: nat)
    requires |idx| == 3 * n && k < n
    ensures FacesOf(idx, n, vertexnum)[k] == Face(idx[3 * k], idx[3 * k + 1], idx[3 * k + 2], 0)
    decreases k
  {
    if k > 0 {
      FaceAt(idx[3..], n - 1, vertexnum, k - 1);
    }
  }

  /** Vertex i of the assembled model is entries 3i.. of the coordinates and
      normals and 2i.. of the texture coordinates. */
  lemma {:induction false} VertexAt(coords: seq<Float32>, normals: seq<Float32>, texcoords: seq<Float32>,
                                    n: nat, i: nat)
    requires |coords| == 3 * n && |normals| == 3 * n && |texcoords| == 2 * n && i < n
    ensures VerticesOf(coords, normals, texcoords, n)[i]
         == Vertex(coords[3 * i], coords[3 * i + 1], coords[3 * i + 2],
                   normals[3 * i], normals[3 * i + 1], normals[3 * i + 2],
                   texcoords[2 * i], texcoords[2 * i + 1])
    decreases i
  {
    if i > 0 {
      VertexAt(coords[3..], normals[3..], texcoords[2..], n - 1, i - 1);
    }
  }
}
