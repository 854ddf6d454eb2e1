/** The decoded object graph (geo.h:4-29). The C structure points into the
    metadata stream for its names; the model keeps those pointers as positions
    in `meta`, and keeps the counts next to the sequences because the C code
    may report a count with no elements behind it (a negative one). */
module Graph {
  import opened Bytes
  import opened Codec

  /** A triangle: three vertex indexes and a texture index. */
  datatype Face = Face(v1: int, v2: int, v3: int, texture: int)

  /** Position, normal and texture coordinate, as IEEE-754 single bit patterns. */
  datatype Vertex = Vertex(x: Float32, y: Float32, z: Float32,
                           nx: Float32, ny: Float32, nz: Float32,
                           s: Float32, t: Float32)

  /** A model: the position of its name in the metadata stream, its faces and vertices. */
  datatype Model = Model(id: int, faces: seq<Face>, vertices: seq<Vertex>)

  /** The whole graph, with the metadata stream its names point into. */
  datatype Geo = Geo(id: int, texturenum: int, textures: seq<int>,
                     modelnum: int, models: seq<Model>, meta: seq<byte>)

  /** The faces' vertex indexes laid out three per face, as the index stream holds them. */
  function Indexes(faces: seq<Face>): (idx: seq<int>)
    ensures |idx| == 3 * |faces|
  {
    if |faces| == 0 then []
    else [faces[0].v1, faces[0].v2, faces[0].v3] + Indexes(faces[1..])
  }

  /** Vertex positions laid out three per vertex. */
  function Positions(vs: seq<Vertex>): (p: seq<Float32>)
    ensures |p| == 3 * |vs|
  {
    if |vs| == 0 then [] else [vs[0].x, vs[0].y, vs[0].z] + Positions(vs[1..])
  }

  /** Vertex normals laid out three per vertex. */
  function Normals(vs: seq<Vertex>): (p: seq<Float32>)
    ensures |p| == 3 * |vs|
  {
    if |vs| == 0 then [] else [vs[0].nx, vs[0].ny, vs[0].nz] + Normals(vs[1..])
  }

  /** Texture coordinates laid out two per vertex. */
  function TexCoords(vs: seq<Vertex>): (p: seq<Float32>)
    ensures |p| == 2 * |vs|
  {
    if |vs| == 0 then [] else [vs[0].s, vs[0].t] + TexCoords(vs[1..])
  }

  /** Every corner of every face names a vertex of the model. */
  predicate FacesInRange(m: Model) {
    forall k :: 0 <= k < |m.faces| ==>
      0 <= m.faces[k].v1 < |m.vertices| && 0 <= m.faces[k].v2 < |m.vertices|
      && 0 <= m.faces[k].v3 < |m.vertices|
  }

  /** A texture index as the loader hands it out: a checked table entry, or the
      0 given once the table runs out, which is not checked against the count. */
  predicate TextureOk(t: int, texturenum: int) {
    0 <= t && (t < texturenum || t == 0)
  }

  /** The textures of all faces in (model, face) order. */
  function FaceTextures(models: seq<Model>): (ts: seq<int>)
    ensures |ts| == FaceCount(models)
  {
    if |models| == 0 then []
    else seq(|models[0].faces|, k requires 0 <= k < |models[0].faces| => models[0].faces[k].texture)
         + FaceTextures(models[1..])
  }

  /** The number of faces of all models. */
  function FaceCount(models: seq<Model>): nat {
    if |models| == 0 then 0 else |models[0].faces| + FaceCount(models[1..])
  }

  /** A model the loader can return: it has faces and vertices, and every face
      refers to vertices of the model. */
  predicate Usable(m: Model) {
    0 < |m.faces| && 0 < |m.vertices| && FacesInRange(m)
  }

  /** What a returned graph satisfies: its counts and sequences agree, every model
      has faces and vertices, every face refers to vertices of its model, and
      every texture index is one the loader can hand out. */
  predicate WellFormed(g: Geo) {
    |g.textures| == (if g.texturenum < 0 then 0 else g.texturenum)
    && |g.models| == (if g.modelnum < 0 then 0 else g.modelnum)
    && (forall x :: 0 <= x < |g.models| ==> Usable(g.models[x]))
    && (forall j :: 0 <= j < |FaceTextures(g.models)| ==> TextureOk(FaceTextures(g.models)[j], g.texturenum))
  }
}
