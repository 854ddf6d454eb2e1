/** The texture-usage pass of getModels (geo.c:580-609): faces, in (model, face)
    order, take their texture from a run-length table of (texture, run) pairs of
    16-bit words. */
module Textures {
  import opened Bytes
  import opened Graph

  /** The walk's state: byte offset of the next pair in the table, faces left in
      the current run (negative once a run of 0 or the end of the table has been
      met, after which the table is never read again) and the texture handed out. */
  datatype Cursor = Cursor(offset: int, texcount: int, tex: int)

  /** The state before the first face. The C texture variable starts unassigned,
      but the first face always assigns it before use. */
  const Start: Cursor := Cursor(0, 0, 0)

  /** One face: continue the current run, or read the next pair from the table
      at `base` of `size` bytes in `meta`, or hand out 0 once fewer than four
      table bytes remain. */
  function Step(meta: seq<byte>, base: int, size: int, texturenum: int, c: Cursor): (r: Result<Cursor>)
    // within a run the texture stays the same
    ensures c.texcount != 0 && r.Ok? ==> r.value.tex == c.tex && r.value.offset == c.offset
    // the table end: 0, unchecked, and the table is never read again
    ensures c.texcount == 0 && IsInt32(size - 4) && c.offset > size - 4 ==>
      r == Ok(Cursor(c.offset, -1, 0))
    // a pair read from the table names an existing texture, or the load fails
    ensures c.texcount == 0 && IsInt32(size - 4) && c.offset <= size - 4
            && 0 <= base + c.offset && base + c.offset + 4 <= |meta| ==>
      r == if U16(meta, base + c.offset) >= texturenum then Err(BadTextureIndex)
           else Ok(Cursor(c.offset + 4, U16(meta, base + c.offset + 2) - 1, U16(meta, base + c.offset)))
    ensures r.Ok? && TextureOk(c.tex, texturenum) ==> TextureOk(r.value.tex, texturenum)
  {
    if c.texcount != 0 then
      var left :- Checked(c.texcount - 1);
      Ok(c.(texcount := left))
    else
      var last :- Checked(size - 4);
      if c.offset > last then Ok(Cursor(c.offset, -1, 0))
      else
        var tex :- ReadU16(meta, base + c.offset);
        var run :- ReadU16(meta, base + c.offset + 2);
        if tex >= texturenum then Err(BadTextureIndex)
        else Ok(Cursor(c.offset + 4, run - 1, tex))
  }

  /** `n` faces in a row: the cursor after them and the texture each one got. */
  function AssignFaces(meta: seq<byte>, base: int, size: int, texturenum: int, c: Cursor, n: nat)
    : (r: Result<(Cursor, seq<int>)>)
    decreases n
    ensures r.Ok? ==> |r.value.1| == n
    ensures r.Ok? && TextureOk(c.tex, texturenum) ==>
      TextureOk(r.value.0.tex, texturenum)
      && forall j :: 0 <= j < n ==> TextureOk(r.value.1[j], texturenum)
  {
    if n == 0 then Ok((c, []))
    else
      var c1 :- Step(meta, base, size, texturenum, c);
      var rest :- AssignFaces(meta, base, size, texturenum, c1, n - 1);
      Ok((rest.0, [c1.tex] + rest.1))
  }

  /** A model with the given textures on its faces and nothing else changed. */
  function Retexture(m: Model, ts: seq<int>): (r: Model)
    requires |ts| == |m.faces|
    ensures r.id == m.id && r.vertices == m.vertices && |r.faces| == |m.faces|
    ensures forall k :: 0 <= k < |ts| ==>
      r.faces[k].texture == ts[k] && r.faces[k].v1 == m.faces[k].v1
      && r.faces[k].v2 == m.faces[k].v2 && r.faces[k].v3 == m.faces[k].v3
  {
    m.(faces := seq(|m.faces|, k requires 0 <= k < |m.faces| => m.faces[k].(texture := ts[k])))
  }

  /** The nested loops over models and their faces, one cursor threaded through. */
  function AssignModels(meta: seq<byte>, base: int, size: int, texturenum: int, c: Cursor,
                        models: seq<Model>): (r: Result<seq<Model>>)
    decreases |models|
    // nothing but the textures changes
    ensures r.Ok? ==> |r.value| == |models| && FaceCount(r.value) == FaceCount(models)
    ensures r.Ok? ==>
      forall x :: 0 <= x < |models| ==>
        r.value[x].id == models[x].id && r.value[x].vertices == models[x].vertices
        && |r.value[x].faces| == |models[x].faces|
        && forall k :: 0 <= k < |models[x].faces| ==>
             r.value[x].faces[k] == models[x].faces[k].(texture := r.value[x].faces[k].texture)
    ensures r.Ok? && TextureOk(c.tex, texturenum) ==>
      forall j :: 0 <= j < |FaceTextures(r.value)| ==> TextureOk(FaceTextures(r.value)[j], texturenum)
  {
    if |models| == 0 then Ok([])
    else
      var here :- AssignFaces(meta, base, size, texturenum, c, |models[0].faces|);
      var rest :- AssignModels(meta, base, size, texturenum, here.0, models[1..]);
      var m := Retexture(models[0], here.1);
      assert ([m] + rest)[1..] == rest;
      Ok([m] + rest)
  }

  // ---------------------------------------------------------------------------
  // Reference definition: the table expanded into one texture per face.

  /** The number of pairs the walk can reach: those starting at an offset that
      is at most size - 4. */
  function Avail(size: int): nat {
    if size < 4 then 0 else size / 4
  }

  lemma AvailReach(size: int, k: nat)
    ensures 4 * k <= size - 4 <==> k < Avail(size)
  {
    if size >= 4 {
      var q := size / 4;
      assert size == 4 * q + size % 4;
    }
  }

  /** The table holds `pairs`: every reachable pair lies inside `meta`. */
  predicate Table(meta: seq<byte>, base: int, size: int, pairs: seq<(int, int)>) {
    |pairs| == Avail(size) && (|pairs| == 0 || (0 <= base && base + 4 * |pairs| <= |meta|))
    && forall k :: 0 <= k < |pairs| ==>
         pairs[k] == (U16(meta, base + 4 * k), U16(meta, base + 4 * k + 2))
  }

  /** The texture of face j when the pairs are handed out in order: a run of r
      covers r faces, a run of 0 covers every face from there on, and faces past
      the table get 0. */
  function Expand(pairs: seq<(int, int)>, j: nat): int
    decreases |pairs|
  {
    if |pairs| == 0 then 0
    else if pairs[0].1 == 0 || j < pairs[0].1 then pairs[0].0
    else Expand(pairs[1..], j - pairs[0].1)
  }

  /** Every face gets a texture some pair names, or 0 past the table. */
  lemma {:induction false} ExpandListed(pairs: seq<(int, int)>, j: nat)
    ensures Expand(pairs, j) == 0 || exists k :: 0 <= k < |pairs| && Expand(pairs, j) == pairs[k].0
    decreases |pairs|
  {
    if |pairs| > 0 && pairs[0].1 != 0 && j >= pairs[0].1 {
      ExpandListed(pairs[1..], j - pairs[0].1);
      if Expand(pairs, j) != 0 {
        var k :| 0 <= k < |pairs| - 1 && Expand(pairs, j) == pairs[1..][k].0;
        assert Expand(pairs, j) == pairs[k + 1].0;
      }
    }
  }

  /** The texture face j (counted from the cursor) gets, by the reference rule. */
  function Cont(pairs: seq<(int, int)>, c: Cursor, j: nat): int
    requires 0 <= c.offset && c.offset % 4 == 0 && c.offset / 4 <= |pairs|
  {
    if c.texcount < 0 || j < c.texcount then c.tex
    else Expand(pairs[c.offset / 4..], j - c.texcount)
  }

  /** A cursor the walk can be in: at a pair boundary within the table. */
  predicate OnTable(pairs: seq<(int, int)>, c: Cursor) {
    0 <= c.offset && c.offset % 4 == 0 && c.offset / 4 <= |pairs|
  }

  /** The pairs the reference expansion reads to texture n faces all name an
      existing texture. A run of 0 ends the reading, and so does the end of
      the table: later pairs are never consulted. */
  predicate ReadsValid(pairs: seq<(int, int)>, n: nat, texturenum: int)
    decreases |pairs|
  {
    n == 0 || |pairs| == 0
    || (pairs[0].0 < texturenum
        && (pairs[0].1 == 0 || n <= pairs[0].1 || ReadsValid(pairs[1..], n - pairs[0].1, texturenum)))
  }

  /** The pairs read to texture n faces from the cursor on all name an existing
      texture: those the current run does not cover. */
  predicate ContValid(pairs: seq<(int, int)>, c: Cursor, n: nat, texturenum: int)
    requires OnTable(pairs, c)
  {
    c.texcount < 0 || n <= c.texcount || ReadsValid(pairs[c.offset / 4..], n - c.texcount, texturenum)
  }

  /** Fewer faces read no more pairs. */
  lemma {:induction false} ReadsValidMono(pairs: seq<(int, int)>, m: nat, n: nat, texturenum: int)
    requires m <= n && ReadsValid(pairs, n, texturenum)
    ensures ReadsValid(pairs, m, texturenum)
    decreases |pairs|
  {
    if m > 0 && |pairs| > 0 && pairs[0].1 != 0 && m > pairs[0].1 {
      ReadsValidMono(pairs[1..], m - pairs[0].1, n - pairs[0].1, texturenum);
    }
  }

  /** Fewer faces from the same cursor read no more pairs. */
  lemma ContValidMono(pairs: seq<(int, int)>, c: Cursor, m: nat, n: nat, texturenum: int)
    requires OnTable(pairs, c) && m <= n && ContValid(pairs, c, n, texturenum)
    ensures ContValid(pairs, c, m, texturenum)
  {
    if c.texcount >= 0 && m > c.texcount {
      ReadsValidMono(pairs[c.offset / 4..], m - c.texcount, n - c.texcount, texturenum);
    }
  }

  /** One step succeeds exactly when the pair it may read names an existing
      texture, and what is still to be read then moves on by one face. */
  lemma StepReadsValid(meta: seq<byte>, base: int, size: int, texturenum: int,
                       pairs: seq<(int, int)>, c: Cursor)
    requires IsInt32(size - 4) && Table(meta, base, size, pairs)
    requires OnTable(pairs, c) && Int32Min < c.texcount < 0x1_0000
    ensures var r := Step(meta, base, size, texturenum, c);
      (r.Ok? <==> ContValid(pairs, c, 1, texturenum))
      && (r.Ok? ==>
            OnTable(pairs, r.value)
            && forall n: nat :: ContValid(pairs, r.value, n, texturenum) <==> ContValid(pairs, c, n + 1, texturenum))
  {
    var k := c.offset / 4;
    AvailReach(size, k);
    var r := Step(meta, base, size, texturenum, c);
    if c.texcount == 0 {
      if k < |pairs| {
        assert 0 <= base + c.offset && base + c.offset + 4 <= |meta|;
        assert pairs[k] == (U16(meta, base + c.offset), U16(meta, base + c.offset + 2));
        var p := pairs[k..];
        assert p[0] == pairs[k];
        assert p[1..] == pairs[k + 1..];
        if pairs[k].0 < texturenum {
          assert (c.offset + 4) / 4 == k + 1;
          forall n: nat
            ensures ContValid(pairs, r.value, n, texturenum) <==> ContValid(pairs, c, n + 1, texturenum)
          {
            assert ContValid(pairs, c, n + 1, texturenum) == ReadsValid(p, n + 1, texturenum);
          }
        } else {
          assert !ReadsValid(p, 1, texturenum);
        }
      }
    }
  }

  /** A step that succeeds hands out the reference texture and shifts the
      reference by one face. */
  lemma StepFollowsExpand(meta: seq<byte>, base: int, size: int, texturenum: int,
                          pairs: seq<(int, int)>, c: Cursor)
    requires IsInt32(size - 4) && Table(meta, base, size, pairs)
    requires OnTable(pairs, c) && Int32Min < c.texcount < 0x1_0000
    ensures var r := Step(meta, base, size, texturenum, c);
      r.Ok? ==>
        OnTable(pairs, r.value) && r.value.tex == Cont(pairs, c, 0)
        && (if c.texcount == 0 then -1 else c.texcount - 1) <= r.value.texcount < 0x1_0000
        && forall j: nat :: Cont(pairs, r.value, j) == Cont(pairs, c, j + 1)
  {
    var k := c.offset / 4;
    AvailReach(size, k);
    var r := Step(meta, base, size, texturenum, c);
    if c.texcount == 0 {
      if k < |pairs| {
        assert c.offset <= size - 4;
        assert 0 <= base + c.offset && base + c.offset + 4 <= |meta|;
        assert pairs[k] == (U16(meta, base + c.offset), U16(meta, base + c.offset + 2));
        var p := pairs[k..];
        assert p[0] == pairs[k];
        assert p[1..] == pairs[k + 1..];
        assert (c.offset + 4) / 4 == k + 1;
      } else {
        assert r == Ok(Cursor(c.offset, -1, 0));
      }
    }
  }

  /** The walk over n faces succeeds exactly when the pairs it reads name
      existing textures, as long as every reachable pair is in the buffer and
      the run counter has room for `budget` >= n more decrements; what is
      still to be read then moves on by n faces. */
  lemma {:induction false} AssignReadsValid(meta: seq<byte>, base: int, size: int, texturenum: int,
                                            pairs: seq<(int, int)>, c: Cursor, n: nat, budget: nat)
    requires IsInt32(size - 4) && Table(meta, base, size, pairs)
    requires OnTable(pairs, c) && n <= budget <= 0x8000_0000 && Int32Min + budget <= c.texcount < 0x1_0000
    ensures var r := AssignFaces(meta, base, size, texturenum, c, n);
      (r.Ok? <==> ContValid(pairs, c, n, texturenum))
      && (r.Ok? ==> OnTable(pairs, r.value.0)
                    && forall m: nat :: ContValid(pairs, r.value.0, m, texturenum)
                                        <==> ContValid(pairs, c, n + m, texturenum))
    decreases n
  {
    if n > 0 {
      StepReadsValid(meta, base, size, texturenum, pairs, c);
      StepFollowsExpand(meta, base, size, texturenum, pairs, c);
      var s := Step(meta, base, size, texturenum, c);
      if s.Ok? {
        AssignReadsValid(meta, base, size, texturenum, pairs, s.value, n - 1, budget - 1);
      }
    }
  }

  /** A walk over n faces that succeeds hands out exactly the reference
      textures and shifts the reference by n faces. */
  lemma {:induction false} AssignFollowsExpand(meta: seq<byte>, base: int, size: int, texturenum: int,
                                               pairs: seq<(int, int)>, c: Cursor, n: nat, budget: nat)
    requires IsInt32(size - 4) && Table(meta, base, size, pairs)
    requires OnTable(pairs, c) && n <= budget <= 0x8000_0000 && Int32Min + budget <= c.texcount < 0x1_0000
    ensures var r := AssignFaces(meta, base, size, texturenum, c, n);
      r.Ok? ==>
        OnTable(pairs, r.value.0)
        && Int32Min + budget - n <= r.value.0.texcount < 0x1_0000
        && (forall j :: 0 <= j < n ==> r.value.1[j] == Cont(pairs, c, j))
        && forall j: nat :: Cont(pairs, r.value.0, j) == Cont(pairs, c, n + j)
    decreases n
  {
    if n > 0 {
      StepFollowsExpand(meta, base, size, texturenum, pairs, c);
      var s := Step(meta, base, size, texturenum, c);
      if s.Ok? {
        var c1 := s.value;
        AssignFollowsExpand(meta, base, size, texturenum, pairs, c1, n - 1, budget - 1);
        var r1 := AssignFaces(meta, base, size, texturenum, c1, n - 1);
        if r1.Ok? {
          var rest := r1.value;
          forall j | 0 <= j < n
            ensures ([c1.tex] + rest.1)[j] == Cont(pairs, c, j)
          {
            if j > 0 {
              assert ([c1.tex] + rest.1)[j] == rest.1[j - 1] == Cont(pairs, c1, j - 1);
            }
          }
        }
      }
    }
  }

  /** The textures of a retextured model followed by more models. */
  lemma RetexturedTextures(m: Model, ts: seq<int>, rest: seq<Model>)
    requires |ts| == |m.faces|
    ensures FaceTextures([Retexture(m, ts)] + rest) == ts + FaceTextures(rest)
  {
    var all := [Retexture(m, ts)] + rest;
    assert all[1..] == rest;
  }

  /** Over whole models: the pass succeeds exactly when the pairs it reads name
      existing textures, and then the faces' textures, in (model, face)
      order, are the reference expansion of the table from the cursor on. */
  lemma {:induction false} AssignModelsFollowsExpand(meta: seq<byte>, base: int, size: int, texturenum: int,
                                                     pairs: seq<(int, int)>, c: Cursor, models: seq<Model>)
    requires IsInt32(size - 4) && Table(meta, base, size, pairs)
    requires OnTable(pairs, c) && FaceCount(models) <= 0x8000_0000
    requires Int32Min + FaceCount(models) <= c.texcount < 0x1_0000
    ensures var r := AssignModels(meta, base, size, texturenum, c, models);
      (r.Ok? <==> ContValid(pairs, c, FaceCount(models), texturenum))
      && (r.Ok? ==> forall j :: 0 <= j < FaceCount(models) ==> FaceTextures(r.value)[j] == Cont(pairs, c, j))
    decreases |models|
  {
    if |models| > 0 {
      var n := |models[0].faces|;
      var total := FaceCount(models);
      assert total == n + FaceCount(models[1..]);
      AssignReadsValid(meta, base, size, texturenum, pairs, c, n, total);
      AssignFollowsExpand(meta, base, size, texturenum, pairs, c, n, total);
      var h := AssignFaces(meta, base, size, texturenum, c, n);
      if h.Ok? {
        var here := h.value;
        AssignModelsFollowsExpand(meta, base, size, texturenum, pairs, here.0, models[1..]);
        var rr := AssignModels(meta, base, size, texturenum, here.0, models[1..]);
        if rr.Ok? {
          var rest := rr.value;
          RetexturedTextures(models[0], here.1, rest);
          var all := [Retexture(models[0], here.1)] + rest;
          assert AssignModels(meta, base, size, texturenum, c, models) == Ok(all);
          var ts := FaceTextures(all);
          assert ts == here.1 + FaceTextures(rest);
          forall j | 0 <= j < total
            ensures ts[j] == Cont(pairs, c, j)
          {
            if j < n {
              assert ts[j] == here.1[j];
            } else {
              assert ts[j] == FaceTextures(rest)[j - n];
              assert FaceTextures(rest)[j - n] == Cont(pairs, here.0, j - n);
            }
          }
        }
      } else {
        if ContValid(pairs, c, total, texturenum) {
          ContValidMono(pairs, c, n, total, texturenum);
        }
      }
    }
  }

  /** The whole pass from its start state: it succeeds exactly when every pair
      the expansion reads for the faces names an existing texture, and face j
      (in (model, face) order) then gets the j-th texture of the expanded table. */
  lemma PassIsExpansion(meta: seq<byte>, base: int, size: int, texturenum: int,
                        pairs: seq<(int, int)>, models: seq<Model>)
    requires IsInt32(size - 4) && Table(meta, base, size, pairs)
    requires FaceCount(models) <= 0x8000_0000
    ensures var r := AssignModels(meta, base, size, texturenum, Start, models);
      (r.Ok? <==> ReadsValid(pairs, FaceCount(models), texturenum))
      && (r.Ok? ==> forall j :: 0 <= j < FaceCount(models) ==> FaceTextures(r.value)[j] == Expand(pairs, j))
  {
    var n := FaceCount(models);
    AssignModelsFollowsExpand(meta, base, size, texturenum, pairs, Start, models);
    assert pairs[0..] == pairs;
    assert ContValid(pairs, Start, n, texturenum) == ReadsValid(pairs, n, texturenum);
    var r := AssignModels(meta, base, size, texturenum, Start, models);
    if r.Ok? {
      forall j | 0 <= j < n
        ensures FaceTextures(r.value)[j] == Expand(pairs, j)
      {
        assert Cont(pairs, Start, j) == Expand(pairs, j);
      }
    }
  }

  /** Fewer than four table bytes: every face gets texture 0 and the pass succeeds,
      whatever the texture count (even none at all). */
  lemma ShortTableGivesZero(meta: seq<byte>, base: int, size: int, texturenum: int, models: seq<Model>)
    requires Int32Min + 4 <= size < 4
    requires FaceCount(models) <= 0x8000_0000
    ensures var r := AssignModels(meta, base, size, texturenum, Start, models);
      r.Ok? && forall j :: 0 <= j < FaceCount(models) ==> FaceTextures(r.value)[j] == 0
  {
    PassIsExpansion(meta, base, size, texturenum, [], models);
  }

  /** A first pair with a run of 0 and an existing texture gives that texture
      to every face; the pairs after it are never read. */
  lemma ZeroRunCoversAll(meta: seq<byte>, base: int, size: int, texturenum: int,
                         pairs: seq<(int, int)>, models: seq<Model>)
    requires IsInt32(size - 4) && Table(meta, base, size, pairs)
    requires FaceCount(models) <= 0x8000_0000
    requires 0 < |pairs| && pairs[0].1 == 0 && pairs[0].0 < texturenum
    ensures var r := AssignModels(meta, base, size, texturenum, Start, models);
      r.Ok? && forall j :: 0 <= j < FaceCount(models) ==> FaceTextures(r.value)[j] == U16(meta, base)
  {
    PassIsExpansion(meta, base, size, texturenum, pairs, models);
  }
}
