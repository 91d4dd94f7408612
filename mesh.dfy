/** Vertex deduplication of `App::loadModel` (App.cpp:832-857): each index
    reference of the mesh becomes a vertex; the first occurrence of a vertex
    value is appended to the vertex buffer and every occurrence appends that
    vertex's position to the index buffer. */
module Mesh {
  import opened VertexModel

  /** One `tinyobj::index_t`: the positions of a reference's vertex and
      texture coordinate in the attribute arrays. */
  datatype MeshIndex = MeshIndex(vertexIndex: int, texcoordIndex: int)

  /** The index reads stay inside the attribute arrays (the loader's promise
      for a well-formed file). */
  predicate InAttributes<F>(positions: seq<F>, texcoords: seq<F>, index: MeshIndex) {
    0 <= index.vertexIndex && 3 * index.vertexIndex + 2 < |positions| &&
    0 <= index.texcoordIndex && 2 * index.texcoordIndex + 1 < |texcoords|
  }

  /** The vertex the loop body builds (App.cpp:836-848): the position triple,
      the texture coordinate with its second component flipped (`1.0f - t`,
      here `flip`), and a white colour (`one` is 1.0f). */
  function BuildVertex<F>(positions: seq<F>, texcoords: seq<F>, index: MeshIndex, one: F, flip: F -> F): Vertex<F>
    requires InAttributes(positions, texcoords, index)
  {
    Vertex(
      Vec3(positions[3 * index.vertexIndex], positions[3 * index.vertexIndex + 1], positions[3 * index.vertexIndex + 2]),
      Vec3(one, one, one),
      Vec2(texcoords[2 * index.texcoordIndex], flip(texcoords[2 * index.texcoordIndex + 1])))
  }

  /** The index references of the first `s` shapes, one shape after another. */
  function FlattenUpTo(shapes: seq<seq<MeshIndex>>, s: nat): seq<MeshIndex>
    requires s <= |shapes|
  {
    if s == 0 then [] else FlattenUpTo(shapes, s - 1) + shapes[s - 1]
  }

  /** The index references of all shapes, in the order the loops visit them. */
  function Flatten(shapes: seq<seq<MeshIndex>>): seq<MeshIndex> {
    FlattenUpTo(shapes, |shapes|)
  }

  /** The references of fewer shapes are a prefix of those of more. */
  lemma {:induction false} FlattenUpToPrefix(shapes: seq<seq<MeshIndex>>, s: nat, t: nat)
    requires s <= t <= |shapes|
    ensures |FlattenUpTo(shapes, s)| <= |FlattenUpTo(shapes, t)|
    ensures FlattenUpTo(shapes, t)[..|FlattenUpTo(shapes, s)|] == FlattenUpTo(shapes, s)
    decreases t - s
  {
    if s < t {
      FlattenUpToPrefix(shapes, s, t - 1);
      var p := FlattenUpTo(shapes, s);
      var q := FlattenUpTo(shapes, t - 1);
      assert (q + shapes[t - 1])[..|p|] == q[..|p|];
    }
  }

  /** A sequence starting with p + q holds q's elements after p. */
  lemma PrefixAt<T>(all: seq<T>, p: seq<T>, q: seq<T>)
    requires |p + q| <= |all| && all[..|p + q|] == p + q
    ensures |p| + |q| <= |all|
    ensures forall j :: 0 <= j < |q| ==> all[|p| + j] == q[j]
  {
    forall j | 0 <= j < |q|
      ensures all[|p| + j] == q[j]
    {
      assert all[|p| + j] == all[..|p + q|][|p| + j];
    }
  }

  /** Shape `s`'s references are those of the whole mesh from position
      |FlattenUpTo(shapes, s)| on. */
  lemma ShapeInMesh(shapes: seq<seq<MeshIndex>>, s: nat)
    requires s < |shapes|
    ensures |FlattenUpTo(shapes, s)| + |shapes[s]| <= |Flatten(shapes)|
    ensures forall j :: 0 <= j < |shapes[s]| ==> Flatten(shapes)[|FlattenUpTo(shapes, s)| + j] == shapes[s][j]
  {
    FlattenUpToPrefix(shapes, s + 1, |shapes|);
    PrefixAt(Flatten(shapes), FlattenUpTo(shapes, s), shapes[s]);
  }

  /** Every reference of the mesh reads inside the attribute arrays. */
  predicate MeshInAttributes<F>(positions: seq<F>, texcoords: seq<F>, refs: seq<MeshIndex>) {
    forall k :: 0 <= k < |refs| ==> InAttributes(positions, texcoords, refs[k])
  }

  /** The vertex of every reference, in order. */
  function MeshVertices<F>(positions: seq<F>, texcoords: seq<F>, refs: seq<MeshIndex>, one: F, flip: F -> F)
    : (vs: seq<Vertex<F>>)
    requires MeshInAttributes(positions, texcoords, refs)
    ensures |vs| == |refs|
    ensures forall k :: 0 <= k < |refs| ==> vs[k] == BuildVertex(positions, texcoords, refs[k], one, flip)
  {
    seq(|refs|, k requires 0 <= k < |refs| => BuildVertex(positions, texcoords, refs[k], one, flip))
  }

  /** The position of the first occurrence of `v` in `s`. */
  function FirstIndex<T(==)>(s: seq<T>, v: T): (k: nat)
    requires v in s
    ensures k < |s| && s[k] == v
    ensures forall j :: 0 <= j < k ==> s[j] != v
  {
    if s[0] == v then 0 else 1 + FirstIndex(s[1..], v)
  }

  lemma FirstIndexAt<T>(s: seq<T>, v: T, p: nat)
    requires p < |s| && s[p] == v
    requires forall j :: 0 <= j < p ==> s[j] != v
    ensures FirstIndex(s, v) == p
  {
  }

  /** No value occurs twice. */
  predicate Distinct<T(==)>(s: seq<T>) {
    forall i, j :: 0 <= i < j < |s| ==> s[i] != s[j]
  }

  /** The loop invariant after `i` references: the index buffer so far
      resolves to the references, and the map and the vertex buffer are
      inverse to each other (which makes the buffer duplicate-free);
      `firstSeen[a]` is where vertex `a` first occurred, in increasing order,
      and no reference precedes the first occurrence of its vertex. */
  ghost predicate DedupState<F>(
    refs: seq<Vertex<F>>, i: nat, vertices: seq<Vertex<F>>, indices: seq<nat>,
    unique: map<Vertex<F>, nat>, firstSeen: seq<nat>)
  {
    && i <= |refs|
    && |indices| == i
    && (forall k :: 0 <= k < i ==> indices[k] < |vertices| && vertices[indices[k]] == refs[k])
    && (forall a :: 0 <= a < |vertices| ==> vertices[a] in unique && unique[vertices[a]] == a)
    && (forall v :: v in unique ==> unique[v] < |vertices| && vertices[unique[v]] == v)
    && |firstSeen| == |vertices|
    && (forall a :: 0 <= a < |vertices| ==> firstSeen[a] < i && refs[firstSeen[a]] == vertices[a])
    && (forall k :: 0 <= k < i ==> firstSeen[indices[k]] <= k)
    && (forall a, b :: 0 <= a < b < |vertices| ==> firstSeen[a] < firstSeen[b])
  }

  /** A reference not seen before is appended and indexes the new vertex. */
  lemma StepNewVertex<F>(
    refs: seq<Vertex<F>>, i: nat, vertices: seq<Vertex<F>>, indices: seq<nat>,
    unique: map<Vertex<F>, nat>, firstSeen: seq<nat>)
    requires DedupState(refs, i, vertices, indices, unique, firstSeen)
    requires i < |refs| && refs[i] !in unique
    ensures DedupState(refs, i + 1, vertices + [refs[i]], indices + [|vertices|],
                       unique[refs[i] := |vertices|], firstSeen + [i])
  {
  }

  /** A reference seen before indexes the vertex already stored for it. */
  lemma StepKnownVertex<F>(
    refs: seq<Vertex<F>>, i: nat, vertices: seq<Vertex<F>>, indices: seq<nat>,
    unique: map<Vertex<F>, nat>, firstSeen: seq<nat>)
    requires DedupState(refs, i, vertices, indices, unique, firstSeen)
    requires i < |refs| && refs[i] in unique
    ensures DedupState(refs, i + 1, vertices, indices + [unique[refs[i]]], unique, firstSeen)
  {
  }

  /** The loops of `loadModel` over the shapes and their index references:
      each reference's vertex is built and deduplicated. One index is emitted
      per reference and resolves to that reference's vertex; the vertex
      buffer holds each built vertex once, in first-seen order; two
      references share an index exactly when they build the same vertex, so
      in particular equal references share one. */
  method LoadModel<F(==)>(positions: seq<F>, texcoords: seq<F>, shapes: seq<seq<MeshIndex>>, one: F, flip: F -> F)
    returns (vertices: seq<Vertex<F>>, indices: seq<nat>)
    requires MeshInAttributes(positions, texcoords, Flatten(shapes))
    ensures var refs := MeshVertices(positions, texcoords, Flatten(shapes), one, flip);
      && |indices| == |refs|
      && (forall k :: 0 <= k < |indices| ==> indices[k] < |vertices| && vertices[indices[k]] == refs[k])
      && Distinct(vertices)
      && (forall v :: v in vertices <==> v in refs)
      && (forall a, b :: 0 <= a < b < |vertices| ==> FirstIndex(refs, vertices[a]) < FirstIndex(refs, vertices[b]))
      && (forall j, k :: 0 <= j < |refs| && 0 <= k < |refs| ==> (indices[j] == indices[k] <==> refs[j] == refs[k]))
    ensures var m := Flatten(shapes);
      forall j, k :: 0 <= j < |m| && 0 <= k < |m| && m[j] == m[k] ==> indices[j] == indices[k]
  {
    ghost var all := Flatten(shapes);
    ghost var refs := MeshVertices(positions, texcoords, all, one, flip);
    var uniqueVertices: map<Vertex<F>, nat> := map[];
    vertices, indices := [], [];
    ghost var firstSeen: seq<nat> := [];
    var s := 0;
    while s < |shapes|
      invariant s <= |shapes|
      invariant |FlattenUpTo(shapes, s)| <= |all|
      invariant DedupState(refs, |FlattenUpTo(shapes, s)|, vertices, indices, uniqueVertices, firstSeen)
    {
      ShapeVertices(positions, texcoords, shapes, one, flip, s);
      uniqueVertices, vertices, indices, firstSeen :=
        LoadShape(positions, texcoords, shapes[s], one, flip, refs, |FlattenUpTo(shapes, s)|,
                  uniqueVertices, vertices, indices, firstSeen);
      s := s + 1;
    }
    DedupFinal(refs, vertices, indices, uniqueVertices, firstSeen);
  }

  /** The inner loop of `loadModel` over one shape's references, whose
      vertices sit at positions `offset`… of the mesh's vertices `refs`. */
  method LoadShape<F(==)>(
    positions: seq<F>, texcoords: seq<F>, shape: seq<MeshIndex>, one: F, flip: F -> F,
    ghost refs: seq<Vertex<F>>, ghost offset: nat,
    unique0: map<Vertex<F>, nat>, vertices0: seq<Vertex<F>>, indices0: seq<nat>, ghost firstSeen0: seq<nat>)
    returns (unique: map<Vertex<F>, nat>, vertices: seq<Vertex<F>>, indices: seq<nat>, ghost firstSeen: seq<nat>)
    requires offset + |shape| <= |refs|
    requires forall j :: 0 <= j < |shape| ==> InAttributes(positions, texcoords, shape[j])
    requires forall j :: 0 <= j < |shape| ==> refs[offset + j] == BuildVertex(positions, texcoords, shape[j], one, flip)
    requires DedupState(refs, offset, vertices0, indices0, unique0, firstSeen0)
    ensures DedupState(refs, offset + |shape|, vertices, indices, unique, firstSeen)
  {
    unique, vertices, indices, firstSeen := unique0, vertices0, indices0, firstSeen0;
    var j := 0;
    while j < |shape|
      invariant j <= |shape|
      invariant DedupState(refs, offset + j, vertices, indices, unique, firstSeen)
    {
      var vertex := BuildVertex(positions, texcoords, shape[j], one, flip);
      assert vertex == refs[offset + j];
      if vertex !in unique {
        StepNewVertex(refs, offset + j, vertices, indices, unique, firstSeen);
        unique := unique[vertex := |vertices|];
        vertices := vertices + [vertex];
        firstSeen := firstSeen + [offset + j];
      } else {
        StepKnownVertex(refs, offset + j, vertices, indices, unique, firstSeen);
      }
      indices := indices + [unique[vertex]];
      j := j + 1;
    }
  }

  /** Shape `s`'s references read inside the attribute arrays and build the
      mesh's vertices from position |FlattenUpTo(shapes, s)| on. */
  lemma ShapeVertices<F>(positions: seq<F>, texcoords: seq<F>, shapes: seq<seq<MeshIndex>>, one: F, flip: F -> F, s: nat)
    requires s < |shapes|
    requires MeshInAttributes(positions, texcoords, Flatten(shapes))
    ensures |FlattenUpTo(shapes, s)| + |shapes[s]| <= |Flatten(shapes)|
    ensures forall j :: 0 <= j < |shapes[s]| ==> InAttributes(positions, texcoords, shapes[s][j])
    ensures var refs := MeshVertices(positions, texcoords, Flatten(shapes), one, flip);
      forall j :: 0 <= j < |shapes[s]| ==>
        refs[|FlattenUpTo(shapes, s)| + j] == BuildVertex(positions, texcoords, shapes[s][j], one, flip)
  {
    ShapeInMesh(shapes, s);
    var offset := |FlattenUpTo(shapes, s)|;
    forall j | 0 <= j < |shapes[s]|
      ensures InAttributes(positions, texcoords, shapes[s][j])
    {
      assert Flatten(shapes)[offset + j] == shapes[s][j];
    }
  }

  /** The invariant over all references gives the promised properties. */
  lemma DedupFinal<F>(
    refs: seq<Vertex<F>>, vertices: seq<Vertex<F>>, indices: seq<nat>,
    unique: map<Vertex<F>, nat>, firstSeen: seq<nat>)
    requires DedupState(refs, |refs|, vertices, indices, unique, firstSeen)
    ensures Distinct(vertices)
    ensures forall v :: v in vertices <==> v in refs
    ensures forall a, b :: 0 <= a < b < |vertices| ==> FirstIndex(refs, vertices[a]) < FirstIndex(refs, vertices[b])
    ensures forall j, k :: 0 <= j < |refs| && 0 <= k < |refs| ==> (indices[j] == indices[k] <==> refs[j] == refs[k])
  {
    DedupDistinct(refs, vertices, indices, unique, firstSeen);
    DedupCovers(refs, vertices, indices, unique, firstSeen);
    DedupFirstSeen(refs, vertices, indices, unique, firstSeen);
    DedupSharedIndex(refs, vertices, indices, unique, firstSeen);
  }

  /** The vertex buffer never holds a vertex twice. */
  lemma DedupDistinct<F>(
    refs: seq<Vertex<F>>, vertices: seq<Vertex<F>>, indices: seq<nat>,
    unique: map<Vertex<F>, nat>, firstSeen: seq<nat>)
    requires DedupState(refs, |refs|, vertices, indices, unique, firstSeen)
    ensures Distinct(vertices)
  {
    forall a, b | 0 <= a < b < |vertices|
      ensures vertices[a] != vertices[b]
    {
      assert unique[vertices[a]] == a;
      assert unique[vertices[b]] == b;
    }
  }

  /** The vertex buffer holds exactly the referenced vertices. */
  lemma DedupCovers<F>(
    refs: seq<Vertex<F>>, vertices: seq<Vertex<F>>, indices: seq<nat>,
    unique: map<Vertex<F>, nat>, firstSeen: seq<nat>)
    requires DedupState(refs, |refs|, vertices, indices, unique, firstSeen)
    ensures forall v :: v in vertices <==> v in refs
  {
    forall v | v in refs
      ensures v in vertices
    {
      var k :| 0 <= k < |refs| && refs[k] == v;
      assert vertices[indices[k]] == v;
    }
  }

  /** The vertex buffer is in the order of first occurrence. */
  lemma DedupFirstSeen<F>(
    refs: seq<Vertex<F>>, vertices: seq<Vertex<F>>, indices: seq<nat>,
    unique: map<Vertex<F>, nat>, firstSeen: seq<nat>)
    requires DedupState(refs, |refs|, vertices, indices, unique, firstSeen)
    ensures forall a, b :: 0 <= a < b < |vertices| ==> FirstIndex(refs, vertices[a]) < FirstIndex(refs, vertices[b])
  {
    forall a | 0 <= a < |vertices|
      ensures FirstIndex(refs, vertices[a]) == firstSeen[a]
    {
      forall j | 0 <= j < firstSeen[a]
        ensures refs[j] != vertices[a]
      {
        assert unique[vertices[indices[j]]] == indices[j] && unique[vertices[a]] == a;
        assert firstSeen[indices[j]] <= j;
      }
      FirstIndexAt(refs, vertices[a], firstSeen[a]);
    }
  }

  /** Two references share an index exactly when they are the same vertex. */
  lemma DedupSharedIndex<F>(
    refs: seq<Vertex<F>>, vertices: seq<Vertex<F>>, indices: seq<nat>,
    unique: map<Vertex<F>, nat>, firstSeen: seq<nat>)
    requires DedupState(refs, |refs|, vertices, indices, unique, firstSeen)
    ensures forall j, k :: 0 <= j < |refs| && 0 <= k < |refs| ==> (indices[j] == indices[k] <==> refs[j] == refs[k])
  {
    forall j, k | 0 <= j < |refs| && 0 <= k < |refs| && refs[j] == refs[k]
      ensures indices[j] == indices[k]
    {
      assert unique[vertices[indices[j]]] == indices[j];
      assert unique[vertices[indices[k]]] == indices[k];
    }
  }
}
