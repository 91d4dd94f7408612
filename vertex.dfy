/** The `Vertex` record of App.h: its equality, its hash and the vertex-input
    descriptions handed to the pipeline. The float components are an abstract
    type `F` with equality; the component hashes of the glm vectors are
    parameters, since they come from the library. */
module VertexModel {
  import opened Vulkan

  datatype Vec2<F> = Vec2(x: F, y: F)
  datatype Vec3<F> = Vec3(x: F, y: F, z: F)

  datatype Vertex<F> = Vertex(pos: Vec3<F>, color: Vec3<F>, texCoord: Vec2<F>)

  /** `Vertex::operator==` (App.h:54-56): all three members equal. */
  predicate VertexEquals<F(==)>(a: Vertex<F>, b: Vertex<F>) {
    a.pos == b.pos && a.color == b.color && a.texCoord == b.texCoord
  }

  /** The operator is exactly equality of vertex values, so a map keyed on
      vertex values behaves as the `unordered_map` does. */
  lemma VertexEqualsIsEquality<F>(a: Vertex<F>, b: Vertex<F>)
    ensures VertexEquals(a, b) <==> a == b
  {
  }

  /** `std::hash<Vertex>` (App.h:59-67) on 64-bit `size_t`: the hash of the
      first two position components, xor the hash of the first two colour
      components shifted left, all shifted right, xor the hash of the first
      texture coordinate shifted left. `h2` and `h1` are glm's `vec2` and
      `vec1` hashes. */
  function VertexHash<F>(v: Vertex<F>, h2: (F, F) -> bv64, h1: F -> bv64): bv64 {
    ((h2(v.pos.x, v.pos.y) ^ (h2(v.color.x, v.color.y) << 1)) >> 1) ^ (h1(v.texCoord.x) << 1)
  }

  /** The hash reads only pos.xy, color.xy and texCoord.x: vertices that agree
      there hash alike whatever their other components, and in particular
      equal vertices hash equal (the requirement `unordered_map` places on a
      hash). */
  lemma HashReadsOnly<F>(a: Vertex<F>, b: Vertex<F>, h2: (F, F) -> bv64, h1: F -> bv64)
    requires a.pos.x == b.pos.x && a.pos.y == b.pos.y
    requires a.color.x == b.color.x && a.color.y == b.color.y
    requires a.texCoord.x == b.texCoord.x
    ensures VertexHash(a, h2, h1) == VertexHash(b, h2, h1)
  {
  }

  lemma HashConsistentWithEquals<F>(a: Vertex<F>, b: Vertex<F>, h2: (F, F) -> bv64, h1: F -> bv64)
    requires VertexEquals(a, b)
    ensures VertexHash(a, h2, h1) == VertexHash(b, h2, h1)
  {
    HashReadsOnly(a, b, h2, h1);
  }

  /** The texture coordinate's second component never reaches the hash. */
  lemma HashIgnoresTexCoordY<F>(v: Vertex<F>, t: F, h2: (F, F) -> bv64, h1: F -> bv64)
    ensures VertexHash(v.(texCoord := v.texCoord.(y := t)), h2, h1) == VertexHash(v, h2, h1)
  {
  }

  // ---------------------------------------------------------------------------
  // getBindingDescription, getAttributeDescriptions

  /** `sizeof(float)` for glm's single-precision components. */
  const FLOAT_BYTES: nat := 4

  /** The byte offsets of the members (`offsetof`): tightly packed floats. */
  const POS_OFFSET: nat := 0
  const COLOR_OFFSET: nat := 3 * FLOAT_BYTES
  const TEX_COORD_OFFSET: nat := 6 * FLOAT_BYTES

  /** `sizeof(Vertex)`: eight floats. */
  const VERTEX_SIZE: nat := 8 * FLOAT_BYTES

  datatype InputRate = PerVertex | PerInstance

  datatype BindingDescription = BindingDescription(binding: nat, stride: nat, inputRate: InputRate)

  datatype AttributeDescription = AttributeDescription(binding: nat, location: nat, format: Format, offset: nat)

  /** Components of the vertex formats used for attributes. */
  function ComponentCount(f: Format): nat {
    match f
    case R32G32B32Sfloat => 3
    case R32G32Sfloat => 2
    case _ => 0
  }

  /** Bytes one attribute of that format occupies. */
  function FormatBytes(f: Format): nat {
    ComponentCount(f) * FLOAT_BYTES
  }

  /** `getBindingDescription` (App.h:25-31). */
  function GetBindingDescription(): (r: BindingDescription)
    ensures r.binding == 0 && r.inputRate == PerVertex
    ensures r.stride == VERTEX_SIZE
  {
    BindingDescription(0, VERTEX_SIZE, PerVertex)
  }

  /** `getAttributeDescriptions` (App.h:33-52): three attributes on binding 0
      at locations 0, 1 and 2 for position, colour and texture coordinate. */
  function GetAttributeDescriptions(): (r: seq<AttributeDescription>)
    ensures |r| == 3
    ensures forall k :: 0 <= k < 3 ==> r[k].binding == 0 && r[k].location == k
    ensures ComponentCount(r[0].format) == 3 && ComponentCount(r[1].format) == 3 && ComponentCount(r[2].format) == 2
    ensures r[0].offset == POS_OFFSET && r[1].offset == COLOR_OFFSET && r[2].offset == TEX_COORD_OFFSET
  {
    [ AttributeDescription(0, 0, R32G32B32Sfloat, POS_OFFSET),
      AttributeDescription(0, 1, R32G32B32Sfloat, COLOR_OFFSET),
      AttributeDescription(0, 2, R32G32Sfloat, TEX_COORD_OFFSET) ]
  }

  /** The attributes and the binding agree: every attribute reads the binding
      the description declares, the attributes' byte ranges lie inside one
      stride and do not overlap, and together they cover the whole vertex. */
  lemma AttributesFitBinding()
    ensures var b := GetBindingDescription();
      var a := GetAttributeDescriptions();
      && (forall k :: 0 <= k < |a| ==> a[k].binding == b.binding)
      && (forall k :: 0 <= k < |a| ==> a[k].offset + FormatBytes(a[k].format) <= b.stride)
      && (forall k, l :: 0 <= k < l < |a| ==>
            a[k].offset + FormatBytes(a[k].format) <= a[l].offset)
      && FormatBytes(a[0].format) + FormatBytes(a[1].format) + FormatBytes(a[2].format) == b.stride
  {
  }
}
