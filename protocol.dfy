/** The agreements between the two sides of the boundary: what the guest reads
    back from what the host wrote, what the host reads from what the guest
    stored, and the mesh that arrives on the channel. */
module Protocol {
  import opened LinearMemory
  import opened HostCallbacks
  import opened GuestApi

  // --------------------------------------------------------- bounding box

  /** The host's box narrowed to float32, as the guest should see it. */
  function NarrowBox(conv: FloatConv, box: Box3): BoxF32
  {
    BoxF32(Float3(conv.narrow(box.min.x), conv.narrow(box.min.y), conv.narrow(box.min.z)),
           Float3(conv.narrow(box.max.x), conv.narrow(box.max.y), conv.narrow(box.max.z)))
  }

  /** sdf_aabb writes at address 0 and ExternSDF::default reads [[f32; 3]; 2]
      from address 0: the guest gets min and max of the host's box, each
      coordinate narrowed, in the right order. */
  lemma AabbThenDefault(conv: FloatConv, box: Box3, mem: seq<Byte>)
    requires AABB_SIZE <= |mem| <= WORD_RANGE
    ensures ExternSdfDefault(AabbImage(conv, box, mem), 0) == Some(NarrowBox(conv, box))
  {
    var r := AabbImage(conv, box, mem);
    var b := NarrowBox(conv, box);
    assert BoxWords(b) == BoxFloats(conv, box);
    forall i | 0 <= i < 6
      ensures r[4 * i..4 * i + 4] == EncodeLe(BoxWords(b)[i])
    {
      assert ReadWord(r, 4 * i) == Some(BoxFloats(conv, box)[i]);
    }
    HeldBoxIsRead(r, 0, b);
  }

  // ----------------------------------------------------------- evaluation

  /** approx_value's call: the guest stores [p.x, p.y, p.z] at q (12 bytes
      inside memory) and calls sdf_eval(q); the host evaluates exactly p. */
  function ApproxValue(field: Field, conv: FloatConv, mem: seq<Byte>, q: U32, p: Float3): (r: Outcome<F32>)
    requires q + 12 <= |mem| <= WORD_RANGE
    ensures r == Return(Evaluate32(field, conv, p))
  {
    // approx_value passes [p.x, p.y, p.z], in that order
    var arg := Coords(p);
    var stored := WriteRun(mem, q, arg);
    assert arg == [p.x, p.y, p.z];
    WriteRunSlot(mem, q, arg, 0);
    WriteRunSlot(mem, q, arg, 1);
    WriteRunSlot(mem, q, arg, 2);
    assert Add32(q, 4) == q + 4 && Add32(q, 8) == q + 8;
    EvalOutcome(field, conv, stored, q)
  }

  // ------------------------------------------------------------------ mesh

  /** The mesh the guest hands over, as the host receives it: both buffers in
      memory, passed with their element counts. */
  function Delivered(conv: FloatConv, mem: seq<Byte>, verticesPtr: U32, coords: seq<F32>,
                     indicesPtr: U32, indices: seq<U32>): Delivery
    requires |coords| < WORD_RANGE && |indices| < WORD_RANGE
  {
    var c := HandOff(verticesPtr, coords, indicesPtr, indices);
    Receive(conv, mem, c.verticesPtr, c.verticesLen, c.indicesPtr, c.indicesLen)
  }

  /** Buffers the guest keeps in memory are read back whole by the host:
      element counts and 4-byte steps agree, so the host rebuilds from
      exactly the guest's coordinates and indices. */
  lemma HandOffReadsBuffers(conv: FloatConv, mem: seq<Byte>, verticesPtr: U32, coords: seq<F32>,
                            indicesPtr: U32, indices: seq<U32>)
    requires |mem| <= WORD_RANGE
    requires Holds(mem, verticesPtr, coords) && Holds(mem, indicesPtr, indices)
    ensures |coords| < WORD_RANGE && |indices| < WORD_RANGE
    ensures Delivered(conv, mem, verticesPtr, coords, indicesPtr, indices) == Rebuild(conv, coords, indices)
  {
    ReadHeld(mem, verticesPtr, coords);
    ReadHeld(mem, indicesPtr, indices);
  }

  /** A mesh as DualContouring produces it: whole triangles, every index naming a vertex. */
  ghost predicate WellFormedMesh(coords: seq<F32>, indices: seq<U32>)
  {
    |indices| % 3 == 0 && forall k :: 0 <= k < |indices| ==> 3 * indices[k] + 3 <= |coords|
  }

  /** Corner j of a triangle. */
  function Corner(tri: Triangle3, j: nat): Vec3
    requires j < 3
  {
    if j == 0 then tri.v0 else if j == 1 then tri.v1 else tri.v2
  }

  /** A host vertex narrowed back to float32. */
  function Narrow(conv: FloatConv, v: Vec3): Float3
  {
    Float3(conv.narrow(v.x), conv.narrow(v.y), conv.narrow(v.z))
  }

  /** Face t of a well-formed mesh: its corners are the guest vertices its
      three indices name. */
  lemma WellFormedFace(conv: FloatConv, coords: seq<F32>, indices: seq<U32>, t: nat)
    requires |coords| < WORD_RANGE
    requires WellFormedMesh(coords, indices) && 3 * t + 3 <= |indices|
    ensures FaceAt(conv, coords, indices, t) ==
      Some(Triangle3(Widen(conv, GuestVertex(coords, indices[3 * t])),
                     Widen(conv, GuestVertex(coords, indices[3 * t + 1])),
                     Widen(conv, GuestVertex(coords, indices[3 * t + 2]))))
  {
    VertexInRange(conv, coords, indices[3 * t]);
    VertexInRange(conv, coords, indices[3 * t + 1]);
    VertexInRange(conv, coords, indices[3 * t + 2]);
  }

  /** Corner j of face t of a well-formed mesh is the vertex index 3t + j names. */
  lemma FaceCorner(conv: FloatConv, coords: seq<F32>, indices: seq<U32>, t: nat, j: nat)
    requires |coords| < WORD_RANGE
    requires WellFormedMesh(coords, indices) && 3 * t + 3 <= |indices| && j < 3
    ensures FaceAt(conv, coords, indices, t).Some?
    ensures Corner(FaceAt(conv, coords, indices, t).value, j) == Widen(conv, GuestVertex(coords, indices[3 * t + j]))
  {
    WellFormedFace(conv, coords, indices, t);
    var k := 3 * t + j;
    if j == 0 {
      assert k == 3 * t;
    } else if j == 1 {
      assert k == 3 * t + 1;
    } else {
      assert k == 3 * t + 2;
    }
  }

  /** The mesh round trip: a well-formed mesh handed over from memory arrives
      whole, without a panic, one triangle per three indices, in index order,
      corner j of triangle t being the vertex named by index 3t + j. */
  lemma MeshDelivered(conv: FloatConv, mem: seq<Byte>, verticesPtr: U32, coords: seq<F32>,
                      indicesPtr: U32, indices: seq<U32>)
    requires |mem| <= WORD_RANGE
    requires Holds(mem, verticesPtr, coords) && Holds(mem, indicesPtr, indices)
    requires WellFormedMesh(coords, indices)
    ensures |coords| < WORD_RANGE && |indices| < WORD_RANGE
    ensures Delivered(conv, mem, verticesPtr, coords, indicesPtr, indices).fault.None?
    ensures |Delivered(conv, mem, verticesPtr, coords, indicesPtr, indices).sent| == |indices| / 3
    ensures forall t, j :: 0 <= t < |indices| / 3 && 0 <= j < 3 ==>
      Corner(Delivered(conv, mem, verticesPtr, coords, indicesPtr, indices).sent[t], j) ==
      Widen(conv, GuestVertex(coords, indices[3 * t + j]))
  {
    HandOffReadsBuffers(conv, mem, verticesPtr, coords, indicesPtr, indices);
    var n := |indices| / 3;
    assert |indices| == 3 * n;
    forall t | 0 <= t < n
      ensures FaceAt(conv, coords, indices, t).Some?
    {
      WellFormedFace(conv, coords, indices, t);
    }
    RebuildComplete(conv, coords, indices);
    forall t, j | 0 <= t < n && 0 <= j < 3
      ensures Corner(Rebuild(conv, coords, indices).sent[t], j) == Widen(conv, GuestVertex(coords, indices[3 * t + j]))
    {
      FaceCorner(conv, coords, indices, t, j);
    }
  }

  /** Since widening float32 to float64 is exact, narrowing each received
      corner gives back the guest's float32 bits: after the scale-back, corner
      j of triangle t is the scaled-back vertex that index 3t + j names. */
  lemma MeshBitsRecovered(conv: FloatConv, scaleBack: Float3 -> Float3, mem: seq<Byte>,
                          verticesPtr: U32, extracted: seq<F32>, indicesPtr: U32, indices: seq<U32>)
    requires ExactWidening(conv)
    requires |mem| <= WORD_RANGE
    requires Holds(mem, verticesPtr, ScaledBack(scaleBack, extracted)) && Holds(mem, indicesPtr, indices)
    requires WellFormedMesh(extracted, indices)
    ensures |ScaledBack(scaleBack, extracted)| < WORD_RANGE && |indices| < WORD_RANGE
    ensures forall t, j :: 0 <= t < |indices| / 3 && 0 <= j < 3 ==>
      t < |Delivered(conv, mem, verticesPtr, ScaledBack(scaleBack, extracted), indicesPtr, indices).sent| &&
      Narrow(conv, Corner(Delivered(conv, mem, verticesPtr, ScaledBack(scaleBack, extracted), indicesPtr, indices).sent[t], j)) ==
      scaleBack(GuestVertex(extracted, indices[3 * t + j]))
  {
    var coords := ScaledBack(scaleBack, extracted);
    ScaledBackPointwise(scaleBack, extracted);
    assert WellFormedMesh(coords, indices);
    MeshDelivered(conv, mem, verticesPtr, coords, indicesPtr, indices);
    var d := Delivered(conv, mem, verticesPtr, coords, indicesPtr, indices);
    forall t, j | 0 <= t < |indices| / 3 && 0 <= j < 3
      ensures Narrow(conv, Corner(d.sent[t], j)) == scaleBack(GuestVertex(extracted, indices[3 * t + j]))
    {
      ScaledBackVertex(scaleBack, extracted, indices[3 * t + j]);
    }
  }
}
