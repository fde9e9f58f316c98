/** The three host functions the guest imports from module "env":
    sdf_aabb, sdf_eval and sdf_mesh_receiver, over the guest's linear memory,
    with the distance field and the output channel they capture. */
module HostCallbacks {
  import opened LinearMemory

  /** sdf.V3: a host-side point, three float64 coordinates. */
  datatype Vec3 = Vec3(x: F64, y: F64, z: F64)

  /** sdf.Box3: min and max corners. */
  datatype Box3 = Box3(min: Vec3, max: Vec3)

  /** render.Triangle3: three vertices, in the winding order received. */
  datatype Triangle3 = Triangle3(v0: Vec3, v1: Vec3, v2: Vec3)

  /** The borrowed sdf.SDF3: its bounding box and its evaluation. */
  datatype Field = Field(boundingBox: Box3, evaluate: Vec3 -> F64)

  /** Go's float32(x) narrowing and float64(x) widening, left uninterpreted. */
  datatype FloatConv = FloatConv(narrow: F64 -> F32, widen: F32 -> F64)

  /** A float32 point widened coordinate by coordinate to a float64 one. */
  function Widen(conv: FloatConv, q: Float3): Vec3
  {
    Vec3(conv.widen(q.x), conv.widen(q.y), conv.widen(q.z))
  }

  /** Widening a float32 to float64 is exact: narrowing gives the same bits back. */
  ghost predicate ExactWidening(conv: FloatConv)
  {
    forall f: F32 :: conv.narrow(conv.widen(f)) == f
  }

  /** Why a callback panics: log.Panicln after a failed memory read, or Go's
      run-time check of a slice index. */
  datatype Fault = MemoryOutOfRange | IndexOutOfRange

  /** A callback that returns a value or panics. */
  datatype Outcome<T> = Return(value: T) | Panic(fault: Fault)

  /** What one sdf_mesh_receiver call sent on the channel, in order, and the
      panic that ended it, if any. */
  datatype Delivery = Delivery(sent: seq<Triangle3>, fault: Option<Fault>)

  // ---------------------------------------------------------------- sdf_aabb

  /** Byte size of the [[f32; 3]; 2] bounding box that sdf_aabb stores at address 0. */
  const AABB_SIZE: nat := 24

  /** The six float32 sdf_aabb stores: min.x, min.y, min.z, max.x, max.y, max.z. */
  function BoxFloats(conv: FloatConv, box: Box3): (r: seq<F32>)
    ensures |r| == 6
  {
    [conv.narrow(box.min.x), conv.narrow(box.min.y), conv.narrow(box.min.z),
     conv.narrow(box.max.x), conv.narrow(box.max.y), conv.narrow(box.max.z)]
  }

  /** The words fs written one after the other from byte off, each write
      done only if it fits and its result discarded. */
  function WriteRun(mem: seq<Byte>, off: U32, fs: seq<F32>): (r: seq<Byte>)
    requires off + 4 * |fs| <= WORD_RANGE
    ensures |r| == |mem|
    decreases |fs|
  {
    if fs == [] then mem
    else WriteWord(WriteRun(mem, off, fs[..|fs| - 1]), off + 4 * (|fs| - 1), fs[|fs| - 1])
  }

  /** A run of writes stores each word that fits at its slot, and changes no
      byte outside the slots that fit. */
  lemma {:induction false} WriteRunStores(mem: seq<Byte>, off: U32, fs: seq<F32>)
    requires off + 4 * |fs| <= WORD_RANGE
    ensures forall j :: 0 <= j < |fs| && off + 4 * j + 4 <= |mem| ==>
      ReadWord(WriteRun(mem, off, fs), off + 4 * j) == Some(fs[j])
    ensures forall k :: 0 <= k < |mem| && !RunCovers(|mem|, off, |fs|, k) ==> WriteRun(mem, off, fs)[k] == mem[k]
    decreases |fs|
  {
    if fs != [] {
      var n := |fs| - 1;
      var prev := WriteRun(mem, off, fs[..n]);
      var r := WriteRun(mem, off, fs);
      WriteRunStores(mem, off, fs[..n]);
      assert r == WriteWord(prev, off + 4 * n, fs[n]);
      forall j | 0 <= j < n && off + 4 * j + 4 <= |mem|
        ensures ReadWord(r, off + 4 * j) == Some(fs[j])
      {
        ReadWordFrame(r, prev, off + 4 * j);
      }
      forall k | 0 <= k < |mem| && !RunCovers(|mem|, off, |fs|, k)
        ensures r[k] == mem[k]
      {
        if off <= k < off + 4 * n {
          assert (k - off) / 4 < n;
        }
        if off + 4 * n <= k < off + 4 * n + 4 {
          assert (k - off) / 4 == n;
        }
      }
    }
  }

  /** Slot j of a run of writes that fits reads back as the j-th word. */
  lemma WriteRunSlot(mem: seq<Byte>, off: U32, fs: seq<F32>, j: nat)
    requires off + 4 * |fs| <= WORD_RANGE
    requires j < |fs| && off + 4 * j + 4 <= |mem|
    ensures ReadWord(WriteRun(mem, off, fs), off + 4 * j) == Some(fs[j])
  {
    WriteRunStores(mem, off, fs);
  }

  /** Byte k is replaced by a run of n writes from off into a memory of the
      given size: it lies in one of the n slots, and that slot fits. */
  predicate RunCovers(size: nat, off: nat, n: nat, k: nat)
  {
    off <= k < off + 4 * n && off + (k - off) / 4 * 4 + 4 <= size
  }

  /** The memory after sdf_aabb: the box's six float32 at bytes 0, 4, ..., 20
      (each one that fits), every other byte as it was. */
  function AabbImage(conv: FloatConv, box: Box3, mem: seq<Byte>): (r: seq<Byte>)
    ensures |r| == |mem|
    ensures forall j :: 0 <= j < 6 && 4 * j + 4 <= |mem| ==> ReadWord(r, 4 * j) == Some(BoxFloats(conv, box)[j])
    ensures forall k :: AABB_SIZE <= k < |mem| ==> r[k] == mem[k]
  {
    WriteRunStores(mem, 0, BoxFloats(conv, box));
    WriteRun(mem, 0, BoxFloats(conv, box))
  }

  // ---------------------------------------------------------------- sdf_eval

  /** The three float32 sdf_eval reads at p, p+4 and p+8 (uint32 offsets),
      or None if one of the reads is out of range. */
  function PointAt(mem: seq<Byte>, p: U32): Option<Float3>
  {
    match (ReadWord(mem, p), ReadWord(mem, Add32(p, 4)), ReadWord(mem, Add32(p, 8)))
    case (Some(x), Some(y), Some(z)) => Some(Float3(x, y, z))
    case _ => None
  }

  /** float32(Evaluate(V3{float64(x), float64(y), float64(z)})) */
  function Evaluate32(field: Field, conv: FloatConv, q: Float3): F32
  {
    conv.narrow(field.evaluate(Widen(conv, q)))
  }

  /** What sdf_eval answers for the pointer p: the field at the point stored there. */
  function EvalOutcome(field: Field, conv: FloatConv, mem: seq<Byte>, p: U32): Outcome<F32>
  {
    match PointAt(mem, p)
    case None => Panic(MemoryOutOfRange)
    case Some(q) => Return(Evaluate32(field, conv, q))
  }

  /** sdf_eval on a buffer of x, y, z the guest stored contiguously at p:
      it evaluates exactly that point. */
  lemma EvalReadsHeldPoint(field: Field, conv: FloatConv, mem: seq<Byte>, p: U32, q: Float3)
    requires |mem| <= WORD_RANGE
    requires Holds(mem, p, [q.x, q.y, q.z])
    ensures EvalOutcome(field, conv, mem, p) == Return(Evaluate32(field, conv, q))
  {
    var ws := [q.x, q.y, q.z];
    ReadHeldWord(mem, p, ws, 0);
    ReadHeldWord(mem, p, ws, 1);
    ReadHeldWord(mem, p, ws, 2);
    assert Add32(p, 4) == p + 4 && Add32(p, 8) == p + 8;
  }

  /** While the memory is below 4 GiB - 8 bytes, sdf_eval panics exactly when
      the 12 bytes at p do not all lie in memory. */
  lemma EvalBoundsCheck(field: Field, conv: FloatConv, mem: seq<Byte>, p: U32)
    requires |mem| <= WORD_RANGE - 8
    ensures EvalOutcome(field, conv, mem, p).Panic? <==> p + 12 > |mem|
    ensures EvalOutcome(field, conv, mem, p).Panic? ==> EvalOutcome(field, conv, mem, p).fault == MemoryOutOfRange
  {
    if p + 4 <= |mem| {
      assert Add32(p, 4) == p + 4 && Add32(p, 8) == p + 8;
    }
  }

  /** With the largest (4 GiB) memory, the offsets p+4 and p+8 wrap around:
      a point stored across the top of memory is read partly from address 0. */
  lemma EvalWrapsAtTopOfMemory(field: Field, conv: FloatConv, mem: seq<Byte>)
    requires |mem| == WORD_RANGE
    ensures PointAt(mem, WORD_RANGE - 4) ==
      Some(Float3(ReadWord(mem, WORD_RANGE - 4).value, ReadWord(mem, 0).value, ReadWord(mem, 4).value))
    ensures EvalOutcome(field, conv, mem, WORD_RANGE - 4).Return?
  {
    assert Add32(WORD_RANGE - 4, 4) == 0;
    assert Add32(WORD_RANGE - 4, 8) == 4;
  }

  // ------------------------------------------------------- sdf_mesh_receiver

  /** Position of coordinate j of vertex `index` in the coordinate slice, as
      Go computes it: index*3, then +j, both in uint32 arithmetic. */
  function CoordPos(index: U32, j: U32): U32
  {
    Add32((index * 3) % WORD_RANGE, j)
  }

  /** The vertex `index` names: coordinates at index*3, +1, +2, widened to
      float64; None when one of them is past the end of the slice. */
  function Vertex(conv: FloatConv, coords: seq<F32>, index: U32): Option<Vec3>
  {
    var i0, i1, i2 := CoordPos(index, 0), CoordPos(index, 1), CoordPos(index, 2);
    if i0 < |coords| && i1 < |coords| && i2 < |coords| then
      Some(Widen(conv, Float3(coords[i0], coords[i1], coords[i2])))
    else
      None
  }

  /** For an index whose coordinate positions do not wrap, the lookup succeeds
      exactly when the whole vertex lies in the slice, and yields its three
      coordinates in order. */
  lemma VertexInRange(conv: FloatConv, coords: seq<F32>, index: U32)
    requires 3 * index + 2 < WORD_RANGE
    ensures Vertex(conv, coords, index).Some? <==> 3 * index + 2 < |coords|
    ensures Vertex(conv, coords, index).Some? ==>
      Vertex(conv, coords, index).value ==
        Widen(conv, Float3(coords[3 * index], coords[3 * index + 1], coords[3 * index + 2]))
  {
    assert CoordPos(index, 0) == 3 * index;
    assert CoordPos(index, 1) == 3 * index + 1;
    assert CoordPos(index, 2) == 3 * index + 2;
  }

  /** Face t: the triangle from indices 3t, 3t+1, 3t+2, or None when one of
      those indices is missing or one of its vertex lookups is out of range. */
  function FaceAt(conv: FloatConv, coords: seq<F32>, indices: seq<U32>, t: nat): Option<Triangle3>
  {
    if 3 * t + 2 < |indices| then
      match (Vertex(conv, coords, indices[3 * t]), Vertex(conv, coords, indices[3 * t + 1]),
             Vertex(conv, coords, indices[3 * t + 2]))
      case (Some(a), Some(b), Some(c)) => Some(Triangle3(a, b, c))
      case _ => None
    else
      None
  }

  /** The triangle loop of sdf_mesh_receiver: faces are sent in order until the
      index slice is used up, or until a face cannot be built, which panics. */
  function Rebuild(conv: FloatConv, coords: seq<F32>, indices: seq<U32>): Delivery
    decreases |indices|
  {
    if |indices| == 0 then
      Delivery([], None)
    else
      match FaceAt(conv, coords, indices, 0)
      case None => Delivery([], Some(IndexOutOfRange))
      case Some(tri) =>
        var rest := Rebuild(conv, coords, indices[3..]);
        Delivery([tri] + rest.sent, rest.fault)
  }

  /** What the triangle loop sends: faces 0, 1, ... in index order, each built
      from its own three indices; it stops without a panic only after the last
      index, and otherwise panics at the first face that cannot be built. */
  lemma {:induction false} RebuildSendsFaces(conv: FloatConv, coords: seq<F32>, indices: seq<U32>)
    ensures var d := Rebuild(conv, coords, indices);
      3 * |d.sent| <= |indices| &&
      (forall t :: 0 <= t < |d.sent| ==> FaceAt(conv, coords, indices, t) == Some(d.sent[t])) &&
      (d.fault.None? ==> 3 * |d.sent| == |indices|) &&
      (d.fault.Some? ==> d.fault == Some(IndexOutOfRange) && 3 * |d.sent| < |indices| &&
                         FaceAt(conv, coords, indices, |d.sent|).None?)
    decreases |indices|
  {
    if |indices| > 0 && FaceAt(conv, coords, indices, 0).Some? {
      RebuildSendsFaces(conv, coords, indices[3..]);
      forall t: nat
        ensures FaceAt(conv, coords, indices[3..], t) == FaceAt(conv, coords, indices, t + 1)
      {
        if 3 * t + 2 < |indices| - 3 {
          assert indices[3..][3 * t] == indices[3 * (t + 1)];
          assert indices[3..][3 * t + 1] == indices[3 * (t + 1) + 1];
          assert indices[3..][3 * t + 2] == indices[3 * (t + 1) + 2];
        }
      }
    }
  }

  /** One step of the triangle loop: the first face built, then the rest. */
  lemma RebuildStep(conv: FloatConv, coords: seq<F32>, indices: seq<U32>, tri: Triangle3)
    requires FaceAt(conv, coords, indices, 0) == Some(tri)
    ensures Rebuild(conv, coords, indices) ==
      Delivery([tri] + Rebuild(conv, coords, indices[3..]).sent, Rebuild(conv, coords, indices[3..]).fault)
  {
  }

  /** One step of the triangle loop: the first face cannot be built. */
  lemma RebuildStop(conv: FloatConv, coords: seq<F32>, indices: seq<U32>)
    requires |indices| > 0 && FaceAt(conv, coords, indices, 0).None?
    ensures Rebuild(conv, coords, indices) == Delivery([], Some(IndexOutOfRange))
  {
  }

  /** A well-formed mesh: with a multiple of 3 indices whose faces can all be
      built, every face is sent, in index order, and nothing panics. */
  lemma RebuildComplete(conv: FloatConv, coords: seq<F32>, indices: seq<U32>)
    requires |indices| % 3 == 0
    requires forall t :: 0 <= t < |indices| / 3 ==> FaceAt(conv, coords, indices, t).Some?
    ensures Rebuild(conv, coords, indices).fault.None?
    ensures |Rebuild(conv, coords, indices).sent| == |indices| / 3
    ensures forall t :: 0 <= t < |indices| / 3 ==>
      Rebuild(conv, coords, indices).sent[t] == FaceAt(conv, coords, indices, t).value
  {
    RebuildSendsFaces(conv, coords, indices);
  }

  /** The first face that cannot be built (a missing index, or a coordinate
      position past the end) panics; exactly the faces before it were sent. */
  lemma RebuildStopsAtBadFace(conv: FloatConv, coords: seq<F32>, indices: seq<U32>, t: nat)
    requires 3 * t < |indices|
    requires FaceAt(conv, coords, indices, t).None?
    requires forall u :: 0 <= u < t ==> FaceAt(conv, coords, indices, u).Some?
    ensures Rebuild(conv, coords, indices).fault == Some(IndexOutOfRange)
    ensures |Rebuild(conv, coords, indices).sent| == t
  {
    RebuildSendsFaces(conv, coords, indices);
  }

  /** A trailing partial face (|indices| not a multiple of 3) panics after all
      complete faces have been sent, if those could be built. */
  lemma RebuildPartialFace(conv: FloatConv, coords: seq<F32>, indices: seq<U32>)
    requires |indices| % 3 != 0
    requires forall t :: 0 <= t < |indices| / 3 ==> FaceAt(conv, coords, indices, t).Some?
    ensures Rebuild(conv, coords, indices).fault == Some(IndexOutOfRange)
    ensures |Rebuild(conv, coords, indices).sent| == |indices| / 3
  {
    RebuildStopsAtBadFace(conv, coords, indices, |indices| / 3);
  }

  /** The coordinate positions wrap in uint32: index 0x5555_5556 (far past any
      vertex) lands on positions 2, 3, 4 and is accepted without a panic. */
  lemma VertexIndexWrapsAround(conv: FloatConv, coords: seq<F32>)
    requires |coords| >= 5
    ensures Vertex(conv, coords, 0x5555_5556) ==
      Some(Widen(conv, Float3(coords[2], coords[3], coords[4])))
  {
    assert (0x5555_5556 * 3) % WORD_RANGE == 2;
  }

  /** Everything sdf_mesh_receiver does: read verticesLen float32 from
      verticesPtr, then indicesLen uint32 from indicesPtr, then rebuild and
      send the triangles. */
  function Receive(conv: FloatConv, mem: seq<Byte>, verticesPtr: U32, verticesLen: U32,
                   indicesPtr: U32, indicesLen: U32): (d: Delivery)
    ensures d.fault == Some(MemoryOutOfRange) <==>
      ReadWords(mem, verticesPtr, verticesLen).None? || ReadWords(mem, indicesPtr, indicesLen).None?
    ensures d.fault == Some(MemoryOutOfRange) ==> d.sent == []
  {
    match (ReadWords(mem, verticesPtr, verticesLen), ReadWords(mem, indicesPtr, indicesLen))
    case (Some(coords), Some(indices)) =>
      RebuildSendsFaces(conv, coords, indices);
      Rebuild(conv, coords, indices)
    case _ => Delivery([], Some(MemoryOutOfRange))
  }

  /** One copy loop of sdf_mesh_receiver: n words read from ptr, memIndex
      advancing by 4 (uint32) per word; ok is false at the first failed read. */
  method CopyWords(mem: array<Byte>, ptr: U32, n: U32) returns (ws: seq<U32>, ok: bool)
    ensures ok <==> ReadWords(mem[..], ptr, n).Some?
    ensures ok ==> ReadWords(mem[..], ptr, n) == Some(ws)
  {
    var memIndex := ptr;
    ws := [];
    var i := 0;
    while i < n
      invariant 0 <= i <= n
      invariant memIndex == WordAddr(ptr, i)
      invariant ReadWords(mem[..], ptr, i) == Some(ws)
    {
      var w, read := ReadUint32Le(mem, memIndex);
      if !read {
        ReadWordsFail(mem[..], ptr, i, n);
        return ws, false;
      }
      ReadWordsStep(mem[..], ptr, i, ws, w);
      ws := ws + [w];
      WordAddrNext(ptr, i);
      memIndex := Add32(memIndex, 4);
      i := i + 1;
    }
    ok := true;
  }

  /** An empty mesh (no coordinates, no indices) sends nothing and does not
      panic, wherever the pointers point. */
  lemma ReceiveEmptyMesh(conv: FloatConv, mem: seq<Byte>, verticesPtr: U32, indicesPtr: U32)
    ensures Receive(conv, mem, verticesPtr, 0, indicesPtr, 0) == Delivery([], None)
  {
    assert ReadWords(mem, verticesPtr, 0) == Some([]);
    assert ReadWords(mem, indicesPtr, 0) == Some([]);
  }

  // ----------------------------------------------------------- the host object

  /** The host struct: the field and the output channel captured by the three
      callbacks. The channel is modelled by everything sent on it so far. */
  class Host {
    const field: Field
    const conv: FloatConv
    var output: seq<Triangle3>

    constructor (field: Field, conv: FloatConv)
      ensures this.field == field && this.conv == conv && output == []
    {
      this.field := field;
      this.conv := conv;
      output := [];
    }

    /** sdf_aabb: six float32 writes at 0, 4, ..., 20, whose results are ignored. */
    method Aabb(mem: array<Byte>)
      requires mem.Length <= WORD_RANGE
      modifies mem
      ensures mem[..] == AabbImage(conv, field.boundingBox, old(mem[..]))
    {
      var box := field.boundingBox;
      var fs := BoxFloats(conv, box);
      ghost var m0 := mem[..];
      var _ := WriteFloat32Le(mem, 0, conv.narrow(box.min.x));
      assert mem[..] == WriteRun(m0, 0, fs[..1]);
      var _ := WriteFloat32Le(mem, 4, conv.narrow(box.min.y));
      assert fs[..2][..1] == fs[..1];
      assert mem[..] == WriteRun(m0, 0, fs[..2]);
      var _ := WriteFloat32Le(mem, 8, conv.narrow(box.min.z));
      assert fs[..3][..2] == fs[..2];
      assert mem[..] == WriteRun(m0, 0, fs[..3]);
      var _ := WriteFloat32Le(mem, 12, conv.narrow(box.max.x));
      assert fs[..4][..3] == fs[..3];
      assert mem[..] == WriteRun(m0, 0, fs[..4]);
      var _ := WriteFloat32Le(mem, 16, conv.narrow(box.max.y));
      assert fs[..5][..4] == fs[..4];
      assert mem[..] == WriteRun(m0, 0, fs[..5]);
      var _ := WriteFloat32Le(mem, 20, conv.narrow(box.max.z));
      assert fs[..6][..5] == fs[..5];
      assert fs[..6] == fs;
    }

    /** sdf_eval: read x, y, z at p, p+4, p+8, panicking on the first read out
      of range, and return the field's value there as float32. Memory is only read. */
    method Eval(mem: array<Byte>, p: U32) returns (r: Outcome<F32>)
      ensures r == EvalOutcome(field, conv, mem[..], p)
    {
      var x, ok := ReadFloat32Le(mem, p);
      if !ok {
        return Panic(MemoryOutOfRange);
      }
      var y, ok2 := ReadFloat32Le(mem, Add32(p, 4));
      if !ok2 {
        return Panic(MemoryOutOfRange);
      }
      var z, ok3 := ReadFloat32Le(mem, Add32(p, 8));
      if !ok3 {
        return Panic(MemoryOutOfRange);
      }
      return Return(Evaluate32(field, conv, Float3(x, y, z)));
    }

    /** sdf_mesh_receiver: copy verticesLen float32 and then indicesLen uint32
      out of memory, then send one triangle per index triple on the channel, in
      order. A failed read panics before anything is sent. */
    method MeshReceiver(mem: array<Byte>, verticesPtr: U32, verticesLen: U32, indicesPtr: U32, indicesLen: U32)
      returns (fault: Option<Fault>)
      modifies this
      ensures output == old(output) + Receive(conv, mem[..], verticesPtr, verticesLen, indicesPtr, indicesLen).sent
      ensures fault == Receive(conv, mem[..], verticesPtr, verticesLen, indicesPtr, indicesLen).fault
    {
      var vertexCoords, ok := CopyWords(mem, verticesPtr, verticesLen);
      if !ok {
        return Some(MemoryOutOfRange);
      }
      var indices, ok2 := CopyWords(mem, indicesPtr, indicesLen);
      if !ok2 {
        return Some(MemoryOutOfRange);
      }
      fault := SendTriangles(vertexCoords, indices);
    }

    /** The triangle loop of sdf_mesh_receiver: one triangle per index triple,
      sent in order, until the indices run out or a face panics. */
    method SendTriangles(vertexCoords: seq<F32>, indices: seq<U32>) returns (fault: Option<Fault>)
      modifies this
      ensures output == old(output) + Rebuild(conv, vertexCoords, indices).sent
      ensures fault == Rebuild(conv, vertexCoords, indices).fault
    {
      ghost var all := Rebuild(conv, vertexCoords, indices);
      var faceIndex := 0;
      assert indices[faceIndex..] == indices;
      while faceIndex < |indices|
        invariant 0 <= faceIndex <= |indices|
        invariant old(output) + all.sent == output + Rebuild(conv, vertexCoords, indices[faceIndex..]).sent
        invariant Rebuild(conv, vertexCoords, indices[faceIndex..]).fault == all.fault
      {
        ghost var rest := indices[faceIndex..];
        var index0 := indices[faceIndex];
        if faceIndex + 1 >= |indices| {
          RebuildStop(conv, vertexCoords, rest);
          return Some(IndexOutOfRange);
        }
        var index1 := indices[faceIndex + 1];
        if faceIndex + 2 >= |indices| {
          RebuildStop(conv, vertexCoords, rest);
          return Some(IndexOutOfRange);
        }
        var index2 := indices[faceIndex + 2];
        var vertex0 := Vertex(conv, vertexCoords, index0);
        var vertex1 := Vertex(conv, vertexCoords, index1);
        var vertex2 := Vertex(conv, vertexCoords, index2);
        assert rest[0] == index0 && rest[1] == index1 && rest[2] == index2;
        if vertex0.None? || vertex1.None? || vertex2.None? {
          RebuildStop(conv, vertexCoords, rest);
          return Some(IndexOutOfRange);
        }
        var tri := Triangle3(vertex0.value, vertex1.value, vertex2.value);
        RebuildStep(conv, vertexCoords, rest, tri);
        assert rest[3..] == indices[faceIndex + 3..];
        ghost var after := Rebuild(conv, vertexCoords, indices[faceIndex + 3..]);
        assert Rebuild(conv, vertexCoords, rest).sent == [tri] + after.sent;
        assert output + ([tri] + after.sent) == (output + [tri]) + after.sent;
        output := output + [tri];
        faceIndex := faceIndex + 3;
      }
      assert indices[faceIndex..] == [];
      return None;
    }
  }
}
