/** The guest side of the boundary (the Rust crate compiled to wasm32):
    the grid size it derives from mesh_cells, the in-place scale-back of the
    extracted vertices, and the memory layouts it shares with the host. */
module GuestApi {
  import opened LinearMemory

  // ------------------------------------------------------ next_power_of_two

  predicate IsPowerOfTwo(x: bv32)
  {
    x != 0 && (x & (x - 1)) == 0
  }

  /** r is the least power of two that is at least n. */
  ghost predicate IsCeilPowerOfTwo(n: bv32, r: bv32)
  {
    IsPowerOfTwo(r) && n <= r &&
    forall q {:trigger IsPowerOfTwo(q)} :: IsPowerOfTwo(q) && n <= q ==> r <= q
  }

  /** A power of two above half of another power of two is at least that power. */
  lemma PowerAboveHalf(r: bv32, q: bv32)
    requires IsPowerOfTwo(r) && IsPowerOfTwo(q) && r >> 1 < q
    ensures r <= q
  {
  }

  /** A power of two at least n whose half is below n is the least one. */
  lemma HalfBelowIsCeil(n: bv32, r: bv32)
    requires IsPowerOfTwo(r) && n <= r && r >> 1 < n
    ensures IsCeilPowerOfTwo(n, r)
  {
    forall q | IsPowerOfTwo(q) && n <= q
      ensures r <= q
    {
      PowerAboveHalf(r, q);
    }
  }

  /** There is only one least power of two at least n. */
  lemma CeilPowerOfTwoUnique(n: bv32, r: bv32, s: bv32)
    requires IsCeilPowerOfTwo(n, r) && IsCeilPowerOfTwo(n, s)
    ensures r == s
  {
    assert r <= s && s <= r;
  }

  /** The least power of two at least n (n > 0) is below 2n. */
  lemma CeilPowerOfTwoBelowDouble(n: bv32, r: bv32)
    requires 0 < n && IsCeilPowerOfTwo(n, r)
    ensures r as int < 2 * n as int
  {
    if r != 1 {
      var h := r >> 1;
      assert IsPowerOfTwo(h);
      assert h < n;
      assert r as int == 2 * h as int;
    }
  }

  /** A power of two is its own ceiling; so the ceiling of a ceiling is
      itself, and next_power_of_two maps a power of two to itself. */
  lemma PowerOfTwoIsOwnCeil(n: bv32)
    requires IsPowerOfTwo(n)
    ensures IsCeilPowerOfTwo(n, n)
  {
  }

  /** next_power_of_two(mesh_cells): subtract one, smear the highest set bit
      into every lower bit, add one, all in wrapping u32 arithmetic (the
      release build). */
  method NextPowerOfTwo(meshCells: bv32) returns (r: bv32)
    ensures 0 < meshCells <= 0x8000_0000 ==> IsCeilPowerOfTwo(meshCells, r)
    ensures meshCells == 0 || meshCells > 0x8000_0000 ==> r == 0
    ensures IsPowerOfTwo(meshCells) ==> r == meshCells
  {
    var m := meshCells;
    m := m - 1;
    m := m | (m >> 1);
    m := m | (m >> 2);
    m := m | (m >> 4);
    m := m | (m >> 8);
    m := m | (m >> 16);
    m := m + 1;
    r := m;
    if 0 < meshCells <= 0x8000_0000 {
      assert IsPowerOfTwo(r) && meshCells <= r && r >> 1 < meshCells;
      HalfBelowIsCeil(meshCells, r);
      if IsPowerOfTwo(meshCells) {
        PowerOfTwoIsOwnCeil(meshCells);
        CeilPowerOfTwoUnique(meshCells, r, meshCells);
      }
    }
  }

  // -------------------------------------------------------------- scale-back

  /** The triple of coordinates a vertex becomes. */
  function Coords(v: Float3): seq<F32>
  {
    [v.x, v.y, v.z]
  }

  /** Vertex i of a flat buffer of x, y, z coordinates. */
  function GuestVertex(coords: seq<F32>, i: nat): Float3
    requires 3 * i + 3 <= |coords|
  {
    Float3(coords[3 * i], coords[3 * i + 1], coords[3 * i + 2])
  }

  /** The vertex buffer after the scale-back loop: every complete chunk of
      three coordinates replaced by scaleBack of that vertex, chunk by chunk
      as chunks_exact_mut(3) yields them; a shorter tail is left alone. */
  function ScaledBack(scaleBack: Float3 -> Float3, coords: seq<F32>): seq<F32>
    decreases |coords|
  {
    if |coords| < 3 then coords
    else Coords(scaleBack(GuestVertex(coords, 0))) + ScaledBack(scaleBack, coords[3..])
  }

  /** Coordinate k after the scale-back, read off the vertex it belongs to. */
  function ScaledCoord(scaleBack: Float3 -> Float3, coords: seq<F32>, k: nat): F32
    requires k < |coords|
  {
    var i := k / 3;
    if 3 * i + 3 <= |coords| then
      Coords(scaleBack(GuestVertex(coords, i)))[k % 3]
    else
      coords[k]
  }

  /** The scale-back keeps the length, replaces vertex i (coordinates 3i,
      3i+1, 3i+2) by its image, and leaves the length % 3 trailing
      coordinates untouched. */
  lemma {:induction false} ScaledBackPointwise(scaleBack: Float3 -> Float3, coords: seq<F32>)
    ensures |ScaledBack(scaleBack, coords)| == |coords|
    ensures forall k :: 0 <= k < |coords| ==> ScaledBack(scaleBack, coords)[k] == ScaledCoord(scaleBack, coords, k)
    decreases |coords|
  {
    if |coords| >= 3 {
      var rest := coords[3..];
      ScaledBackPointwise(scaleBack, rest);
      var r := ScaledBack(scaleBack, coords);
      forall k | 0 <= k < |coords|
        ensures r[k] == ScaledCoord(scaleBack, coords, k)
      {
        if k >= 3 {
          assert r[k] == ScaledBack(scaleBack, rest)[k - 3];
          assert (k - 3) / 3 == k / 3 - 1 && (k - 3) % 3 == k % 3;
          assert ScaledCoord(scaleBack, rest, k - 3) == ScaledCoord(scaleBack, coords, k);
        }
      }
    }
  }

  /** Scaling back a buffer made of whole vertices followed by more
      coordinates scales back each part on its own. */
  lemma {:induction false} ScaledBackAppend(scaleBack: Float3 -> Float3, n: nat, a: seq<F32>, b: seq<F32>)
    requires |a| == 3 * n
    ensures ScaledBack(scaleBack, a + b) == ScaledBack(scaleBack, a) + ScaledBack(scaleBack, b)
    decreases n
  {
    if n > 0 {
      assert (a + b)[3..] == a[3..] + b;
      ScaledBackAppend(scaleBack, n - 1, a[3..], b);
    } else {
      assert a + b == b;
    }
  }

  /** One more vertex of the loop: the scaled prefix grows by that vertex's image. */
  lemma ScaleBackStep(scaleBack: Float3 -> Float3, coords: seq<F32>, i: nat)
    requires 3 * i + 3 <= |coords|
    ensures ScaledBack(scaleBack, coords[..3 * i + 3]) ==
      ScaledBack(scaleBack, coords[..3 * i]) +
      Coords(scaleBack(GuestVertex(coords, i)))
  {
    var t := coords[3 * i..3 * i + 3];
    assert coords[..3 * i + 3] == coords[..3 * i] + t;
    ScaledBackAppend(scaleBack, i, coords[..3 * i], t);
    assert t[3..] == [];
  }

  /** After the scale-back, vertex i of the buffer is scaleBack of vertex i before it. */
  lemma ScaledBackVertex(scaleBack: Float3 -> Float3, coords: seq<F32>, i: nat)
    requires 3 * i + 3 <= |coords|
    ensures |ScaledBack(scaleBack, coords)| == |coords|
    ensures GuestVertex(ScaledBack(scaleBack, coords), i) == scaleBack(GuestVertex(coords, i))
  {
    ScaledBackPointwise(scaleBack, coords);
    var k := 3 * i;
    assert k / 3 == i && (k + 1) / 3 == i && (k + 2) / 3 == i;
    assert k % 3 == 0 && (k + 1) % 3 == 1 && (k + 2) % 3 == 2;
  }

  /** Overwriting the three coordinates after a prefix with those of v. */
  lemma OverwriteTriple(prefix: seq<F32>, rest: seq<F32>, v: Float3)
    requires |rest| >= 3
    ensures (prefix + rest)[|prefix| := v.x][|prefix| + 1 := v.y][|prefix| + 2 := v.z]
      == prefix + Coords(v) + rest[3..]
  {
  }

  /** When the loop stops, fewer than three coordinates are left, and they are kept. */
  lemma ScaleBackDone(scaleBack: Float3 -> Float3, coords: seq<F32>, i: nat)
    requires 3 * i <= |coords| < 3 * i + 3
    ensures ScaledBack(scaleBack, coords[..3 * i]) + coords[3 * i..] == ScaledBack(scaleBack, coords)
  {
    var j := 3 * i;
    var tail := coords[j..];
    assert coords[..j] + tail == coords;
    ScaledBackAppend(scaleBack, i, coords[..j], tail);
    assert ScaledBack(scaleBack, tail) == tail;
  }

  /** The scale-back loop of mesh, in place over the vertex buffer. */
  method ScaleBack(vertices: array<F32>, scaleBack: Float3 -> Float3)
    modifies vertices
    ensures vertices[..] == ScaledBack(scaleBack, old(vertices[..]))
  {
    ghost var coords := vertices[..];
    var i := 0;
    while 3 * i + 3 <= vertices.Length
      invariant 0 <= 3 * i <= vertices.Length
      invariant vertices[..] == ScaledBack(scaleBack, coords[..3 * i]) + coords[3 * i..]
      decreases vertices.Length - 3 * i
    {
      ghost var before: seq<F32> := vertices[..];
      assert vertices[3 * i] == coords[3 * i] && vertices[3 * i + 1] == coords[3 * i + 1]
        && vertices[3 * i + 2] == coords[3 * i + 2] by {
        assert |ScaledBack(scaleBack, coords[..3 * i])| == 3 * i by {
          ScaledBackPointwise(scaleBack, coords[..3 * i]);
        }
      }
      var v := scaleBack(Float3(vertices[3 * i], vertices[3 * i + 1], vertices[3 * i + 2]));
      assert v == scaleBack(GuestVertex(coords, i));
      vertices[3 * i], vertices[3 * i + 1], vertices[3 * i + 2] := v.x, v.y, v.z;
      ghost var prefix := ScaledBack(scaleBack, coords[..3 * i]);
      assert vertices[..] == before[3 * i := v.x][3 * i + 1 := v.y][3 * i + 2 := v.z];
      OverwriteTriple(prefix, coords[3 * i..], v);
      ScaleBackStep(scaleBack, coords, i);
      assert coords[3 * i..][3..] == coords[3 * i + 3..];
      i := i + 1;
    }
    ScaleBackDone(scaleBack, coords, i);
  }

  // ------------------------------------------------- layouts shared with host

  /** A bounding box as the guest holds it: BoundingBox<f32>. */
  datatype BoxF32 = BoxF32(min: Float3, max: Float3)

  /** The six floats of a [[f32; 3]; 2] box in memory order. */
  function BoxWords(b: BoxF32): seq<F32>
  {
    Coords(b.min) + Coords(b.max)
  }

  /** A wasm f32 load at an address: it traps (None) unless all four bytes
      lie in memory; the address itself does not wrap. */
  function GuestLoad(mem: seq<Byte>, addr: nat): (r: Option<F32>)
    ensures r.Some? <==> addr + 4 <= |mem| && addr < WORD_RANGE
    ensures r.Some? ==> EncodeLe(r.value) == mem[addr..addr + 4]
  {
    if addr + 4 <= |mem| && addr < WORD_RANGE then ReadWord(mem, addr) else None
  }

  /** ExternSDF::default: the box behind the reference bb that sdf_aabb
      returned, min = bb[0][0..3] and max = bb[1][0..3]; None where a load traps.
      What it yields is exactly what the memory holds as [[f32; 3]; 2] at bb. */
  function ExternSdfDefault(mem: seq<Byte>, bb: U32): (r: Option<BoxF32>)
    ensures r.Some? <==> bb + 24 <= |mem| && bb + 20 < WORD_RANGE
    ensures r.Some? ==> Holds(mem, bb, BoxWords(r.value))
  {
    match (GuestLoad(mem, bb), GuestLoad(mem, bb + 4), GuestLoad(mem, bb + 8),
           GuestLoad(mem, bb + 12), GuestLoad(mem, bb + 16), GuestLoad(mem, bb + 20))
    case (Some(x0), Some(y0), Some(z0), Some(x1), Some(y1), Some(z1)) =>
      var b := BoxF32(Float3(x0, y0, z0), Float3(x1, y1, z1));
      assert forall i :: 0 <= i < 6 ==> GuestLoad(mem, bb + 4 * i) == Some(BoxWords(b)[i]);
      Some(b)
    case _ => None
  }

  /** Conversely, a box the memory holds at bb is what ExternSDF::default reads. */
  lemma HeldBoxIsRead(mem: seq<Byte>, bb: U32, b: BoxF32)
    requires Holds(mem, bb, BoxWords(b)) && |mem| <= WORD_RANGE
    ensures ExternSdfDefault(mem, bb) == Some(b)
  {
    var ws := BoxWords(b);
    assert ws == [b.min.x, b.min.y, b.min.z, b.max.x, b.max.y, b.max.z];
    ReadHeldWord(mem, bb, ws, 0);
    ReadHeldWord(mem, bb, ws, 1);
    ReadHeldWord(mem, bb, ws, 2);
    ReadHeldWord(mem, bb, ws, 3);
    ReadHeldWord(mem, bb, ws, 4);
    ReadHeldWord(mem, bb, ws, 5);
  }

  /** The four arguments of the sdf_mesh_receiver call. */
  datatype ReceiverCall = ReceiverCall(verticesPtr: U32, verticesLen: U32, indicesPtr: U32, indicesLen: U32)

  /** The hand-off at the end of mesh: each buffer passed as its pointer and
      its length in elements (f32 or u32), not in bytes. */
  function HandOff(verticesPtr: U32, vertices: seq<F32>, indicesPtr: U32, indices: seq<U32>): (c: ReceiverCall)
    requires |vertices| < WORD_RANGE && |indices| < WORD_RANGE
  {
    ReceiverCall(verticesPtr, |vertices|, indicesPtr, |indices|)
  }
}
