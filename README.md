# sdfx-isosurface: the host/guest memory protocol, in Dafny

sdfx-isosurface meshes a signed distance field (an `sdf.SDF3` of the sdfx
library) by running a Rust meshing crate, compiled to wasm32, inside the wazero
runtime. The Go side (the *host*) exports three functions to the guest under
the module name `env`:

- `sdf_aabb` stores the field's bounding box in guest memory;
- `sdf_eval` reads a point from guest memory and returns the distance there;
- `sdf_mesh_receiver` copies the finished vertex and index buffers out of guest
  memory and sends the rebuilt triangles on the output channel.

The Rust side (the *guest*) derives a grid size from `mesh_cells`, reads the
bounding box and the points it stores, scales the extracted vertices back in
place, and hands the two buffers over by pointer and element count.

This project models both sides of that boundary at the byte level and proves
that they agree.

| file | module | what it holds |
|---|---|---|
| `memory.dfy` | `LinearMemory` | guest memory as bytes; little-endian 32-bit words; bounds-checked reads and writes; runs of words; the `Holds` layout predicate |
| `host.dfy` | `HostCallbacks` | the three callbacks as specification functions, and the `Host` class whose methods implement them over an `array` of bytes and an append-only `output` sequence |
| `guest.dfy` | `GuestApi` | `next_power_of_two` in `bv32`; the in-place scale-back loop; the guest's layouts (`ExternSDF::default`, the `sdf_eval` argument, the hand-off) |
| `protocol.dfy` | `Protocol` | round trips across the boundary: box, evaluation point, mesh |
| `renderer.dfy` | `Renderer` | `Renderer.Info` with `strconv.Itoa`, and the `mesh_cells` argument of the call |

## Modelling choices

- Memory is `seq<Byte>` in the specification functions and `array<Byte>` in the methods.
- A float32 is carried as its 32-bit pattern and a float64 as its 64-bit pattern. Values are only moved, never computed with, so transport is stated as equality of bits (under `ExactWidening`, which excludes signalling-NaN patterns).
- Go's `float32(x)` and `float64(x)` conversions are the two uninterpreted functions of a `FloatConv`. `ExactWidening` states that float32 to float64 and back is the identity. The field is an uninterpreted `evaluate` function with its bounding box.
- `uint32` arithmetic is written out as `% 2^32`. This covers `memIndex += 4`, `p+4`, `p+8`, `index*3` and `index*3+j`.
- A Go panic is a `Fault` value:
  - `MemoryOutOfRange` for `log.Panicln` after a failed read;
  - `IndexOutOfRange` for a slice-index panic.
- The output channel is the `output` field of `Host`, which grows only by appending.
- `Host.MeshReceiver` has one helper method per phase:
  - `CopyWords` runs each copy loop (lines 100-121);
  - `SendTriangles` runs the face loop (lines 125-137).

  Each helper is proved against its specification function, `ReadWords` and `Rebuild`.

## Behaviour of the code worth knowing

- **Partial deliveries.** A malformed delivery still sends triangles before it panics. The Go face loop sends every triangle it can build, then panics at the first face it cannot build: an index count that is not a multiple of 3, or an index past the vertices. `RebuildStopsAtBadFace` and `RebuildPartialFace` state exactly what has been sent by then.
- **Index wrap-around.** The lookup computes `index*3` in `uint32`. An index far past the vertices can therefore land on valid coordinates and be accepted: `VertexIndexWrapsAround` shows 0x5555_5556 reading positions 2, 3 and 4. Only for indices below 2^32/3 does the lookup fail exactly when the vertex lies past the end (`VertexInRange`).
- **Result of `sdf_aabb`.** The Go `aabb` (isosurface.go:70) returns nothing. The Rust import at isosurface-api/src/lib.rs:87 declares a `&'static [[f32; 3]; 2]` result. The guest's pointer is therefore a parameter of the model, and `AabbThenDefault` states the agreement for address 0, where the host writes. As written, the guest imports `env.sdf_aabb` with an `i32` result while the host registers it without one. A runtime that checks import signatures when it instantiates the module (isosurface.go:49) would refuse to link the two.
- **`sdf_eval` offsets.** The `p+4` and `p+8` offsets of `sdf_eval` are `uint32` sums. They can wrap only in a full 4 GiB memory (`EvalWrapsAtTopOfMemory`); below that the bounds check is exact (`EvalBoundsCheck`).
- **`Info`.** `Info` names only `meshCells`; the distance field argument is ignored.

## Model

| member | source | states |
|---|---|---|
| LinearMemory.ReadWord | isosurface.go:81-84 | a 4-byte little-endian read succeeds exactly when `off + 4` is within memory, and the value's encoding is the four bytes at `off` |
| LinearMemory.WriteWord | isosurface.go:72 | a write keeps the size, reads back its value when it fits, changes only its own four bytes, and leaves memory unchanged when it does not fit |
| LinearMemory.ReadWords | isosurface.go:100-121 | `n` words from `ptr` stepping 4 bytes with `uint32` wrap: they succeed exactly when every single read succeeds, and word `i` is the read at the `i`-th address |
| LinearMemory.ReadHeld | isosurface.go:100-121 | a buffer laid out contiguously in memory is read back word for word by the copy loop |
| LinearMemory.ReadUint32Le | isosurface.go:115-118 | the array read agrees with `ReadWord`: `ok` exactly when in range, and then the value read |
| LinearMemory.ReadFloat32Le | isosurface.go:81-84 | the same four bytes as a float32 bit pattern, with the same `ok` condition |
| LinearMemory.WriteFloat32Le | isosurface.go:72-77 | the array after the write is `WriteWord` of the array before it, and `ok` is whether it fitted |
| HostCallbacks.WriteRunStores | isosurface.go:72-77 | successive writes store each word that fits at its 4-byte slot and change no byte outside the slots that fit |
| HostCallbacks.AabbImage | isosurface.go:70-78 | after `sdf_aabb` the words at 0, 4, ..., 20 are min.x, min.y, min.z, max.x, max.y, max.z narrowed to float32 (each that fits), and every byte from 24 up is unchanged |
| HostCallbacks.Host.constructor | isosurface.go:37 | the host captures the field and the channel, and nothing has been sent yet |
| HostCallbacks.Host.Aabb | isosurface.go:70-78 | the six in-place writes, failures ignored, leave the memory as `AabbImage` describes |
| HostCallbacks.Host.Eval | isosurface.go:80-94 | `sdf_eval` panics with `MemoryOutOfRange` when one of the reads at `p`, `p+4`, `p+8` fails, and otherwise returns the narrowed distance at that point; it writes nothing |
| HostCallbacks.EvalReadsHeldPoint | isosurface.go:80-94 | a point stored as three contiguous float32 at `p` is evaluated exactly |
| HostCallbacks.EvalBoundsCheck | isosurface.go:81-92 | below 4 GiB - 8 bytes of memory, `sdf_eval` panics exactly when the 12 bytes at `p` are not all in memory |
| HostCallbacks.EvalWrapsAtTopOfMemory | isosurface.go:85-89 | in a 4 GiB memory the reads at `p+4` and `p+8` wrap to address 0 |
| HostCallbacks.VertexInRange | isosurface.go:129-131 | for an index whose positions do not wrap, the lookup succeeds exactly when `3*index+2` is below the coordinate count, and yields those three coordinates widened |
| HostCallbacks.VertexIndexWrapsAround | isosurface.go:129-131 | `index*3` wraps in `uint32`: index 0x5555_5556 is accepted and reads coordinates 2, 3, 4 |
| HostCallbacks.RebuildSendsFaces | isosurface.go:125-137 | triangle `t` sent is face `t` (indices `3t`, `3t+1`, `3t+2`), in order; without a panic all indices are used up; a panic is an index panic at the first face that cannot be built |
| HostCallbacks.RebuildComplete | isosurface.go:125-137 | with a multiple of 3 indices whose faces all build, exactly `|indices|/3` triangles are sent, in index order, and nothing panics |
| HostCallbacks.RebuildStopsAtBadFace | isosurface.go:126-136 | at the first face that cannot be built the loop panics after sending exactly the faces before it |
| HostCallbacks.RebuildPartialFace | isosurface.go:125-128 | with a partial last face, the complete faces are sent and then indexing past the end of `indices` panics |
| HostCallbacks.Receive | isosurface.go:96-138 | the delivery ends in `MemoryOutOfRange` exactly when one of the two copies fails, and then nothing has been sent |
| HostCallbacks.ReceiveEmptyMesh | isosurface.go:100-125 | zero vertices and zero indices: nothing is sent and nothing panics, whatever the pointers |
| HostCallbacks.CopyWords | isosurface.go:100-121 | the copy loop returns the words `ReadWords` describes, or `ok == false` exactly when one read fails |
| HostCallbacks.Host.SendTriangles | isosurface.go:125-137 | the channel grows by exactly the triangles `Rebuild` sends, and the panic is the one `Rebuild` ends with |
| HostCallbacks.Host.MeshReceiver | isosurface.go:96-138 | the channel grows by exactly the triangles `Receive` sends, and the fault is the one `Receive` ends with |
| GuestApi.NextPowerOfTwo | isosurface-api/src/lib.rs:74-83 | for 1 <= n <= 2^31 the result is the least power of two at least n; a power of two maps to itself, so the function is idempotent on its results; for 0 and for n > 2^31 the wrapping arithmetic yields 0 |
| GuestApi.HalfBelowIsCeil | isosurface-api/src/lib.rs:74-83 | a power of two at least n whose half is below n is the least such power |
| GuestApi.CeilPowerOfTwoUnique | isosurface-api/src/lib.rs:74-83 | the least power of two at least n is unique, so the grid size is determined by n |
| GuestApi.CeilPowerOfTwoBelowDouble | isosurface-api/src/lib.rs:74-83 | the least power of two at least n is below 2n |
| GuestApi.PowerOfTwoIsOwnCeil | isosurface-api/src/lib.rs:74-83 | a power of two is its own ceiling, so `next_power_of_two` is idempotent on its results |
| GuestApi.ScaledBackPointwise | isosurface-api/src/lib.rs:47-54 | the scale-back keeps the length, replaces each complete triple by `scale_back` of it, and leaves the `len % 3` trailing coordinates untouched |
| GuestApi.ScaledBackAppend | isosurface-api/src/lib.rs:48 | `chunks_exact_mut(3)` handles whole vertices independently of what follows them |
| GuestApi.ScaleBack | isosurface-api/src/lib.rs:47-54 | the in-place loop leaves the buffer as `ScaledBack` of its old contents |
| GuestApi.ScaledBackVertex | isosurface-api/src/lib.rs:48-53 | vertex `i` after the scale-back is `scale_back` of vertex `i` before it |
| GuestApi.GuestLoad | isosurface-api/src/lib.rs:99 | a guest f32 load traps unless its four bytes are in memory, and reads their little-endian value |
| GuestApi.ExternSdfDefault | isosurface-api/src/lib.rs:97-106 | the box succeeds exactly when the 24 bytes at `bb` are in memory, and then memory holds min then max, x, y, z each, at `bb` |
| GuestApi.HeldBoxIsRead | isosurface-api/src/lib.rs:97-106 | a box laid out as `[[f32; 3]; 2]` at `bb` is read back as that box |
| Protocol.AabbThenDefault | isosurface.go:70-78 | what `sdf_aabb` writes at address 0 is read by `ExternSDF::default` as the host's box narrowed to float32, min and max in order |
| Protocol.ApproxValue | isosurface-api/src/lib.rs:119-121 | `approx_value` stores `[p.x, p.y, p.z]` and the host evaluates exactly `p` |
| Protocol.HandOffReadsBuffers | isosurface-api/src/lib.rs:56-71 | buffers passed with element counts are read back whole by the host, which rebuilds from exactly the guest's coordinates and indices |
| Protocol.WellFormedFace | isosurface.go:126-132 | in a well-formed mesh face `t` is built from the three guest vertices its indices name |
| Protocol.FaceCorner | isosurface.go:129-132 | corner `j` of face `t` is the guest vertex that index `3t+j` names, widened |
| Protocol.MeshDelivered | isosurface.go:125-137 | a well-formed mesh handed over from memory arrives whole, without a panic, one triangle per three indices, in index order |
| Protocol.MeshBitsRecovered | isosurface-api/src/lib.rs:47-70 | with exact widening, narrowing each received corner gives back the float32 bits of the scaled-back vertex its index names |
| Renderer.Digits | isosurface.go:62 | the decimal digits, all digit characters, no leading zero |
| Renderer.Itoa | isosurface.go:62 | non-empty, with a leading `-` exactly for negative values |
| Renderer.DigitsRoundTrip | isosurface.go:62 | parsing the digits of `n` gives `n` |
| Renderer.ItoaRoundTrip | isosurface.go:62 | parsing `strconv.Itoa(i)` gives `i` |
| Renderer.Info | isosurface.go:61-63 | the text is the fixed prefix, the decimal `meshCells`, then `)` |
| Renderer.InfoNamesMeshCells | isosurface.go:61-63 | `meshCells` can be read back from the text, so different values give different texts |
| Renderer.MeshArgument | isosurface.go:55 | the guest receives `meshCells` modulo 2^32, a `u32` |
| Renderer.MeshArgumentRange | isosurface.go:55 | values in `u32` range arrive unchanged; negative ones arrive as their two's complement |

## Left out

- Runtime construction, host-module registration, guest instantiation and the `Call` in `Render` (isosurface.go:27-59) are calls into the wazero library. Only the argument `Render` passes (`MeshArgument`) is modelled.
- The triangle channel's blocking and its consumer are left out because they are concurrency; the channel is the appended `output` sequence.
- The distance field and all float arithmetic are left out: `Evaluate`, float32/float64 conversion, `scale_0n`/`scale_back` (isosurface-api/src/implicit.rs), `ExternSDF::normal`. They are uninterpreted functions, and exact widening is a stated hypothesis (`ExactWidening`).
- Protocol.MeshBitsRecovered: its `ExactWidening` hypothesis does not hold for signalling-NaN float32 patterns. Go's `float64()` quiets them, so their bits are not recovered, and the lemma covers only the other patterns.
- The DualContouring extraction, the `Sampler` and the `Implicit3DObj` set-up (isosurface-api/src/lib.rs:28-45) are an external crate. The extracted vertices and indices are parameters, and `WellFormedMesh` is a hypothesis about them.
- `shrink_to_fit`, the capacity asserts and `mem::forget` (isosurface-api/src/lib.rs:57-66) are allocator mechanics. `Holds` states as a hypothesis that the buffers lie in memory at the pointers passed.
- `ExternSDF::bbox` and `clone_box` only return or rebuild the box, which `ExternSdfDefault` already models.
- The demos (examples/simple.go, isosurface-api/examples/sphere.rs) do file output and timing.
- The text of the `log.Panicln` messages is left out; a panic is the `Fault` value only.
- GuestApi.NextPowerOfTwo: models the release build's wrapping `u32` arithmetic. The overflow panics of a debug build are left out: at isosurface-api/src/lib.rs:75 (`mesh_cells -= 1`) for n = 0, and at isosurface-api/src/lib.rs:81 (`mesh_cells += 1`) for every n > 2^31.
- HostCallbacks.Host.Aabb: requires memory of at most 2^32 bytes, the wasm32 limit, so that the fixed offsets are plain `uint32` values.
- Protocol.ApproxValue: the address of the guest's `[f32; 3]` temporary is a parameter and is required to lie in memory; the stack allocation behind it is not modelled.
