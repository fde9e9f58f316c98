/** Guest linear memory as the host sees it through the runtime's typed
    accessors: a flat byte buffer, 32-bit words stored little-endian at
    unsigned byte offsets, every access checked against the buffer's end. */
module LinearMemory {

  /** 2^32: the range of a uint32, and the largest wasm32 memory (65536 pages of 64 KiB). */
  const WORD_RANGE: int := 0x1_0000_0000

  type Byte = b: int | 0 <= b < 256
  type U32 = x: int | 0 <= x < 0x1_0000_0000
  type U64 = x: int | 0 <= x < 0x1_0000_0000_0000_0000

  /** A float32 is carried by its IEEE-754 bit pattern: nothing here computes
      with floats, values are only moved, so equality of bits is the property. */
  type F32 = U32
  /** A float64, likewise, by its bit pattern. */
  type F64 = U64

  datatype Option<T> = None | Some(value: T)

  /** Three consecutive float32 values: a point as the guest stores it. */
  datatype Float3 = Float3(x: F32, y: F32, z: F32)

  /** uint32 addition: wraps around at 2^32. */
  function Add32(a: U32, b: U32): U32 {
    (a + b) % WORD_RANGE
  }

  /** Address of the i-th word of a run that starts at ptr and advances by 4
      bytes per word in uint32 arithmetic (`memIndex += 4`). */
  function WordAddr(ptr: U32, i: nat): U32 {
    (ptr + 4 * i) % WORD_RANGE
  }

  lemma WordAddrNext(ptr: U32, i: nat)
    ensures WordAddr(ptr, i + 1) == Add32(WordAddr(ptr, i), 4)
  {
    var m := WORD_RANGE;
    var q := (ptr + 4 * i) / m;
    assert ptr + 4 * i == q * m + WordAddr(ptr, i);
    assert ptr + 4 * (i + 1) == q * m + (WordAddr(ptr, i) + 4);
    ModShift(WordAddr(ptr, i) + 4, q);
  }

  lemma ModShift(a: nat, q: int)
    requires q * WORD_RANGE + a >= 0
    ensures (q * WORD_RANGE + a) % WORD_RANGE == a % WORD_RANGE
  {
  }

  /** Little-endian decoding of four bytes. */
  function DecodeLe(b: seq<Byte>): U32
    requires |b| == 4
  {
    b[0] as int + 256 * (b[1] as int) + 65536 * (b[2] as int) + 16777216 * (b[3] as int)
  }

  /** Little-endian encoding of a word into four bytes. */
  function EncodeLe(v: U32): (b: seq<Byte>)
    ensures |b| == 4
  {
    [v % 256, v / 256 % 256, v / 65536 % 256, v / 16777216]
  }

  lemma DecodeEncode(v: U32)
    ensures DecodeLe(EncodeLe(v)) == v
  {
  }

  lemma EncodeDecode(b: seq<Byte>)
    requires |b| == 4
    ensures EncodeLe(DecodeLe(b)) == b
  {
    var v := DecodeLe(b);
    var lo: int := b[1] as int + 256 * (b[2] as int) + 65536 * (b[3] as int);
    assert v == b[0] + 256 * lo;
    assert v % 256 == b[0] && v / 256 == lo;
    var mid: int := b[2] as int + 256 * (b[3] as int);
    assert lo == b[1] + 256 * mid;
    assert v / 256 % 256 == b[1];
    assert v / 65536 == mid by {
      assert v / 65536 == (v / 256) / 256;
    }
    assert v / 65536 % 256 == b[2];
    assert v / 16777216 == b[3] by {
      assert v / 16777216 == (v / 65536) / 256;
    }
  }

  /** Memory.ReadUint32Le (and ReadFloat32Le, which reinterprets the same
      bits): the word at byte offset off, or None when off + 4 is past the end. */
  function ReadWord(mem: seq<Byte>, off: U32): (r: Option<U32>)
    ensures r.Some? <==> off + 4 <= |mem|
    ensures r.Some? ==> EncodeLe(r.value) == mem[off..off + 4]
  {
    if off + 4 <= |mem| then
      EncodeDecode(mem[off..off + 4]);
      Some(DecodeLe(mem[off..off + 4]))
    else
      None
  }

  /** Memory.WriteUint32Le (and WriteFloat32Le): stores v at byte offset off
      when off + 4 fits, and leaves the memory as it was otherwise. */
  function WriteWord(mem: seq<Byte>, off: U32, v: U32): (r: seq<Byte>)
    ensures |r| == |mem|
    ensures off + 4 <= |mem| ==> ReadWord(r, off) == Some(v)
    ensures off + 4 > |mem| ==> r == mem
    ensures forall k :: 0 <= k < |mem| && !(off <= k < off + 4) ==> r[k] == mem[k]
  {
    if off + 4 <= |mem| then
      var r := mem[..off] + EncodeLe(v) + mem[off + 4..];
      assert r[off..off + 4] == EncodeLe(v);
      DecodeEncode(v);
      r
    else
      mem
  }

  /** A word read depends only on the four bytes it covers. */
  lemma ReadWordFrame(m1: seq<Byte>, m2: seq<Byte>, off: U32)
    requires |m1| == |m2|
    requires forall k :: off <= k < off + 4 && k < |m1| ==> m1[k] == m2[k]
    ensures ReadWord(m1, off) == ReadWord(m2, off)
  {
    if off + 4 <= |m1| {
      assert m1[off..off + 4] == m2[off..off + 4];
    }
  }

  /** n consecutive words from ptr, stepping 4 bytes per word with uint32
      wrap-around; None as soon as one read is out of range. */
  function ReadWords(mem: seq<Byte>, ptr: U32, n: nat): (r: Option<seq<U32>>)
    ensures r.Some? <==> forall i :: 0 <= i < n ==> ReadWord(mem, WordAddr(ptr, i)).Some?
    ensures r.Some? ==> |r.value| == n
    ensures r.Some? ==> forall i :: 0 <= i < n ==> ReadWord(mem, WordAddr(ptr, i)) == Some(r.value[i])
  {
    if n == 0 then
      Some([])
    else
      match ReadWords(mem, ptr, n - 1)
      case None => None
      case Some(ws) =>
        match ReadWord(mem, WordAddr(ptr, n - 1))
        case None => None
        case Some(w) => Some(ws + [w])
  }

  /** One more successful read extends the run by its word. */
  lemma ReadWordsStep(mem: seq<Byte>, ptr: U32, i: nat, ws: seq<U32>, w: U32)
    requires ReadWords(mem, ptr, i) == Some(ws)
    requires ReadWord(mem, WordAddr(ptr, i)) == Some(w)
    ensures ReadWords(mem, ptr, i + 1) == Some(ws + [w])
  {
  }

  /** One failed read fails every run that includes it. */
  lemma ReadWordsFail(mem: seq<Byte>, ptr: U32, i: nat, n: nat)
    requires i < n && ReadWord(mem, WordAddr(ptr, i)).None?
    ensures ReadWords(mem, ptr, n).None?
  {
  }

  /** The memory holds ws contiguously from byte ptr, four little-endian bytes
      per word: how a Rust Vec<f32>, Vec<u32> or [f32; N] is laid out. */
  ghost predicate Holds(mem: seq<Byte>, ptr: nat, ws: seq<U32>)
  {
    ptr + 4 * |ws| <= |mem| &&
    forall i :: 0 <= i < |ws| ==> mem[ptr + 4 * i..ptr + 4 * i + 4] == EncodeLe(ws[i])
  }

  /** Word i of a held buffer reads back as itself at its (non-wrapping) address. */
  lemma ReadHeldWord(mem: seq<Byte>, ptr: U32, ws: seq<U32>, i: nat)
    requires |mem| <= WORD_RANGE
    requires Holds(mem, ptr, ws) && i < |ws|
    ensures WordAddr(ptr, i) == ptr + 4 * i
    ensures ReadWord(mem, WordAddr(ptr, i)) == Some(ws[i])
  {
    assert mem[ptr + 4 * i..ptr + 4 * i + 4] == EncodeLe(ws[i]);
    DecodeEncode(ws[i]);
  }

  /** Reading back what a buffer holds, word by word, gives exactly its words. */
  lemma ReadHeld(mem: seq<Byte>, ptr: U32, ws: seq<U32>)
    requires |mem| <= WORD_RANGE
    requires Holds(mem, ptr, ws)
    ensures ReadWords(mem, ptr, |ws|) == Some(ws)
  {
    forall i | 0 <= i < |ws|
      ensures ReadWord(mem, WordAddr(ptr, i)) == Some(ws[i])
    {
      ReadHeldWord(mem, ptr, ws, i);
    }
    var r := ReadWords(mem, ptr, |ws|);
    assert r.Some?;
    assert r.value == ws;
  }

  /** Memory.ReadUint32Le over the live buffer: (value, ok). */
  method ReadUint32Le(mem: array<Byte>, off: U32) returns (v: U32, ok: bool)
    ensures ok <==> ReadWord(mem[..], off).Some?
    ensures ok ==> ReadWord(mem[..], off) == Some(v)
  {
    if off + 4 <= mem.Length {
      v := mem[off] as int + 256 * (mem[off + 1] as int) + 65536 * (mem[off + 2] as int)
        + 16777216 * (mem[off + 3] as int);
      ok := true;
      assert mem[..][off..off + 4] == [mem[off], mem[off + 1], mem[off + 2], mem[off + 3]];
    } else {
      v, ok := 0, false;
    }
  }

  /** Memory.ReadFloat32Le: the same four bytes, taken as a float32 bit pattern. */
  method ReadFloat32Le(mem: array<Byte>, off: U32) returns (f: F32, ok: bool)
    ensures ok <==> ReadWord(mem[..], off).Some?
    ensures ok ==> ReadWord(mem[..], off) == Some(f)
  {
    f, ok := ReadUint32Le(mem, off);
  }

  /** Memory.WriteFloat32Le over the live buffer; false and no write when out of range. */
  method WriteFloat32Le(mem: array<Byte>, off: U32, f: F32) returns (ok: bool)
    modifies mem
    ensures ok <==> off + 4 <= mem.Length
    ensures mem[..] == WriteWord(old(mem[..]), off, f)
  {
    ok := off + 4 <= mem.Length;
    if ok {
      var b := EncodeLe(f);
      mem[off], mem[off + 1], mem[off + 2], mem[off + 3] := b[0], b[1], b[2], b[3];
      assert mem[..] == old(mem[..])[..off] + b + old(mem[..])[off + 4..];
    }
  }
}
