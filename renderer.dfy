/** The Renderer's own pure parts: its Info text and the mesh_cells argument
    it passes to the guest's exported mesh function. */
module Renderer {

  // ------------------------------------------------------------ strconv.Itoa

  predicate IsDigit(c: char)
  {
    '0' <= c <= '9'
  }

  function DigitChar(d: nat): (c: char)
    requires d < 10
    ensures IsDigit(c)
  {
    (48 + d) as char
  }

  function DigitValue(c: char): nat
    requires IsDigit(c)
  {
    c as int - 48
  }

  /** The decimal digits of n, most significant first, without leading zeros. */
  function Digits(n: nat): (s: string)
    ensures |s| >= 1
    ensures forall k :: 0 <= k < |s| ==> IsDigit(s[k])
    ensures s[0] == '0' ==> n == 0
    decreases n
  {
    if n < 10 then [DigitChar(n)] else Digits(n / 10) + [DigitChar(n % 10)]
  }

  /** strconv.Itoa: decimal, with a leading '-' for negative values. */
  function Itoa(i: int): (s: string)
    ensures |s| >= 1
    ensures i < 0 <==> s[0] == '-'
  {
    if i < 0 then "-" + Digits(-i) else Digits(i)
  }

  /** The value of a string of decimal digits. */
  function ParseDigits(s: string): nat
    requires forall k :: 0 <= k < |s| ==> IsDigit(s[k])
    decreases |s|
  {
    if |s| == 0 then 0 else ParseDigits(s[..|s| - 1]) * 10 + DigitValue(s[|s| - 1])
  }

  /** Decimal text back to the integer, the inverse of Itoa. */
  function Atoi(s: string): int
    requires |s| >= 1
    requires forall k :: 1 <= k < |s| ==> IsDigit(s[k])
    requires s[0] == '-' || IsDigit(s[0])
  {
    if s[0] == '-' then 0 - ParseDigits(s[1..]) else ParseDigits(s)
  }

  lemma {:induction false} DigitsRoundTrip(n: nat)
    ensures ParseDigits(Digits(n)) == n
    decreases n
  {
    if n >= 10 {
      DigitsRoundTrip(n / 10);
      var s := Digits(n);
      assert s[..|s| - 1] == Digits(n / 10);
    }
  }

  /** Itoa loses nothing: parsing its text gives the integer back. */
  lemma ItoaRoundTrip(i: int)
    ensures Atoi(Itoa(i)) == i
  {
    if i < 0 {
      DigitsRoundTrip(-i);
      assert Itoa(i)[1..] == Digits(-i);
    } else {
      DigitsRoundTrip(i);
    }
  }

  // -------------------------------------------------------------------- Info

  const INFO_PREFIX: string := "Dual Contouring renderer (meshCells: "

  /** Renderer.Info: the renderer's name and the meshCells it was given
      (the distance field argument is ignored). */
  function Info(meshCells: int): (r: string)
    ensures |r| == |INFO_PREFIX| + |Itoa(meshCells)| + 1
    ensures r[..|INFO_PREFIX|] == INFO_PREFIX && r[|r| - 1] == ')'
    ensures r[|INFO_PREFIX|..|r| - 1] == Itoa(meshCells)
  {
    INFO_PREFIX + Itoa(meshCells) + ")"
  }

  /** The meshCells value can be read back from the Info text, so different
      settings are always described differently. */
  lemma InfoNamesMeshCells(a: int, b: int)
    ensures Atoi(Info(a)[|INFO_PREFIX|..|Info(a)| - 1]) == a
    ensures Info(a) == Info(b) ==> a == b
  {
    ItoaRoundTrip(a);
    ItoaRoundTrip(b);
  }

  // ------------------------------------------------------------- mesh call

  /** Render's call mesh(uint64(meshCells)): Go's int converted to uint64, of
      which the guest's u32 parameter keeps the low 32 bits. */
  function MeshArgument(meshCells: int): (r: int)
    ensures 0 <= r < 0x1_0000_0000
    ensures (r - meshCells) % 0x1_0000_0000 == 0
  {
    meshCells % 0x1_0000_0000
  }

  /** A meshCells in u32 range reaches the guest unchanged; a negative one
      arrives as its two's complement, -1 as 0xFFFF_FFFF. */
  lemma MeshArgumentRange(meshCells: int)
    ensures 0 <= meshCells < 0x1_0000_0000 ==> MeshArgument(meshCells) == meshCells
    ensures -0x1_0000_0000 <= meshCells < 0 ==> MeshArgument(meshCells) == meshCells + 0x1_0000_0000
  {
  }
}
