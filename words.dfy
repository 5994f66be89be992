/**
 * Machine words as the controller sees them: registers are 32-bit words,
 * a guest write arrives as a 64-bit unsigned long, interrupt numbers are
 * uint32_t.
 */
module Words {

  /** uint32_t */
  type u32 = x: int | 0 <= x < 0x1_0000_0000

  /** unsigned long on the 64-bit host */
  type u64 = x: int | 0 <= x < 0x1_0000_0000_0000_0000

  datatype Option<+T> = None | Some(value: T)

  /** BIT(b) */
  function Mask(b: nat): bv32
    requires b < 32
  {
    1 << (b as bv5)
  }

  /** w | m: sets the bits of m. */
  function SetBits(w: bv32, m: bv32): bv32
  {
    w | m
  }

  /** w & ~m: clears the bits of m. */
  function ClearBits(w: bv32, m: bv32): bv32
  {
    w & !m
  }

  predicate BitSet(w: bv32, b: nat)
    requires b < 32
  {
    w & Mask(b) != 0
  }

  /** Setting a bit that is already set changes nothing. */
  lemma SetBitsIdle(w: bv32, b: nat)
    requires b < 32 && BitSet(w, b)
    ensures SetBits(w, Mask(b)) == w
  {
  }

  /** Clearing a bit undoes setting it when it was clear before. */
  lemma ClearUndoesSet(w: bv32, b: nat)
    requires b < 32 && !BitSet(w, b)
    ensures ClearBits(SetBits(w, Mask(b)), Mask(b)) == w
  {
  }

  /** Every bit set in w is set in v. */
  predicate BitsWithin(w: bv32, v: bv32)
  {
    ClearBits(w, v) == 0
  }

  /** Clearing bits never sets one. */
  lemma ClearBitsWithin(w: bv32, m: bv32)
    ensures BitsWithin(ClearBits(w, m), w)
  {
  }

  /** Setting bits never clears one. */
  lemma SetBitsWithin(w: bv32, m: bv32)
    ensures BitsWithin(w, SetBits(w, m))
  {
  }

  lemma BitsWithinSelf(w: bv32)
    ensures BitsWithin(w, w)
  {
  }

  /** The cast (uint32_t)v: keeps the low 32 bits of an unsigned long. */
  function Trunc32(v: u64): (r: u32)
    ensures v < 0x1_0000_0000 ==> r == v
    ensures v == r + 0x1_0000_0000 * (v / 0x1_0000_0000)
  {
    v % 0x1_0000_0000
  }

  /** The same cast, as a register word. */
  function Low32(v: u64): bv32
  {
    Trunc32(v) as bv32
  }

  /** uint32_t addition, which wraps around. */
  function Add32(a: u32, b: u32): (r: u32)
    ensures a + b < 0x1_0000_0000 ==> r == a + b
    ensures a + b >= 0x1_0000_0000 ==> r == a + b - 0x1_0000_0000
  {
    (a + b) % 0x1_0000_0000
  }

  /**
   * __ffs((uint32_t)v): the index of the lowest set bit. The source leaves
   * __ffs(0) undefined; here it is 32, an index no caller accepts.
   */
  function LowestSetBit(w: bv32): (r: nat)
    ensures r <= 32
    ensures r < 32 ==> BitSet(w, r)
    ensures forall b :: 0 <= b < r && b < 32 ==> !BitSet(w, b)
  {
    LowestSetBitFrom(w, 0)
  }

  function LowestSetBitFrom(w: bv32, i: nat): (r: nat)
    requires i <= 32
    ensures i <= r <= 32
    ensures r < 32 ==> BitSet(w, r)
    ensures forall b :: i <= b < r && b < 32 ==> !BitSet(w, b)
    decreases 32 - i
  {
    if i == 32 then 32
    else if BitSet(w, i) then i
    else LowestSetBitFrom(w, i + 1)
  }
}
