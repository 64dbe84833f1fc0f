/**
 * The bit helpers of the firmware: read one bit of a 32-bit word and
 * return a copy of a word with one bit forced to a value.
 *
 * Words are unsigned integers below 2^32. A right shift by `i` is `i`
 * halvings and `& 1` is the remainder modulo 2, so every proof here is
 * an induction on the bit index over linear arithmetic.
 */
module BitManipulation {
  import opened IntTypes

  const WORD_BITS: nat := 32

  function Pow2(n: nat): (p: nat)
    ensures p >= 1
  {
    if n == 0 then 1 else 2 * Pow2(n - 1)
  }

  /** `(vect >> index) & 1`: bit `index` of `vect`, bit 0 the least significant. */
  function ReadBit(vect: nat, index: nat): bool
    requires index < WORD_BITS
  {
    if index == 0 then vect % 2 == 1 else ReadBit(vect / 2, index - 1)
  }

  /** A set bit carries weight 2^index, so the word is at least that large. */
  lemma {:induction false} SetBitWeight(v: nat, i: nat)
    requires i < WORD_BITS && ReadBit(v, i)
    ensures v >= Pow2(i)
  {
    if i > 0 {
      SetBitWeight(v / 2, i - 1);
    }
  }

  /** Subtracting the weight of a set bit clears that bit and keeps every other one. */
  lemma {:induction false} ClearBitFrame(v: nat, i: nat, j: nat)
    requires i < WORD_BITS && j < WORD_BITS && ReadBit(v, i)
    ensures v >= Pow2(i)
    ensures ReadBit(v - Pow2(i), j) == (j != i && ReadBit(v, j))
  {
    SetBitWeight(v, i);
    var h, r := v / 2, v % 2;
    assert v == 2 * h + r && r <= 1;
    var w := v - Pow2(i);
    if i == 0 {
      assert r == 1 && w == 2 * h;
      assert w / 2 == h && w % 2 == 0;
    } else {
      var p := Pow2(i - 1);
      assert Pow2(i) == 2 * p;
      assert ReadBit(h, i - 1);
      SetBitWeight(h, i - 1);
      assert w == 2 * (h - p) + r;
      assert w / 2 == h - p && w % 2 == r;
      if j > 0 {
        ClearBitFrame(h, i - 1, j - 1);
      }
    }
  }

  /** Adding the weight of a clear bit sets that bit and keeps every other one. */
  lemma {:induction false} PlaceBitFrame(v: nat, i: nat, j: nat)
    requires i < WORD_BITS && j < WORD_BITS && !ReadBit(v, i)
    ensures ReadBit(v + Pow2(i), j) == (j == i || ReadBit(v, j))
  {
    var h, r := v / 2, v % 2;
    assert v == 2 * h + r && r <= 1;
    var w := v + Pow2(i);
    if i == 0 {
      assert r == 0 && w == 2 * h + 1;
      assert w / 2 == h && w % 2 == 1;
    } else {
      var p := Pow2(i - 1);
      assert Pow2(i) == 2 * p;
      assert !ReadBit(h, i - 1);
      assert w == 2 * (h + p) + r;
      assert w / 2 == h + p && w % 2 == r;
      if j > 0 {
        PlaceBitFrame(h, i - 1, j - 1);
      }
    }
  }

  /** Setting a clear bit of an n-bit word keeps it an n-bit word. */
  lemma {:induction false} PlaceBitBound(v: nat, i: nat, n: nat)
    requires i < n <= WORD_BITS && v < Pow2(n) && !ReadBit(v, i)
    ensures v + Pow2(i) < Pow2(n)
  {
    var p := Pow2(n - 1);
    assert Pow2(n) == 2 * p;
    var h, r := v / 2, v % 2;
    assert v == 2 * h + r && r <= 1;
    if i > 0 {
      assert ReadBit(h, i - 1) == ReadBit(v, i);
      assert h < p;
      PlaceBitBound(h, i - 1, n - 1);
      assert Pow2(i) == 2 * Pow2(i - 1);
    } else {
      assert r == 0;
    }
  }

  lemma WordModulus()
    ensures Pow2(WORD_BITS) == WORD_MODULUS
  {
    assert Pow2(8) == 0x100;
    assert Pow2(16) == 0x1_0000;
    assert Pow2(24) == 0x100_0000;
  }

  /**
   * `(vect & ~(1UL << index)) | ((uint32_t)x << index)`: clearing bit `index`
   * subtracts its weight when it is set, and or-ing `x` into the now clear
   * bit adds the weight when `x` holds.
   */
  function SetBit(vect: uint32, index: nat, x: bool): (r: uint32)
    requires index < WORD_BITS
    ensures ReadBit(r, index) == x
    ensures forall j :: 0 <= j < WORD_BITS && j != index ==> ReadBit(r, j) == ReadBit(vect, j)
  {
    var cleared: uint32 :=
      if ReadBit(vect, index) then
        SetBitWeight(vect, index);
        vect - Pow2(index)
      else
        vect;
    assert forall j :: 0 <= j < WORD_BITS ==> ReadBit(cleared, j) == (j != index && ReadBit(vect, j)) by {
      forall j | 0 <= j < WORD_BITS
        ensures ReadBit(cleared, j) == (j != index && ReadBit(vect, j))
      {
        if ReadBit(vect, index) {
          ClearBitFrame(vect, index, j);
        }
      }
    }
    if x then
      WordModulus();
      PlaceBitBound(cleared, index, WORD_BITS);
      assert forall j :: 0 <= j < WORD_BITS ==> ReadBit(cleared + Pow2(index), j) == (j == index || ReadBit(cleared, j)) by {
        forall j | 0 <= j < WORD_BITS
          ensures ReadBit(cleared + Pow2(index), j) == (j == index || ReadBit(cleared, j))
        {
          PlaceBitFrame(cleared, index, j);
        }
      }
      cleared + Pow2(index)
    else
      cleared
  }

  /** Writing back the bit just read leaves the word as it was. */
  lemma SetBitOfReadBit(v: uint32, i: nat)
    requires i < WORD_BITS
    ensures SetBit(v, i, ReadBit(v, i)) == v
  {
  }

  /** Forcing the same bit to the same value twice is the same as doing it once. */
  lemma SetBitIdempotent(v: uint32, i: nat, x: bool)
    requires i < WORD_BITS
    ensures SetBit(SetBit(v, i, x), i, x) == SetBit(v, i, x)
  {
  }

  /** The zero word has no bit set. */
  lemma {:induction false} ZeroHasNoBits(i: nat)
    requires i < WORD_BITS
    ensures !ReadBit(0, i)
  {
    if i > 0 {
      ZeroHasNoBits(i - 1);
    }
  }

  /** Two n-bit words that agree on every bit are equal. */
  lemma {:induction false} BitsDetermineWord(a: nat, b: nat, n: nat)
    requires n <= WORD_BITS && a < Pow2(n) && b < Pow2(n)
    requires forall j :: 0 <= j < n ==> ReadBit(a, j) == ReadBit(b, j)
    ensures a == b
  {
    if n > 0 {
      assert ReadBit(a, 0) == ReadBit(b, 0);
      forall j | 0 <= j < n - 1
        ensures ReadBit(a / 2, j) == ReadBit(b / 2, j)
      {
        assert ReadBit(a, j + 1) == ReadBit(b, j + 1);
      }
      BitsDetermineWord(a / 2, b / 2, n - 1);
    }
  }
}
