/** Byte-addressed memory and the 64-bit little-endian loads and stores on it. */
module ByteMemory {

  const WORD_LIMIT: nat := 0x1_0000_0000_0000_0000

  type byte = x: int | 0 <= x < 256
  type Bytes = nat -> byte

  function WithByte(m: Bytes, x: nat, b: byte): Bytes {
    (y: nat) => if y == x then b else m(y)
  }

  // ---------------------------------------------------------------------------------------------
  // A 64-bit little-endian size

  function LittleEndian(m: Bytes, a: nat, k: nat): nat
    decreases k
  {
    if k == 0 then 0 else m(a) + 256 * LittleEndian(m, a + 1, k - 1)
  }

  function ByteOf(v: nat, i: nat): byte {
    if i == 0 then v % 256 else ByteOf(v / 256, i - 1)
  }

  function Power256(k: nat): nat {
    if k == 0 then 1 else 256 * Power256(k - 1)
  }

  lemma {:induction false} DecodeEncoded(m: Bytes, a: nat, k: nat, v: nat)
    requires v < Power256(k) && forall i: nat :: i < k ==> m(a + i) == ByteOf(v, i)
    ensures LittleEndian(m, a, k) == v
    decreases k
  {
    if k > 0 {
      forall i: nat | i < k - 1
        ensures m(a + 1 + i) == ByteOf(v / 256, i)
      {
        assert m(a + (i + 1)) == ByteOf(v, i + 1);
      }
      DecodeEncoded(m, a + 1, k - 1, v / 256);
      assert m(a + 0) == ByteOf(v, 0);
    }
  }

  lemma {:induction false} DecodeSame(m: Bytes, m': Bytes, a: nat, k: nat)
    requires forall x: nat :: a <= x < a + k ==> m(x) == m'(x)
    ensures LittleEndian(m, a, k) == LittleEndian(m', a, k)
    decreases k
  {
    if k > 0 {
      DecodeSame(m, m', a + 1, k - 1);
    }
  }

  lemma {:induction false} DecodedIsBounded(m: Bytes, a: nat, k: nat)
    ensures LittleEndian(m, a, k) < Power256(k)
    decreases k
  {
    if k > 0 {
      DecodedIsBounded(m, a + 1, k - 1);
    }
  }

  lemma WordBytes()
    ensures Power256(8) == WORD_LIMIT
  {
    assert Power256(2) == 0x1_0000;
    assert Power256(4) == 0x1_0000_0000;
    assert Power256(6) == 0x1_0000_0000_0000;
  }

  // ---------------------------------------------------------------------------------------------
  // Loads and stores

  function Load64(m: Bytes, a: nat): nat {
    LittleEndian(m, a, 8)
  }

  function Store64(m: Bytes, a: nat, v: nat): Bytes {
    (x: nat) => if a <= x < a + 8 then ByteOf(v, x - a) else m(x)
  }

  // Outside [from, to) nothing changed.
  ghost predicate SameOutside(m: Bytes, m': Bytes, from: nat, to: nat)
  {
    forall x: nat :: x < from || to <= x ==> m'(x) == m(x)
  }

  lemma LoadStored(m: Bytes, a: nat, v: nat)
    requires v < WORD_LIMIT
    ensures Load64(Store64(m, a, v), a) == v && SameOutside(m, Store64(m, a, v), a, a + 8)
  {
    WordBytes();
    DecodeEncoded(Store64(m, a, v), a, 8, v);
  }

  lemma LoadUntouched(m: Bytes, m': Bytes, from: nat, to: nat, a: nat)
    requires SameOutside(m, m', from, to) && (a + 8 <= from || to <= a)
    ensures Load64(m', a) == Load64(m, a)
  {
    DecodeSame(m, m', a, 8);
  }

  lemma LoadIsAWord(m: Bytes, a: nat)
    ensures Load64(m, a) < WORD_LIMIT
  {
    WordBytes();
    DecodedIsBounded(m, a, 8);
  }
}
