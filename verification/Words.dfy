/**
 Words of four bytes, little end first, and the test for a zero byte in one of them.
 */
module Words {
  const ONES: bv32 := 0x0101_0101
  const HIGHS: bv32 := 0x8080_8080

  function HasZero(x: bv32): bv32 { (x - ONES) & !x & HIGHS }

  function Word(b0: bv8, b1: bv8, b2: bv8, b3: bv8): bv32 {
    (b0 as bv32) | ((b1 as bv32) << 8) | ((b2 as bv32) << 16) | ((b3 as bv32) << 24)
  }

  function ByteOf(w: bv32, k: nat): bv8
    requires k < 4
  {
    if k == 0 then (w & 0xFF) as bv8
    else if k == 1 then ((w >> 8) & 0xFF) as bv8
    else if k == 2 then ((w >> 16) & 0xFF) as bv8
    else ((w >> 24) & 0xFF) as bv8
  }

  lemma ByteOfWord(b0: bv8, b1: bv8, b2: bv8, b3: bv8)
    ensures ByteOf(Word(b0, b1, b2, b3), 0) == b0 && ByteOf(Word(b0, b1, b2, b3), 1) == b1
    ensures ByteOf(Word(b0, b1, b2, b3), 2) == b2 && ByteOf(Word(b0, b1, b2, b3), 3) == b3
  {
  }

  /** The test is non-zero exactly when one of the bytes is zero. */
  lemma HasZeroWord(b0: bv8, b1: bv8, b2: bv8, b3: bv8)
    ensures HasZero(Word(b0, b1, b2, b3)) != 0 <==> b0 == 0 || b1 == 0 || b2 == 0 || b3 == 0
  {
  }

  /** c in every byte. */
  function Repeat(c: bv8): bv32 { ONES * (c as bv32) }

  lemma Repeated(c: bv8)
    ensures Repeat(c) == Word(c, c, c, c)
  {
  }

  /** On the exclusive or of two words the test finds the bytes in which they agree. */
  lemma HasZeroXor(w: bv32, k: bv32)
    ensures HasZero(w ^ k) != 0 <==>
      ByteOf(w, 0) == ByteOf(k, 0) || ByteOf(w, 1) == ByteOf(k, 1) ||
      ByteOf(w, 2) == ByteOf(k, 2) || ByteOf(w, 3) == ByteOf(k, 3)
  {
  }

  /** Xor with c in every byte first, and the test finds the bytes equal to c. */
  lemma HasByteWord(b0: bv8, b1: bv8, b2: bv8, b3: bv8, c: bv8)
    ensures HasZero(Word(b0, b1, b2, b3) ^ Repeat(c)) != 0 <==> b0 == c || b1 == c || b2 == c || b3 == c
  {
    Repeated(c);
    ByteOfWord(b0, b1, b2, b3);
    ByteOfWord(c, c, c, c);
    AgreeSomewhere(Word(b0, b1, b2, b3), Repeat(c), b0, b1, b2, b3, c);
  }

  lemma AgreeSomewhere(w: bv32, k: bv32, b0: bv8, b1: bv8, b2: bv8, b3: bv8, c: bv8)
    requires ByteOf(w, 0) == b0 && ByteOf(w, 1) == b1 && ByteOf(w, 2) == b2 && ByteOf(w, 3) == b3
    requires ByteOf(k, 0) == c && ByteOf(k, 1) == c && ByteOf(k, 2) == c && ByteOf(k, 3) == c
    ensures HasZero(w ^ k) != 0 <==> b0 == c || b1 == c || b2 == c || b3 == c
  {
    HasZeroXor(w, k);
  }
}
