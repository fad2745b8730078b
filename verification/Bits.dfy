/** The exclusive or of two bytes, which undoes itself. */
module Bits {
  lemma NibblesBack(a: int, high: int, low: int)
    requires 0 <= high < 16 && 0 <= low < 16 && a == high * 16 + low
    ensures (a as bv8) as int == a
  {}

  lemma ByteBack(a: int)
    requires 0 <= a < 256
    ensures (a as bv8) as int == a
  {
    NibblesBack(a, a / 16, a % 16);
  }

  lemma BitsBack(x: bv8)
    ensures 0 <= x as int < 256 && (x as int) as bv8 == x
  {}

  lemma BitsTwice(x: bv8, y: bv8)
    ensures (x ^ y) ^ y == x
  {}
}
