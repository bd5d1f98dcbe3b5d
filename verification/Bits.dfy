/** Single bits of a byte. */
module Bits {

  function Mask(k: nat): bv8
    requires k < 8
  {
    match k
    case 0 => 0x01
    case 1 => 0x02
    case 2 => 0x04
    case 3 => 0x08
    case 4 => 0x10
    case 5 => 0x20
    case 6 => 0x40
    case _ => 0x80
  }

  predicate Test(x: bv8, k: nat)
    requires k < 8
  {
    x & Mask(k) != 0
  }

  lemma SetTest(x: bv8, j: nat, k: nat)
    requires j < 8 && k < 8
    ensures Test(x | Mask(j), k) <==> j == k || Test(x, k)
  {
    hide Mask;
    MasksDiffer(j, k);
    OrBit(x, Mask(j), Mask(k));
  }

  lemma ClearTest(x: bv8, j: nat, k: nat)
    requires j < 8 && k < 8
    ensures Test(x & !Mask(j), k) <==> j != k && Test(x, k)
  {
    hide Mask;
    MasksDiffer(j, k);
    AndBit(x, Mask(j), Mask(k));
  }

  lemma NoBits(k: nat)
    requires k < 8
    ensures !Test(0, k)
  {
    NoneSet(Mask(k));
  }

  lemma AllOnes(k: nat)
    requires k < 8
    ensures Test(0xFF, k)
  {
  }

  lemma OrBit(x: bv8, a: bv8, b: bv8)
    ensures a & b == 0 ==> (x | a) & b == x & b
    ensures a == b != 0 ==> (x | a) & b != 0
  {
  }

  lemma AndBit(x: bv8, a: bv8, b: bv8)
    ensures a & b == 0 ==> (x & !a) & b == x & b
    ensures a == b ==> (x & !a) & b == 0
  {
  }

  lemma NoneSet(a: bv8)
    ensures 0 & a == 0
  {
  }

  lemma MasksDiffer(j: nat, k: nat)
    requires j < 8 && k < 8
    ensures Mask(j) != 0 && (j != k ==> Mask(j) & Mask(k) == 0)
  {
  }
}
