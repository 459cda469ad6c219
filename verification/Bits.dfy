/** Bytes as vectors of eight bits, the way the kernel's bitmaps use them: bit `k` of a byte is
    selected with the mask `1 << k`. */
module Bits {

  type Byte = bv8

  /** `1 << k` */
  function Mask(k: nat): Byte
    requires k < 8
  {
    match k
    case 0 => 0x01
    case 1 => 0x02
    case 2 => 0x04
    case 3 => 0x08
    case 4 => 0x10
    case 5 => 0x20
    case 6 => 0x40
    case _ => 0x80
  }

  predicate Bit(b: Byte, k: nat)
    requires k < 8
  {
    b & Mask(k) != 0
  }

  lemma SetBitLaw(b: Byte, k: nat, j: nat)
    requires k < 8 && j < 8
    ensures Bit(b | Mask(k), j) <==> j == k || Bit(b, j)
  {
  }

  lemma ClearBitLaw(b: Byte, k: nat, j: nat)
    requires k < 8 && j < 8
    ensures Bit(b & !Mask(k), j) <==> j != k && Bit(b, j)
  {
  }

  /** Bit `n` of a bitmap stored eight bits to a byte. */
  predicate BitAt(bytes: seq<Byte>, n: nat)
    requires n < 8 * |bytes|
  {
    Bit(bytes[n / 8], n % 8)
  }

  lemma SetBitAt(bytes: seq<Byte>, n: nat, m: nat)
    requires n < 8 * |bytes| && m < 8 * |bytes|
    ensures BitAt(bytes[n / 8 := bytes[n / 8] | Mask(n % 8)], m) <==> m == n || BitAt(bytes, m)
  {
    SetBitLaw(bytes[n / 8], n % 8, m % 8);
  }

  lemma ClearBitAt(bytes: seq<Byte>, n: nat, m: nat)
    requires n < 8 * |bytes| && m < 8 * |bytes|
    ensures BitAt(bytes[n / 8 := bytes[n / 8] & !Mask(n % 8)], m) <==> m != n && BitAt(bytes, m)
  {
    ClearBitLaw(bytes[n / 8], n % 8, m % 8);
  }
}
