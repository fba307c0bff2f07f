/** Bit `j` of a byte bitmap: byte `j / 8`, bit `j % 8`, set meaning "not free". */
module Bits {
  /** `1 << bit` */
  function Mask(bit: nat): bv8
    requires bit < 8
  {
    1 << bit
  }

  predicate Bit(b: bv8, bit: nat)
    requires bit < 8
  {
    b & Mask(bit) != 0
  }

  /** Bit `j` of the bitmap stored in `data`. */
  predicate BitAt(data: array<bv8>, j: nat)
    requires j / 8 < data.Length
    reads data
  {
    Bit(data[j / 8], j % 8)
  }

  lemma Masks()
    ensures Mask(0) == 1 && Mask(1) == 2 && Mask(2) == 4 && Mask(3) == 8
    ensures Mask(4) == 16 && Mask(5) == 32 && Mask(6) == 64 && Mask(7) == 128
  {
  }

  lemma BitOfByte(b: bv8, bit: nat)
    requires bit < 8
    ensures Bit(b, bit) <==> (b >> bit) & 1 == 1
  {
    Masks();
  }

  /** Bits count from the least significant of byte `j / 8`. */
  lemma BitIs(data: array<bv8>, j: nat)
    requires j / 8 < data.Length
    ensures BitAt(data, j) <==> (data[j / 8] >> (j % 8)) & 1 == 1
  {
    BitOfByte(data[j / 8], j % 8);
  }

  /** `|= 1 << bit` sets that bit and no other. */
  lemma SetKeepsOthers(b: bv8, bit: nat, other: nat)
    requires bit < 8 && other < 8
    ensures Bit(b | Mask(bit), other) <==> other == bit || Bit(b, other)
  {
    Masks();
  }

  /** `&= ~(1 << bit)` clears that bit and no other. */
  lemma ClearKeepsOthers(b: bv8, bit: nat, other: nat)
    requires bit < 8 && other < 8
    ensures Bit(b & !Mask(bit), other) <==> other != bit && Bit(b, other)
  {
    Masks();
  }

  method SetBit(data: array<bv8>, j: nat)
    requires j / 8 < data.Length
    modifies data
    ensures forall k: nat :: k / 8 < data.Length ==> (BitAt(data, k) <==> k == j || old(BitAt(data, k)))
  {
    data[j / 8] := data[j / 8] | Mask(j % 8);
    forall k: nat | k / 8 < data.Length ensures BitAt(data, k) <==> k == j || old(BitAt(data, k)) {
      SetKeepsOthers(old(data[j / 8]), j % 8, k % 8);
    }
  }

  method ClearBit(data: array<bv8>, j: nat)
    requires j / 8 < data.Length
    modifies data
    ensures forall k: nat :: k / 8 < data.Length ==> (BitAt(data, k) <==> k != j && old(BitAt(data, k)))
  {
    data[j / 8] := data[j / 8] & !Mask(j % 8);
    forall k: nat | k / 8 < data.Length ensures BitAt(data, k) <==> k != j && old(BitAt(data, k)) {
      ClearKeepsOthers(old(data[j / 8]), j % 8, k % 8);
    }
  }
}
