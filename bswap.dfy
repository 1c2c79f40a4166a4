/**
 * Byte-order swaps of 16, 32 and 64-bit unsigned integers
 * (bes/foundation/bswap.h). Each swap is a fixed sequence of shifts and
 * masks; its contract says that byte i of the result is byte width-1-i of
 * the argument, counting bytes from the least significant one.
 */
module Bswap {

  /** Byte i of a 16-bit value, byte 0 being the least significant. */
  function Byte16(n: bv16, i: nat): bv8
    requires i < 2
  {
    if i == 0 then (n & 0xFF) as bv8
    else ((n >> 8) & 0xFF) as bv8
  }

  /** Byte i of a 32-bit value, byte 0 being the least significant. */
  function Byte32(n: bv32, i: nat): bv8
    requires i < 4
  {
    if i == 0 then (n & 0xFF) as bv8
    else if i == 1 then ((n >> 8) & 0xFF) as bv8
    else if i == 2 then ((n >> 16) & 0xFF) as bv8
    else ((n >> 24) & 0xFF) as bv8
  }

  /** Byte i of a 64-bit value, byte 0 being the least significant. */
  function Byte64(n: bv64, i: nat): bv8
    requires i < 8
  {
    if i == 0 then (n & 0xFF) as bv8
    else if i == 1 then ((n >> 8) & 0xFF) as bv8
    else if i == 2 then ((n >> 16) & 0xFF) as bv8
    else if i == 3 then ((n >> 24) & 0xFF) as bv8
    else if i == 4 then ((n >> 32) & 0xFF) as bv8
    else if i == 5 then ((n >> 40) & 0xFF) as bv8
    else if i == 6 then ((n >> 48) & 0xFF) as bv8
    else ((n >> 56) & 0xFF) as bv8
  }

  /** bes_bswap_u16: the shifted halves are or-ed and truncated to 16 bits. */
  function BswapU16(n: bv16): (r: bv16)
    ensures forall i :: 0 <= i < 2 ==> Byte16(r, i) == Byte16(n, 1 - i)
  {
    (n << 8) | (n >> 8)
  }

  /** bes_bswap_u32: swap adjacent bytes, then swap the two halves. */
  function BswapU32(n: bv32): (r: bv32)
    ensures forall i :: 0 <= i < 4 ==> Byte32(r, i) == Byte32(n, 3 - i)
  {
    var m := ((n << 8) & 0xFF00FF00) | ((n >> 8) & 0xFF00FF);
    (m << 16) | (m >> 16)
  }

  /** bes_bswap_u64: swap adjacent bytes, then adjacent 16-bit halves, then the 32-bit halves. */
  function BswapU64(n: bv64): (r: bv64)
    ensures forall i :: 0 <= i < 8 ==> Byte64(r, i) == Byte64(n, 7 - i)
  {
    var m1 := ((n << 8) & 0xFF00FF00FF00FF00) | ((n >> 8) & 0x00FF00FF00FF00FF);
    var m2 := ((m1 << 16) & 0xFFFF0000FFFF0000) | ((m1 >> 16) & 0x0000FFFF0000FFFF);
    var r := (m2 << 32) | (m2 >> 32);
    assert Byte64(r, 0) == Byte64(n, 7) && Byte64(r, 1) == Byte64(n, 6);
    assert Byte64(r, 2) == Byte64(n, 5) && Byte64(r, 3) == Byte64(n, 4);
    assert Byte64(r, 4) == Byte64(n, 3) && Byte64(r, 5) == Byte64(n, 2);
    assert Byte64(r, 6) == Byte64(n, 1) && Byte64(r, 7) == Byte64(n, 0);
    r
  }

  /** A 16-bit value is determined by its bytes. */
  lemma Bytes16Determine(a: bv16, b: bv16)
    requires forall i :: 0 <= i < 2 ==> Byte16(a, i) == Byte16(b, i)
    ensures a == b
  {
    assert Byte16(a, 0) == Byte16(b, 0) && Byte16(a, 1) == Byte16(b, 1);
  }

  /** A 32-bit value is determined by its bytes. */
  lemma Bytes32Determine(a: bv32, b: bv32)
    requires forall i :: 0 <= i < 4 ==> Byte32(a, i) == Byte32(b, i)
    ensures a == b
  {
    assert Byte32(a, 0) == Byte32(b, 0) && Byte32(a, 1) == Byte32(b, 1);
    assert Byte32(a, 2) == Byte32(b, 2) && Byte32(a, 3) == Byte32(b, 3);
  }

  /** A 64-bit value is determined by its bytes. */
  lemma Bytes64Determine(a: bv64, b: bv64)
    requires forall i :: 0 <= i < 8 ==> Byte64(a, i) == Byte64(b, i)
    ensures a == b
  {
    assert Byte64(a, 0) == Byte64(b, 0) && Byte64(a, 1) == Byte64(b, 1);
    assert Byte64(a, 2) == Byte64(b, 2) && Byte64(a, 3) == Byte64(b, 3);
    assert Byte64(a, 4) == Byte64(b, 4) && Byte64(a, 5) == Byte64(b, 5);
    assert Byte64(a, 6) == Byte64(b, 6) && Byte64(a, 7) == Byte64(b, 7);
  }

  /** Swapping twice gives back the argument, from the byte-reversal contract alone. */
  lemma BswapU16Involution(n: bv16)
    ensures BswapU16(BswapU16(n)) == n
  {
    var r := BswapU16(BswapU16(n));
    forall i | 0 <= i < 2 ensures Byte16(r, i) == Byte16(n, i) {
      assert Byte16(r, i) == Byte16(BswapU16(n), 1 - i);
    }
    Bytes16Determine(r, n);
  }

  lemma BswapU32Involution(n: bv32)
    ensures BswapU32(BswapU32(n)) == n
  {
    var r := BswapU32(BswapU32(n));
    forall i | 0 <= i < 4 ensures Byte32(r, i) == Byte32(n, i) {
      assert Byte32(r, i) == Byte32(BswapU32(n), 3 - i);
    }
    Bytes32Determine(r, n);
  }

  lemma BswapU64Involution(n: bv64)
    ensures BswapU64(BswapU64(n)) == n
  {
    var r := BswapU64(BswapU64(n));
    forall i | 0 <= i < 8 ensures Byte64(r, i) == Byte64(n, i) {
      assert Byte64(r, i) == Byte64(BswapU64(n), 7 - i);
    }
    Bytes64Determine(r, n);
  }

  /** The values checked by the repository's tests (tests/bswap.c). */
  lemma TestVectors()
    ensures BswapU16(0xAABB) == 0xBBAA
    ensures BswapU32(0xAABBCCDD) == 0xDDCCBBAA
    ensures BswapU64(0xAABBCCDDEEFF1234) == 0x3412FFEEDDCCBBAA
  {
  }
}
