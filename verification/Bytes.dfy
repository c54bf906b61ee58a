/** Bytes, little-endian words and the bit operators the 7z writer uses. */
module Bytes {
  type Byte = b: int | 0 <= b < 0x100
  type Word32 = w: int | 0 <= w < 0x1_0000_0000

  /** The bitwise operators of unbounded non-negative integers, digit by digit. */
  function Or(x: nat, y: nat): nat
    decreases x + y
  {
    if x == 0 && y == 0 then 0
    else (if x % 2 == 1 || y % 2 == 1 then 1 else 0) + 2 * Or(x / 2, y / 2)
  }

  function And(x: nat, y: nat): nat {
    if x == 0 || y == 0 then 0
    else (if x % 2 == 1 && y % 2 == 1 then 1 else 0) + 2 * And(x / 2, y / 2)
  }

  function ShiftLeft(x: nat, n: nat): (r: nat)
    ensures r >= x
  {
    if n == 0 then x else 2 * ShiftLeft(x, n - 1)
  }

  function ShiftRight(x: nat, n: nat): nat {
    if n == 0 then x else ShiftRight(x / 2, n - 1)
  }

  /** The n lowest bits. */
  function Low(x: nat, n: nat): nat {
    if n == 0 then 0 else x % 2 + 2 * Low(x / 2, n - 1)
  }

  lemma {:induction false} OrZero(x: nat)
    ensures Or(x, 0) == x
    decreases x
  {
    if x > 0 {
      OrZero(x / 2);
    }
  }

  lemma {:induction false} OrCommutes(x: nat, y: nat)
    ensures Or(x, y) == Or(y, x)
    decreases x + y
  {
    if x + y > 0 {
      OrCommutes(x / 2, y / 2);
    }
  }

  /** Bits that do not overlap: the bitwise and is empty and the bitwise or adds. */
  lemma {:induction false} DisjointBits(x: nat, y: nat, k: nat)
    requires y < ShiftLeft(1, k)
    ensures And(ShiftLeft(x, k), y) == 0
    ensures Or(ShiftLeft(x, k), y) == ShiftLeft(x, k) + y
    decreases k
  {
    if k == 0 {
      OrZero(x);
    } else {
      var half := ShiftLeft(x, k - 1);
      assert ShiftLeft(x, k) / 2 == half && ShiftLeft(x, k) % 2 == 0;
      DisjointBits(x, y / 2, k - 1);
    }
  }

  /** A mask of n ones keeps the n lowest bits. */
  lemma {:induction false} AndMask(x: nat, n: nat)
    ensures And(x, ShiftLeft(1, n) - 1) == Low(x, n)
    decreases n
  {
    if n > 0 {
      var mask := ShiftLeft(1, n - 1) - 1;
      assert ShiftLeft(1, n) - 1 == 2 * mask + 1;
      assert (2 * mask + 1) / 2 == mask && (2 * mask + 1) % 2 == 1;
      AndMask(x / 2, n - 1);
    }
  }

  /** Ones shifted left: a power of two less a smaller one. */
  lemma {:induction false} ShiftedOnes(k: nat, n: nat)
    ensures ShiftLeft(ShiftLeft(1, k) - 1, n) == ShiftLeft(1, k + n) - ShiftLeft(1, n)
    decreases n
  {
    if n > 0 {
      ShiftedOnes(k, n - 1);
    }
  }

  lemma Digits4(x: nat)
    ensures x % 4 == x % 2 + 2 * ((x / 2) % 2) && x / 4 == x / 2 / 2
  {
  }

  lemma Digits16(x: nat)
    ensures x % 0x10 == x % 4 + 4 * ((x / 4) % 4) && x / 0x10 == x / 4 / 4
  {
  }

  lemma Digits256(x: nat)
    ensures x % 0x100 == x % 0x10 + 0x10 * ((x / 0x10) % 0x10) && x / 0x100 == x / 0x10 / 0x10
  {
  }

  lemma LowPair(x: nat, n: nat)
    requires n >= 2
    ensures Low(x, n) == x % 4 + 4 * Low(x / 4, n - 2)
    ensures ShiftRight(x, n) == ShiftRight(x / 4, n - 2)
  {
    Digits4(x);
    assert Low(x / 2, n - 1) == (x / 2) % 2 + 2 * Low(x / 2 / 2, n - 2);
    assert ShiftRight(x / 2, n - 1) == ShiftRight(x / 2 / 2, n - 2);
  }

  lemma LowNibble(x: nat, n: nat)
    requires n >= 4
    ensures Low(x, n) == x % 0x10 + 0x10 * Low(x / 0x10, n - 4)
    ensures ShiftRight(x, n) == ShiftRight(x / 0x10, n - 4)
  {
    Digits16(x);
    LowPair(x, n);
    LowPair(x / 4, n - 2);
  }

  lemma LowByte(x: nat, n: nat)
    requires n >= 8
    ensures Low(x, n) == x % 0x100 + 0x100 * Low(x / 0x100, n - 8)
    ensures ShiftRight(x, n) == ShiftRight(x / 0x100, n - 8)
  {
    Digits256(x);
    LowNibble(x, n);
    LowNibble(x / 0x10, n - 4);
  }

  /** `value.to_bytes(count, "little")`; the bytes above the first count are cut off. */
  function LittleEndian(value: nat, count: nat): (s: seq<Byte>)
    ensures |s| == count
    decreases count
  {
    if count == 0 then [] else [value % 0x100] + LittleEndian(value / 0x100, count - 1)
  }

  /** What `LittleEndian` cuts off. */
  function HighPart(value: nat, count: nat): nat
    decreases count
  {
    if count == 0 then value else HighPart(value / 0x100, count - 1)
  }

  /** The number whose low bytes are s and whose remaining bits are high. */
  function FromBytes(s: seq<Byte>, high: nat): nat {
    if s == [] then high else s[0] + 0x100 * FromBytes(s[1..], high)
  }

  /** How many numbers have that many low bytes and a high part below the room. */
  function Scale(room: nat, count: nat): nat {
    if count == 0 then room else 0x100 * Scale(room, count - 1)
  }

  lemma {:induction false} LittleEndianRoundTrip(value: nat, count: nat)
    ensures FromBytes(LittleEndian(value, count), HighPart(value, count)) == value
    decreases count
  {
    if count > 0 {
      LittleEndianRoundTrip(value / 0x100, count - 1);
      assert LittleEndian(value, count)[1..] == LittleEndian(value / 0x100, count - 1);
    }
  }

  lemma {:induction false} HighPartBound(value: nat, count: nat, room: nat)
    requires value < Scale(room, count)
    ensures HighPart(value, count) < room
    decreases count
  {
    if count > 0 {
      HighPartBound(value / 0x100, count - 1, room);
    }
  }

  lemma {:induction false} FromBytesBound(s: seq<Byte>, high: nat, room: nat)
    requires high < room
    ensures FromBytes(s, high) < Scale(room, |s|)
  {
    if s != [] {
      FromBytesBound(s[1..], high, room);
    }
  }

  /** Shifting right by whole bytes leaves the high part. */
  lemma {:induction false} ShiftIsHighPart(value: nat, count: nat)
    ensures ShiftRight(value, 8 * count) == HighPart(value, count)
    decreases count
  {
    if count > 0 {
      LowByte(value, 8 * count);
      ShiftIsHighPart(value / 0x100, count - 1);
    }
  }

  lemma LowDigit(b: nat, rest: nat)
    requires b < 0x100
    ensures (b + 0x100 * rest) % 0x100 == b && (b + 0x100 * rest) / 0x100 == rest
  {
  }

  /** Masking to whole bytes keeps the bytes that are written. */
  lemma {:induction false} MaskKeepsLowBytes(value: nat, count: nat)
    ensures LittleEndian(Low(value, 8 * count), count) == LittleEndian(value, count)
    decreases count
  {
    if count > 0 {
      LowByte(value, 8 * count);
      MaskKeepsLowBytes(value / 0x100, count - 1);
      var rest := Low(value / 0x100, 8 * (count - 1));
      LowDigit(value % 0x100, rest);
    }
  }
}
