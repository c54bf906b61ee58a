/**
 * The UINT64 of the 7z container (qualification/section-2/synthetic_7z.py,
 * lines 16-23), with the reader that 7zFormat.txt describes for it: the leading
 * ones of the first byte count the bytes that follow it.
 */
module SevenZipNumber {
  import opened Wrappers
  import opened Bytes

  const UINT64_LIMIT: nat := 0x1_0000_0000_0000_0000

  datatype Parsed<+T> = Parsed(value: T, rest: seq<Byte>)

  datatype NumberError = OutsideUint64

  // ---------------------------------------------------------------- writer

  /** Values below this fit an encoding with k extra bytes: 2^(7(k+1)), and 2^64 for eight. */
  function Capacity(k: nat): nat
    requires k <= 8
  {
    [0x80, 0x4000, 0x20_0000, 0x1000_0000, 0x8_0000_0000, 0x400_0000_0000,
     0x2_0000_0000_0000, 0x100_0000_0000_0000, UINT64_LIMIT][k]
  }

  /** The tag of a first byte that announces k extra bytes: k ones, then zeros. */
  function Tag(k: nat): Byte
    requires k <= 8
  {
    [0, 0x80, 0xC0, 0xE0, 0xF0, 0xF8, 0xFC, 0xFE, 0xFF][k]
  }

  /** How many values fit below that tag. */
  function Room(k: nat): nat
    requires k <= 8
  {
    [0x80, 0x40, 0x20, 0x10, 8, 4, 2, 1, 1][k]
  }

  /** The least number of extra bytes that leaves room for the value. */
  function Extra(value: nat): (k: nat)
    requires value < UINT64_LIMIT
    ensures k <= 8 && value < Capacity(k) && (k > 0 ==> value >= Capacity(k - 1))
  {
    if value < Capacity(0) then 0
    else if value < Capacity(1) then 1
    else if value < Capacity(2) then 2
    else if value < Capacity(3) then 3
    else if value < Capacity(4) then 4
    else if value < Capacity(5) then 5
    else if value < Capacity(6) then 6
    else if value < Capacity(7) then 7
    else 8
  }

  function Tagged(k: nat, high: nat, low: seq<Byte>): seq<Byte>
    requires k <= 8 && high < Room(k)
  {
    [Tag(k) + high] + low
  }

  function NumberBytes(value: nat): (s: seq<Byte>)
    requires value < UINT64_LIMIT
  {
    var k := Extra(value);
    HighBitsFit(value, k);
    Tagged(k, HighPart(value, k), LittleEndian(value, k))
  }

  method Uint64(value: int) returns (r: Result<seq<Byte>, NumberError>)
    ensures r == if 0 <= value < UINT64_LIMIT then Success(NumberBytes(value)) else Failure(OutsideUint64)
  {
    if !(0 <= value <= UINT64_LIMIT - 1) {
      return Failure(OutsideUint64);
    }
    for count := 0 to 8
      invariant count > 0 ==> value >= Capacity(count - 1)
    {
      CapacityIsPower(count);
      if value < ShiftLeft(1, 7 * (count + 1)) {
        var s := WithExtraBytes(value, count);
        return Success(s);
      }
    }
    NineBytes(value);
    return Success([0xFF] + LittleEndian(value, 8));
  }

  lemma NineBytes(value: nat)
    requires Capacity(7) <= value < UINT64_LIMIT
    ensures NumberBytes(value) == [0xFF] + LittleEndian(value, 8)
  {
    HighBitsFit(value, 8);
  }

  /** The encoding with the given number of extra bytes, in the source's bit operators. */
  method WithExtraBytes(value: nat, count: nat) returns (s: seq<Byte>)
    requires count < 8 && value < UINT64_LIMIT && Extra(value) == count
    ensures s == NumberBytes(value)
  {
    HighBitsFit(value, count);
    var first := FirstByte(value, count);
    var low := LowBytes(value, count);
    s := [first] + low;
  }

  method FirstByte(value: nat, count: nat) returns (first: Byte)
    requires count < 8 && HighPart(value, count) < Room(count)
    ensures first == Tag(count) + HighPart(value, count)
  {
    PrefixIsTag(count);
    var prefix := And(ShiftLeft(0xFF, 8 - count), 0xFF);
    ShiftIsHighPart(value, count);
    FirstByteBits(count, HighPart(value, count));
    first := Or(prefix, ShiftRight(value, 8 * count));
  }

  method LowBytes(value: nat, count: nat) returns (s: seq<Byte>)
    ensures s == LittleEndian(value, count)
  {
    AndMask(value, 8 * count);
    MaskKeepsLowBytes(value, count);
    s := LittleEndian(And(value, ShiftLeft(1, 8 * count) - 1), count);
  }

  lemma SevenMoreBits(n: nat)
    ensures ShiftLeft(1, n + 7) == 0x80 * ShiftLeft(1, n)
  {
    assert ShiftLeft(1, n + 2) == 4 * ShiftLeft(1, n);
    assert ShiftLeft(1, n + 4) == 4 * ShiftLeft(1, n + 2);
    assert ShiftLeft(1, n + 6) == 4 * ShiftLeft(1, n + 4);
  }

  lemma {:induction false} CapacityIsPower(k: nat)
    requires k < 8
    ensures Capacity(k) == ShiftLeft(1, 7 * (k + 1))
  {
    SevenMoreBits(7 * k);
    if k > 0 {
      CapacityIsPower(k - 1);
    }
  }

  lemma CapacityIsScaled(k: nat)
    requires k <= 8
    ensures Capacity(k) == Scale(Room(k), k)
  {
    match k
    case 0 =>
    case 1 => assert Scale(0x40, 1) == Capacity(1);
    case 2 => assert Scale(0x20, 2) == Capacity(2);
    case 3 => assert Scale(0x10, 3) == Capacity(3);
    case 4 => assert Scale(8, 4) == Capacity(4);
    case 5 => assert Scale(4, 5) == Capacity(5);
    case 6 => assert Scale(2, 6) == Capacity(6);
    case 7 => assert Scale(1, 7) == Capacity(7);
    case 8 => assert Scale(1, 8) == Capacity(8);
  }

  /** The high bits fit below the tag. */
  lemma HighBitsFit(value: nat, k: nat)
    requires k <= 8 && value < Capacity(k)
    ensures HighPart(value, k) < Room(k)
  {
    CapacityIsScaled(k);
    HighPartBound(value, k, Room(k));
  }

  /** The source's prefix is the tag, and the tag bits never overlap the value bits. */
  lemma FirstByteBits(k: nat, high: nat)
    requires k < 8 && high < Room(k)
    ensures And(ShiftLeft(0xFF, 8 - k), 0xFF) == Tag(k)
    ensures And(Tag(k), high) == 0
    ensures Or(Tag(k), high) == Tag(k) + high
  {
    TagIsShifted(k);
    RoomIsShifted(k);
    DisjointBits(ShiftLeft(1, k) - 1, high, 8 - k);
    PrefixIsTag(k);
  }

  lemma TagIsShifted(k: nat)
    requires k < 8
    ensures Tag(k) == ShiftLeft(ShiftLeft(1, k) - 1, 8 - k)
  {
    ShiftedOnes(k, 8 - k);
    RoomIsShifted(k);
    assert ShiftLeft(1, 8) == 0x100;
  }

  lemma {:induction false} RoomIsShifted(k: nat)
    requires k < 8
    ensures 2 * Room(k) == ShiftLeft(1, 8 - k)
    decreases 8 - k
  {
    if k < 7 {
      RoomIsShifted(k + 1);
    } else {
      assert ShiftLeft(1, 1) == 2;
    }
  }

  lemma PrefixIsTag(k: nat)
    requires k < 8
    ensures And(ShiftLeft(0xFF, 8 - k), 0xFF) == Tag(k)
  {
    var x := ShiftLeft(0xFF, 8 - k);
    assert ShiftLeft(1, 8) - 1 == 0xFF;
    AndMask(x, 8);
    LowByte(x, 8);
    ShiftedByte(k);
  }

  lemma ShiftedByte(k: nat)
    requires k < 8
    ensures ShiftLeft(0xFF, 8 - k) % 0x100 == Tag(k)
  {
    match k
    case 0 => assert ShiftLeft(0xFF, 8) == 0xFF00;
    case 1 => assert ShiftLeft(0xFF, 7) == 0x7F80;
    case 2 => assert ShiftLeft(0xFF, 6) == 0x3FC0;
    case 3 => assert ShiftLeft(0xFF, 5) == 0x1FE0;
    case 4 => assert ShiftLeft(0xFF, 4) == 0xFF0;
    case 5 => assert ShiftLeft(0xFF, 3) == 0x7F8;
    case 6 => assert ShiftLeft(0xFF, 2) == 0x3FC;
    case 7 => assert ShiftLeft(0xFF, 1) == 0x1FE;
  }

  // ---------------------------------------------------------------- reader

  function LeadingOnes(b: Byte): (k: nat)
    ensures k <= 8 && Tag(k) <= b < Tag(k) + Room(k)
  {
    if b < 0x80 then 0
    else if b < 0xC0 then 1
    else if b < 0xE0 then 2
    else if b < 0xF0 then 3
    else if b < 0xF8 then 4
    else if b < 0xFC then 5
    else if b < 0xFE then 6
    else if b < 0xFF then 7
    else 8
  }

  function ReadNumber(s: seq<Byte>): (r: Option<Parsed<nat>>)
    ensures r.Some? ==> |r.value.rest| < |s|
  {
    if s == [] then None else
    var k := LeadingOnes(s[0]);
    if |s| < 1 + k then None
    else Some(Parsed(FromBytes(s[1..1 + k], s[0] - Tag(k)), s[1 + k..]))
  }

  lemma ReadTagged(k: nat, high: nat, low: seq<Byte>, rest: seq<Byte>)
    requires k <= 8 && high < Room(k) && |low| == k
    ensures ReadNumber(Tagged(k, high, low) + rest) == Some(Parsed(FromBytes(low, high), rest))
  {
    var s := Tagged(k, high, low) + rest;
    assert s[0] == Tag(k) + high;
    assert LeadingOnes(s[0]) == k;
    assert s[1..1 + k] == low;
    assert s[1 + k..] == rest;
  }

  /** The reader undoes the writer, whatever follows the number. */
  lemma NumberRoundTrip(value: nat, rest: seq<Byte>)
    requires value < UINT64_LIMIT
    ensures ReadNumber(NumberBytes(value) + rest) == Some(Parsed(value, rest))
  {
    var k := Extra(value);
    HighBitsFit(value, k);
    ReadTagged(k, HighPart(value, k), LittleEndian(value, k), rest);
    LittleEndianRoundTrip(value, k);
  }

  /** No encoding is the start of another one: injective and prefix-free. */
  lemma NumberPrefixFree(v: nat, w: nat, a: seq<Byte>, b: seq<Byte>)
    requires v < UINT64_LIMIT && w < UINT64_LIMIT
    requires NumberBytes(v) + a == NumberBytes(w) + b
    ensures v == w && a == b
  {
    NumberRoundTrip(v, a);
    NumberRoundTrip(w, b);
  }

  /** The length is the least k+1 for which the value is below 2^(7(k+1)), and otherwise 9. */
  lemma NumberLength(value: nat, k: nat)
    requires value < UINT64_LIMIT && k <= 8
    ensures |NumberBytes(value)| == k + 1 <==>
            (k < 8 ==> value < ShiftLeft(1, 7 * (k + 1))) && (k > 0 ==> value >= ShiftLeft(1, 7 * k))
  {
    if k < 8 {
      CapacityIsPower(k);
    }
    if k > 0 {
      CapacityIsPower(k - 1);
    }
  }

  /** No shorter bytes read back as the same value. */
  lemma NumberIsShortest(value: nat, s: seq<Byte>)
    requires value < UINT64_LIMIT
    requires ReadNumber(s) == Some(Parsed(value, []))
    ensures |s| >= |NumberBytes(value)|
  {
    var k := LeadingOnes(s[0]);
    FromBytesBound(s[1..1 + k], s[0] - Tag(k), Room(k));
    CapacityIsScaled(k);
  }
}
