/**
 * The one-block 7z container (qualification/section-2/synthetic_7z.py, lines
 * 26-71): the writer `archive`, and a reader for the sections it writes -
 * SignatureHeader, Pack Info, Coders Info, SubStreams Info and Files Info of
 * 7zFormat.txt. CRC-32 and the compressors are parameters.
 */
module SevenZip {
  import opened Wrappers
  import opened Bytes
  import opened Sequences
  import opened SevenZipNumber
  import opened Utf16

  type Crc = seq<Byte> -> Word32

  datatype Codecs = Codecs(crc32: Crc, zstd: seq<Byte> -> seq<Byte>,
                           lzma1: seq<Byte> -> seq<Byte>, lzma2: seq<Byte> -> seq<Byte>)

  datatype Entry = Entry(name: Text, data: seq<Byte>)

  datatype ArchiveError =
    | PayloadCeiling | SizeListMismatch | UnsupportedMethod | PropertyOutOfRange
    | NumberOutOfRange | NameNotEncodable

  const CEILING: nat := 4 * 1024 * 1024
  const MAGIC: seq<Byte> := [0x37, 0x7A, 0xBC, 0xAF, 0x27, 0x1C, 0, 4]

  /** What one archive records. */
  datatype Contents = Contents(
    packed: seq<Byte>, packedCrc: Word32, methodId: seq<Byte>, properties: seq<Byte>,
    unpackSize: int, unpackCrc: Word32, sizes: seq<int>, crcs: seq<Word32>, names: seq<Text>)

  predicate Number(n: int) { 0 <= n < UINT64_LIMIT }

  /** What the writer's own checks leave: every written number is a UINT64. */
  predicate Writable(c: Contents) {
    && |c.methodId| < 0x10 && Number(|c.packed|) && Number(|c.properties|) && Number(c.unpackSize)
    && |c.sizes| == |c.crcs| == |c.names| > 0 && Number(|c.sizes|)
    && Sum(c.sizes) == c.unpackSize
    && (forall i :: 0 <= i < |c.sizes| - 1 ==> Number(c.sizes[i]))
    && (|c.sizes| == 1 ==> c.crcs[0] == c.unpackCrc)
    && AllEncodable(c.names) && Number(1 + |Encode(Terminated(c.names))|)
  }

  // ---------------------------------------------------------------- writer

  function Word(w: Word32): seq<Byte> { LittleEndian(w, 4) }

  /** A number's encoding; the writer never reaches the empty one. */
  function Num(n: int): seq<Byte> { if Number(n) then NumberBytes(n) else [] }

  function PackInfoBytes(c: Contents): seq<Byte> {
    [6] + Num(0) + Num(1) + [9] + Num(|c.packed|) + ([0xA, 1] + Word(c.packedCrc)) + [0]
  }

  function CoderBytes(c: Contents): seq<Byte>
    requires |c.methodId| < 0x10
  {
    var flag := if c.properties == [] then 0 else 0x20;
    [|c.methodId| + flag] + c.methodId
    + if c.properties == [] then [] else Num(|c.properties|) + c.properties
  }

  function UnpackInfoBytes(c: Contents): seq<Byte>
    requires |c.methodId| < 0x10
  {
    ([7, 0xB] + Num(1)) + ([0] + Num(1)) + CoderBytes(c) + [0xC] + Num(c.unpackSize)
    + ([0xA, 1] + Word(c.unpackCrc)) + [0]
  }

  function SizesBytes(sizes: seq<int>): seq<Byte> { FlatMap(Num, sizes) }

  function CrcsBytes(crcs: seq<Word32>): seq<Byte> { FlatMap(Word, crcs) }

  function SubStreamsBytes(c: Contents): seq<Byte>
    requires |c.sizes| > 0
  {
    ([8, 0xD] + Num(|c.sizes|))
    + (if |c.sizes| == 1 then [] else
         [9] + SizesBytes(c.sizes[..|c.sizes| - 1]) + [0xA, 1] + CrcsBytes(c.crcs))
    + [0]
  }

  function NamesBytes(names: seq<Text>): seq<Byte> { [0] + Encode(Terminated(names)) }

  function FilesBytes(c: Contents): seq<Byte> {
    [5] + Num(|c.names|) + [0x11] + Num(|NamesBytes(c.names)|) + NamesBytes(c.names) + [0]
  }

  function HeaderBytes(c: Contents): seq<Byte>
    requires Writable(c)
  {
    [1, 4] + PackInfoBytes(c) + UnpackInfoBytes(c) + SubStreamsBytes(c) + [0] + FilesBytes(c) + [0]
  }

  function StartBytes(crc32: Crc, packed: seq<Byte>, header: seq<Byte>): (s: seq<Byte>)
    ensures |s| == 20
  {
    LittleEndian(|packed|, 8) + LittleEndian(|header|, 8) + Word(crc32(header))
  }

  function SignatureBytes(crc32: Crc, packed: seq<Byte>, header: seq<Byte>): seq<Byte> {
    var start := StartBytes(crc32, packed, header);
    MAGIC + Word(crc32(start)) + start + packed + header
  }

  // ---------------------------------------------------------------- reader

  function Expect(s: seq<Byte>, prefix: seq<Byte>): Option<seq<Byte>> {
    if prefix <= s then Some(s[|prefix|..]) else None
  }

  function Take(s: seq<Byte>, n: nat): Option<Parsed<seq<Byte>>> {
    if n <= |s| then Some(Parsed(s[..n], s[n..])) else None
  }

  function ReadWord(s: seq<Byte>): Option<Parsed<Word32>> {
    var w :- Take(s, 4);
    FromBytesBound(w.value, 0, 1);
    assert Scale(1, 4) == 0x1_0000_0000;
    Some(Parsed(FromBytes(w.value, 0), w.rest))
  }

  /** A number behind a property id. */
  function ReadNumberAfter(s: seq<Byte>, id: seq<Byte>): Option<Parsed<nat>> {
    var t :- Expect(s, id);
    ReadNumber(t)
  }

  /** A digest list of one defined digest, and the end of its section. */
  function ReadDigest(s: seq<Byte>): Option<Parsed<Word32>> {
    var t :- Expect(s, [0xA, 1]);
    var crc :- ReadWord(t);
    var u :- Expect(crc.rest, [0]);
    Some(Parsed(crc.value, u))
  }

  datatype PackInfo = PackInfo(position: nat, size: nat, crc: Word32)

  /** Pack Info of one packed stream. */
  function ReadPackInfo(s: seq<Byte>): Option<Parsed<PackInfo>> {
    var position :- ReadNumberAfter(s, [6]);
    var streams :- ReadNumber(position.rest);
    if streams.value != 1 then None else
    var size :- ReadNumberAfter(streams.rest, [9]);
    var crc :- ReadDigest(size.rest);
    Some(Parsed(PackInfo(position.value, size.value, crc.value), crc.rest))
  }

  datatype Coder = Coder(methodId: seq<Byte>, properties: seq<Byte>)

  /** One simple coder: the low nibble is the id's length, 0x20 announces properties. */
  function ReadCoder(s: seq<Byte>): Option<Parsed<Coder>> {
    if s == [] || (s[0] / 0x10 != 0 && s[0] / 0x10 != 2) then None else
    var id :- Take(s[1..], s[0] % 0x10);
    if s[0] / 0x10 == 0 then Some(Parsed(Coder(id.value, []), id.rest)) else
    var size :- ReadNumber(id.rest);
    var properties :- Take(size.rest, size.value);
    Some(Parsed(Coder(id.value, properties.value), properties.rest))
  }

  datatype UnpackInfo = UnpackInfo(coder: Coder, size: nat, crc: Word32)

  /** Coders Info of one folder with one coder. */
  function ReadUnpackInfo(s: seq<Byte>): Option<Parsed<UnpackInfo>> {
    var folders :- ReadNumberAfter(s, [7, 0xB]);
    var coders :- ReadNumberAfter(folders.rest, [0]);
    if folders.value != 1 || coders.value != 1 then None else
    var coder :- ReadCoder(coders.rest);
    var size :- ReadNumberAfter(coder.rest, [0xC]);
    var crc :- ReadDigest(size.rest);
    Some(Parsed(UnpackInfo(coder.value, size.value, crc.value), crc.rest))
  }

  function ReadNumbers(s: seq<Byte>, count: nat): (r: Option<Parsed<seq<nat>>>)
    ensures r.Some? ==> |r.value.value| == count
  {
    if count == 0 then Some(Parsed([], s)) else
    var n :- ReadNumber(s);
    var more :- ReadNumbers(n.rest, count - 1);
    Some(Parsed([n.value] + more.value, more.rest))
  }

  function ReadWords(s: seq<Byte>, count: nat): Option<Parsed<seq<Word32>>> {
    if count == 0 then Some(Parsed([], s)) else
    var w :- ReadWord(s);
    var more :- ReadWords(w.rest, count - 1);
    Some(Parsed([w.value] + more.value, more.rest))
  }

  datatype SubStreams = SubStreams(sizes: seq<int>, crcs: seq<Word32>)

  /** SubStreams Info: the last size is the folder's size less the others. */
  function ReadSubStreams(s: seq<Byte>, unpack: UnpackInfo): Option<Parsed<SubStreams>> {
    var count :- ReadNumberAfter(s, [8, 0xD]);
    if count.value == 0 then None
    else if count.value == 1 then
      var t :- Expect(count.rest, [0]);
      Some(Parsed(SubStreams([unpack.size], [unpack.crc]), t))
    else
      var sizes :- ReadSizes(count.rest, count.value, unpack.size);
      var crcs :- ReadCrcs(sizes.rest, count.value);
      Some(Parsed(SubStreams(sizes.value, crcs.value), crcs.rest))
  }

  function ReadSizes(s: seq<Byte>, count: nat, total: nat): Option<Parsed<seq<int>>>
    requires count > 1
  {
    var t :- Expect(s, [9]);
    var sizes :- ReadNumbers(t, count - 1);
    if Sum(sizes.value) > total then None
    else Some(Parsed(sizes.value + [total - Sum(sizes.value)], sizes.rest))
  }

  function ReadCrcs(s: seq<Byte>, count: nat): Option<Parsed<seq<Word32>>> {
    var t :- Expect(s, [0xA, 1]);
    var crcs :- ReadWords(t, count);
    var u :- Expect(crcs.rest, [0]);
    Some(Parsed(crcs.value, u))
  }

  /** Files Info with the names property only; the names must fill it exactly. */
  function ReadFiles(s: seq<Byte>, count: nat): Option<Parsed<seq<Text>>> {
    var files :- ReadNumberAfter(s, [5]);
    if files.value != count then None else
    var size :- ReadNumberAfter(files.rest, [0x11]);
    var block :- Take(size.rest, size.value);
    var encoded :- Expect(block.value, [0]);
    var names :- ReadNames(encoded, count);
    if names.rest != [] then None else
    var v :- Expect(block.rest, [0]);
    Some(Parsed(names.value, v))
  }

  datatype Streams = Streams(pack: PackInfo, unpack: UnpackInfo, sub: SubStreams)

  /** Streams Info: the three sections about the one folder. */
  function ReadStreams(s: seq<Byte>): Option<Parsed<Streams>> {
    var pack :- ReadPackInfo(s);
    var unpack :- ReadUnpackInfo(pack.rest);
    var sub :- ReadSubStreams(unpack.rest, unpack.value);
    var t :- Expect(sub.rest, [0]);
    Some(Parsed(Streams(pack.value, unpack.value, sub.value), t))
  }

  function ReadHeader(header: seq<Byte>, area: seq<Byte>): Option<Contents> {
    var t :- Expect(header, [1, 4]);
    var streams :- ReadStreams(t);
    var names :- ReadListing(streams.rest, |streams.value.sub.sizes|);
    Assemble(streams.value, names, area)
  }

  /** Files Info, then the end of the header and nothing behind it. */
  function ReadListing(s: seq<Byte>, count: nat): Option<seq<Text>> {
    var names :- ReadFiles(s, count);
    var t :- Expect(names.rest, [0]);
    if t != [] then None else Some(names.value)
  }

  function Assemble(streams: Streams, names: seq<Text>, area: seq<Byte>): Option<Contents> {
    var Streams(pack, unpack, sub) := streams;
    if pack.position + pack.size > |area| then None
    else Some(Contents(area[pack.position..pack.position + pack.size], pack.crc,
                       unpack.coder.methodId, unpack.coder.properties,
                       unpack.size, unpack.crc, sub.sizes, sub.crcs, names))
  }

  /** The three numbers of a start header of twenty bytes. */
  datatype Start = Start(offset: nat, size: nat, crc: nat)

  function ReadStart(crc32: Crc, s: seq<Byte>): Option<Parsed<Start>> {
    var t :- Expect(s, MAGIC);
    var startCrc :- ReadWord(t);
    var start :- Take(startCrc.rest, 20);
    if crc32(start.value) != startCrc.value then None
    else Some(Parsed(StartFields(start.value), start.rest))
  }

  function StartFields(start: seq<Byte>): Start
    requires |start| == 20
  {
    Start(FromBytes(start[..8], 0), FromBytes(start[8..16], 0), FromBytes(start[16..], 0))
  }

  /** Reads an archive that starts the bytes; both header checksums must hold. */
  function ReadArchive(crc32: Crc, s: seq<Byte>): Option<Contents> {
    var start :- ReadStart(crc32, s);
    var area :- Take(start.rest, start.value.offset);
    var header :- Take(area.rest, start.value.size);
    if crc32(header.value) != start.value.crc then None else ReadHeader(header.value, area.value)
  }

  // ---------------------------------------------------------------- sections read back

  lemma ExpectPrefix(prefix: seq<Byte>, rest: seq<Byte>)
    ensures Expect(prefix + rest, prefix) == Some(rest)
  {
  }

  lemma TakePrefix(s: seq<Byte>, rest: seq<Byte>)
    ensures Take(s + rest, |s|) == Some(Parsed(s, rest))
  {
  }

  lemma WordRoundTrip(w: Word32, rest: seq<Byte>)
    ensures ReadWord(Word(w) + rest) == Some(Parsed(w, rest))
  {
    assert Scale(1, 4) == 0x1_0000_0000;
    FixedRoundTrip(w, 4);
    TakePrefix(Word(w), rest);
  }

  lemma FixedRoundTrip(value: nat, count: nat)
    requires value < Scale(1, count)
    ensures FromBytes(LittleEndian(value, count), 0) == value
  {
    HighPartBound(value, count, 1);
    LittleEndianRoundTrip(value, count);
  }

  lemma NumReadsBack(n: int, rest: seq<Byte>)
    requires Number(n)
    ensures ReadNumber(Num(n) + rest) == Some(Parsed(n, rest))
  {
    NumberRoundTrip(n, rest);
  }

  lemma NumReadsAfter(id: seq<Byte>, n: int, rest: seq<Byte>)
    requires Number(n)
    ensures ReadNumberAfter(id + (Num(n) + rest), id) == Some(Parsed(n, rest))
  {
    ExpectPrefix(id, Num(n) + rest);
    NumReadsBack(n, rest);
  }

  lemma DigestReadsBack(w: Word32, rest: seq<Byte>)
    ensures ReadDigest(([0xA, 1] + Word(w)) + ([0] + rest)) == Some(Parsed(w, rest))
  {
    var tail := Word(w) + ([0] + rest);
    assert ([0xA, 1] + Word(w)) + ([0] + rest) == [0xA, 1] + tail;
    ExpectPrefix([0xA, 1], tail);
    WordRoundTrip(w, [0] + rest);
    ExpectPrefix([0], rest);
  }

  lemma PackInfoReadsBack(c: Contents, rest: seq<Byte>)
    requires Number(|c.packed|)
    ensures ReadPackInfo(PackInfoBytes(c) + rest) == Some(Parsed(PackInfo(0, |c.packed|, c.packedCrc), rest))
  {
    var digest := [0xA, 1] + Word(c.packedCrc);
    ReassociateSeven([6], Num(0), Num(1), [9], Num(|c.packed|), digest, [0], rest);
    var u := [9] + (Num(|c.packed|) + (digest + ([0] + rest)));
    NumReadsAfter([6], 0, Num(1) + u);
    NumReadsBack(1, u);
    NumReadsAfter([9], |c.packed|, digest + ([0] + rest));
    DigestReadsBack(c.packedCrc, rest);
  }

  /** Method id and properties come back, whether or not the flag announces properties. */
  lemma CoderReadsBack(c: Contents, rest: seq<Byte>)
    requires |c.methodId| < 0x10 && Number(|c.properties|)
    ensures ReadCoder(CoderBytes(c) + rest) == Some(Parsed(Coder(c.methodId, c.properties), rest))
  {
    if c.properties == [] {
      PlainCoderReadsBack(c, rest);
    } else {
      FlaggedCoderReadsBack(c, rest);
    }
  }

  lemma PlainCoderReadsBack(c: Contents, rest: seq<Byte>)
    requires |c.methodId| < 0x10 && c.properties == []
    ensures ReadCoder(CoderBytes(c) + rest) == Some(Parsed(Coder(c.methodId, []), rest))
  {
    CoderInOrder([|c.methodId|], c.methodId, [], rest);
    assert [] + rest == rest;
    TakePrefix(c.methodId, rest);
  }

  lemma FlaggedCoderReadsBack(c: Contents, rest: seq<Byte>)
    requires |c.methodId| < 0x10 && Number(|c.properties|) && c.properties != []
    ensures ReadCoder(CoderBytes(c) + rest) == Some(Parsed(Coder(c.methodId, c.properties), rest))
  {
    var n, properties := |c.methodId|, Num(|c.properties|) + c.properties;
    assert (n + 0x20) / 0x10 == 2 && (n + 0x20) % 0x10 == n;
    CoderInOrder([n + 0x20], c.methodId, properties, rest);
    TakePrefix(c.methodId, properties + rest);
    assert properties + rest == Num(|c.properties|) + (c.properties + rest);
    NumReadsBack(|c.properties|, c.properties + rest);
    TakePrefix(c.properties, rest);
  }

  lemma CoderInOrder(first: seq<Byte>, id: seq<Byte>, properties: seq<Byte>, rest: seq<Byte>)
    requires |first| == 1
    ensures var s := first + id + properties + rest;
            s[0] == first[0] && s[1..] == id + (properties + rest)
  {
  }

  lemma UnpackInfoReadsBack(c: Contents, rest: seq<Byte>)
    requires |c.methodId| < 0x10 && Number(|c.properties|) && Number(c.unpackSize)
    ensures ReadUnpackInfo(UnpackInfoBytes(c) + rest)
         == Some(Parsed(UnpackInfo(Coder(c.methodId, c.properties), c.unpackSize, c.unpackCrc), rest))
  {
    var digest := [0xA, 1] + Word(c.unpackCrc);
    UnpackInOrder([7, 0xB], Num(1), [0], CoderBytes(c), [0xC], Num(c.unpackSize), digest, rest);
    var w := [0xC] + (Num(c.unpackSize) + (digest + ([0] + rest)));
    NumReadsAfter([7, 0xB], 1, [0] + (Num(1) + (CoderBytes(c) + w)));
    NumReadsAfter([0], 1, CoderBytes(c) + w);
    CoderReadsBack(c, w);
    NumReadsAfter([0xC], c.unpackSize, digest + ([0] + rest));
    DigestReadsBack(c.unpackCrc, rest);
  }

  lemma UnpackInOrder<T>(a: seq<T>, one: seq<T>, zero: seq<T>, b: seq<T>, c: seq<T>, d: seq<T>, e: seq<T>, rest: seq<T>)
    ensures (a + one) + (zero + one) + b + c + d + e + zero + rest
         == a + (one + (zero + (one + (b + (c + (d + (e + (zero + rest))))))))
  {
  }

  lemma {:induction false} SizesReadBack(sizes: seq<int>, rest: seq<Byte>)
    requires forall i :: 0 <= i < |sizes| ==> Number(sizes[i])
    ensures ReadNumbers(SizesBytes(sizes) + rest, |sizes|) == Some(Parsed(sizes, rest))
  {
    if sizes == [] {
      assert SizesBytes(sizes) + rest == rest;
    } else {
      var tail := SizesBytes(sizes[1..]) + rest;
      assert SizesBytes(sizes) + rest == Num(sizes[0]) + tail;
      NumReadsBack(sizes[0], tail);
      SizesReadBack(sizes[1..], rest);
      assert [sizes[0]] + sizes[1..] == sizes;
    }
  }

  lemma {:induction false} CrcsReadBack(crcs: seq<Word32>, rest: seq<Byte>)
    ensures ReadWords(CrcsBytes(crcs) + rest, |crcs|) == Some(Parsed(crcs, rest))
  {
    if crcs == [] {
      assert CrcsBytes(crcs) + rest == rest;
    } else {
      var tail := CrcsBytes(crcs[1..]) + rest;
      assert CrcsBytes(crcs) + rest == Word(crcs[0]) + tail;
      WordRoundTrip(crcs[0], tail);
      CrcsReadBack(crcs[1..], rest);
      assert [crcs[0]] + crcs[1..] == crcs;
    }
  }

  predicate LastSizeNonnegative(c: Contents) { |c.sizes| > 0 && c.sizes[|c.sizes| - 1] >= 0 }

  /** The omitted size comes back exactly when it is not negative. */
  lemma SubStreamsReadBack(c: Contents, unpack: UnpackInfo, rest: seq<Byte>)
    requires Writable(c) && unpack.size == c.unpackSize && unpack.crc == c.unpackCrc
    ensures ReadSubStreams(SubStreamsBytes(c) + rest, unpack)
         == if LastSizeNonnegative(c) then Some(Parsed(SubStreams(c.sizes, c.crcs), rest)) else None
  {
    var n := |c.sizes|;
    if n == 1 {
      assert SubStreamsBytes(c) + rest == [8, 0xD] + (Num(1) + ([0] + rest));
      NumReadsAfter([8, 0xD], 1, [0] + rest);
      ExpectPrefix([0], rest);
      assert c.sizes == [c.sizes[0]] && c.crcs == [c.crcs[0]];
      assert Sum(c.sizes) == c.sizes[0] + Sum([]);
    } else {
      ManyStreamsReadBack(c, unpack, rest);
    }
  }

  lemma ManyStreamsReadBack(c: Contents, unpack: UnpackInfo, rest: seq<Byte>)
    requires Writable(c) && unpack.size == c.unpackSize && unpack.crc == c.unpackCrc
    requires |c.sizes| > 1
    ensures ReadSubStreams(SubStreamsBytes(c) + rest, unpack)
         == if LastSizeNonnegative(c) then Some(Parsed(SubStreams(c.sizes, c.crcs), rest)) else None
  {
    var n := |c.sizes|;
    var sizes := SizesBytes(c.sizes[..n - 1]);
    StreamsInOrder([8, 0xD], Num(n), [9], sizes, [0xA, 1], CrcsBytes(c.crcs), [0], rest);
    var v := [0xA, 1] + (CrcsBytes(c.crcs) + ([0] + rest));
    NumReadsAfter([8, 0xD], n, [9] + (sizes + v));
    SizesSectionReadsBack(c, v);
    CrcsSectionReadsBack(c.crcs, rest);
  }

  lemma SizesSectionReadsBack(c: Contents, rest: seq<Byte>)
    requires Writable(c) && |c.sizes| > 1
    ensures ReadSizes([9] + (SizesBytes(c.sizes[..|c.sizes| - 1]) + rest), |c.sizes|, c.unpackSize)
         == if LastSizeNonnegative(c) then Some(Parsed(c.sizes, rest)) else None
  {
    var front := c.sizes[..|c.sizes| - 1];
    ExpectPrefix([9], SizesBytes(front) + rest);
    SizesReadBack(front, rest);
    LastIsRemainder(c.sizes);
  }

  lemma LastIsRemainder(sizes: seq<int>)
    requires |sizes| > 0
    ensures var front, last := sizes[..|sizes| - 1], sizes[|sizes| - 1];
            sizes == front + [last] && last == Sum(sizes) - Sum(front)
  {
    var front, last := sizes[..|sizes| - 1], sizes[|sizes| - 1];
    assert sizes == front + [last];
    SumConcat(front, [last]);
    assert Sum([last]) == last;
  }

  lemma CrcsSectionReadsBack(crcs: seq<Word32>, rest: seq<Byte>)
    ensures ReadCrcs([0xA, 1] + (CrcsBytes(crcs) + ([0] + rest)), |crcs|) == Some(Parsed(crcs, rest))
  {
    ExpectPrefix([0xA, 1], CrcsBytes(crcs) + ([0] + rest));
    CrcsReadBack(crcs, [0] + rest);
    ExpectPrefix([0], rest);
  }

  lemma StreamsInOrder<T>(a: seq<T>, b: seq<T>, c: seq<T>, d: seq<T>, e: seq<T>, f: seq<T>, g: seq<T>, rest: seq<T>)
    ensures (a + b) + (c + d + e + f) + g + rest == a + (b + (c + (d + (e + (f + (g + rest))))))
  {
  }

  /** The names come back exactly when none of them holds a NUL. */
  lemma FilesReadBack(c: Contents, rest: seq<Byte>)
    requires Writable(c)
    ensures ReadFiles(FilesBytes(c) + rest, |c.names|)
         == if AllNulFree(c.names) then Some(Parsed(c.names, rest)) else None
  {
    var names := NamesBytes(c.names);
    var v := names + ([0] + rest);
    ReassociateSix([5], Num(|c.names|), [0x11], Num(|names|), names, [0], rest);
    NumReadsAfter([5], |c.names|, [0x11] + (Num(|names|) + v));
    NumReadsAfter([0x11], |names|, v);
    TakePrefix(names, [0] + rest);
    ExpectPrefix([0], Encode(Terminated(c.names)));
    NamesReadBack(c.names);
    ExpectPrefix([0], rest);
  }

  predicate Readable(c: Contents) { LastSizeNonnegative(c) && AllNulFree(c.names) }

  function StreamsOf(c: Contents): Streams
    requires Writable(c)
  {
    Streams(PackInfo(0, |c.packed|, c.packedCrc),
            UnpackInfo(Coder(c.methodId, c.properties), c.unpackSize, c.unpackCrc),
            SubStreams(c.sizes, c.crcs))
  }

  lemma StreamsReadBack(c: Contents, rest: seq<Byte>)
    requires Writable(c)
    ensures ReadStreams(PackInfoBytes(c) + (UnpackInfoBytes(c) + (SubStreamsBytes(c) + ([0] + rest))))
         == if LastSizeNonnegative(c) then Some(Parsed(StreamsOf(c), rest)) else None
  {
    var sub := SubStreamsBytes(c) + ([0] + rest);
    PackInfoReadsBack(c, UnpackInfoBytes(c) + sub);
    UnpackInfoReadsBack(c, sub);
    SubStreamsReadBack(c, StreamsOf(c).unpack, [0] + rest);
    ExpectPrefix([0], rest);
  }

  lemma HeaderOpens(c: Contents)
    requires Writable(c)
    ensures Expect(HeaderBytes(c), [1, 4])
         == Some(PackInfoBytes(c) + (UnpackInfoBytes(c) + (SubStreamsBytes(c) + ([0] + (FilesBytes(c) + [0])))))
  {
    ReassociateSix([1, 4], PackInfoBytes(c), UnpackInfoBytes(c), SubStreamsBytes(c), [0], FilesBytes(c), [0]);
    ExpectPrefix([1, 4], PackInfoBytes(c) + (UnpackInfoBytes(c) + (SubStreamsBytes(c) + ([0] + (FilesBytes(c) + [0])))));
  }

  lemma AssembledIs(c: Contents)
    requires Writable(c)
    ensures Assemble(StreamsOf(c), c.names, c.packed) == Some(c)
  {
    assert c.packed[0..|c.packed|] == c.packed;
  }

  lemma HeaderReadsBack(c: Contents)
    requires Writable(c)
    ensures ReadHeader(HeaderBytes(c), c.packed) == if Readable(c) then Some(c) else None
  {
    HeaderOpens(c);
    StreamsReadBack(c, FilesBytes(c) + [0]);
    ListingReadsBack(c);
    AssembledIs(c);
  }

  lemma ListingReadsBack(c: Contents)
    requires Writable(c)
    ensures ReadListing(FilesBytes(c) + [0], |c.sizes|) == if AllNulFree(c.names) then Some(c.names) else None
  {
    FilesReadBack(c, [0]);
    ExpectPrefix([0], []);
    assert [0] + [] == [0];
  }

  /**
   * Reading the written bytes, whatever trails them, recovers everything that was
   * recorded exactly when the omitted last size is not negative and no name holds a
   * NUL; otherwise the reader refuses the archive.
   */
  lemma ArchiveReadsBack(crc32: Crc, c: Contents, rest: seq<Byte>)
    requires Writable(c) && Number(|HeaderBytes(c)|)
    ensures ReadArchive(crc32, SignatureBytes(crc32, c.packed, HeaderBytes(c)) + rest)
         == if Readable(c) then Some(c) else None
  {
    SignatureReadsBack(crc32, c.packed, HeaderBytes(c), rest);
    HeaderReadsBack(c);
  }

  /** Both headers survive the signature header, whatever trails them. */
  lemma SignatureReadsBack(crc32: Crc, packed: seq<Byte>, header: seq<Byte>, rest: seq<Byte>)
    requires Number(|packed|) && Number(|header|)
    ensures ReadArchive(crc32, SignatureBytes(crc32, packed, header) + rest) == ReadHeader(header, packed)
  {
    var start := StartBytes(crc32, packed, header);
    var word := Word(crc32(start));
    ReassociateFive(MAGIC, word, start, packed, header, rest);
    StartReadsBack(crc32, packed, header, packed + (header + rest));
    TakePrefix(packed, header + rest);
    TakePrefix(header, rest);
  }

  lemma StartReadsBack(crc32: Crc, packed: seq<Byte>, header: seq<Byte>, rest: seq<Byte>)
    requires Number(|packed|) && Number(|header|)
    ensures ReadStart(crc32, MAGIC + (Word(crc32(StartBytes(crc32, packed, header)))
                                      + (StartBytes(crc32, packed, header) + rest)))
         == Some(Parsed(Start(|packed|, |header|, crc32(header)), rest))
  {
    var start := StartBytes(crc32, packed, header);
    ExpectPrefix(MAGIC, Word(crc32(start)) + (start + rest));
    WordRoundTrip(crc32(start), start + rest);
    TakePrefix(start, rest);
    FieldsReadBack(|packed|, |header|, crc32(header));
  }

  lemma FieldsReadBack(packed: nat, header: nat, crc: Word32)
    requires Number(packed) && Number(header)
    ensures var start := LittleEndian(packed, 8) + LittleEndian(header, 8) + Word(crc);
            StartFields(start) == Start(packed, header, crc)
  {
    var start := LittleEndian(packed, 8) + LittleEndian(header, 8) + Word(crc);
    assert start[..8] == LittleEndian(packed, 8);
    assert start[8..16] == LittleEndian(header, 8);
    assert start[16..] == Word(crc);
    assert Scale(1, 8) == UINT64_LIMIT && Scale(1, 4) == 0x1_0000_0000;
    FixedRoundTrip(packed, 8);
    FixedRoundTrip(header, 8);
    FixedRoundTrip(crc, 4);
  }
}
