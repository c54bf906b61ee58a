/**
 * Numbers, names and headers byte by byte, as 7zFormat.txt and RFC 2781 lay them out:
 * what reader and writer agree on is also what others read.
 */
module SevenZipExamples {
  import opened Bytes
  import opened Sequences
  import opened SevenZipNumber
  import opened Utf16
  import opened SevenZip
  import opened SevenZipWriter

  // ---------------------------------------------------------------- numbers

  lemma LittleEndianExample()
    ensures LittleEndian(0x0102_0304, 4) == [4, 3, 2, 1]
  {
    assert LittleEndian(0x0102_03, 3) == [3, 2, 1] by {
      assert LittleEndian(0x0102, 2) == [2, 1] by {
        assert LittleEndian(1, 1) == [1];
      }
    }
  }

  lemma OneByte(value: nat)
    requires value < 0x80
    ensures NumberBytes(value) == [value]
  {
  }

  lemma TwoBytes(value: nat)
    requires 0x80 <= value < 0x4000
    ensures NumberBytes(value) == [0x80 + value / 0x100, value % 0x100]
  {
    assert LittleEndian(value, 1) == [value % 0x100];
    assert HighPart(value, 1) == value / 0x100;
  }

  lemma NineBytes(value: nat)
    requires 0x100_0000_0000_0000 <= value < 18446744073709551616
    ensures NumberBytes(value) == [0xFF] + LittleEndian(value, 8)
  {
    SevenZipNumber.NineBytes(value);
  }

  // ---------------------------------------------------------------- names

  /** RFC 2781, section 5: U+12345 is the pair D808 DF45; here the low byte comes first. */
  lemma SurrogatePairExample()
    ensures EncodePoint(0x1_2345) == [0x08, 0xD8, 0x45, 0xDF]
    ensures EncodePoint(0x20AC) == [0xAC, 0x20]
  {
  }

  /** Exactly the code points from U+D800 to U+DFFF have no encoding. */
  lemma OnlySurrogatesRefused(c: CodePoint)
    ensures Encodable([c]) <==> c < 0xD800 || c > 0xDFFF
  {
    assert [c][0] == c;
  }

  lemma NameList(a: CodePoint, b: CodePoint)
    requires a < 0x80 && b < 0x80
    ensures NamesBytes([[a]]) == [0, a, 0, 0, 0]
    ensures NamesBytes([[a], [b]]) == [0, a, 0, 0, 0, b, 0, 0, 0]
  {
    TerminatedLetters(a, b);
    EncodeTwo(a, 0);
    EncodeTwo(b, 0);
    FlatMapConcat(EncodePoint, [a, 0], [b, 0]);
    assert [a, 0] + [b, 0] == [a, 0, b, 0];
  }

  lemma TerminatedLetters(a: CodePoint, b: CodePoint)
    ensures Terminated([[a]]) == [a, 0] && Terminated([[a], [b]]) == [a, 0, b, 0]
  {
    assert [[a], [b]][1..] == [[b]] && [[a]][1..] == [] && [[b]][1..] == [];
    assert Terminated([[b]]) == [b, 0];
  }

  lemma EncodeTwo(a: CodePoint, b: CodePoint)
    requires a < 0x80 && b < 0x80
    ensures Encode([a, b]) == [a, 0, b, 0]
  {
    assert [a, b][1..] == [b] && [b][1..] == [];
    assert FlatMap(EncodePoint, [b]) == EncodePoint(b) + [];
  }

  // ---------------------------------------------------------------- sections

  lemma SmallNum(n: nat)
    requires n < 0x80
    ensures Num(n) == [n]
  {
    OneByte(n);
  }

  lemma PackFront(stream: Byte, count: Byte, n: Byte)
    requires stream < 0x80 && count < 0x80 && n < 0x80
    ensures [6] + Num(stream) + Num(count) + [9] + Num(n) == [6, stream, count, 9, n]
  {
    SmallNum(stream);
    SmallNum(count);
    SmallNum(n);
  }

  lemma PackInfoLayout(c: Contents)
    requires |c.packed| < 0x80
    ensures PackInfoBytes(c) == [6, 0, 1, 9, |c.packed|] + ([0x0A, 1] + LittleEndian(c.packedCrc, 4)) + [0]
  {
    PackFront(0, 1, |c.packed|);
  }

  /** An uncompressed folder, and one with the single property byte of LZMA2. */
  lemma UnpackInfoLayout(c: Contents)
    requires 0 <= c.unpackSize < 0x80
    ensures c.methodId == [0] && c.properties == [] ==>
      UnpackInfoBytes(c) == [7, 0x0B, 1, 0, 1, 1, 0, 0x0C, c.unpackSize, 0x0A, 1] + Word(c.unpackCrc) + [0]
    ensures c.methodId == [0x21] && |c.properties| == 1 ==>
      UnpackInfoBytes(c)
      == [7, 0x0B, 1, 0, 1, 0x21, 0x21, 1, c.properties[0], 0x0C, c.unpackSize, 0x0A, 1] + Word(c.unpackCrc) + [0]
  {
    SmallNum(1);
    SmallNum(c.unpackSize);
    if c.methodId == [0x21] && |c.properties| == 1 {
      assert c.properties == [c.properties[0]];
    }
  }

  lemma OneSize(n: int)
    ensures SizesBytes([n]) == Num(n)
  {
    assert [n][1..] == [];
    assert FlatMap(Num, [n][1..]) == [];
  }

  lemma TwoCrcs(crcs: seq<Word32>)
    requires |crcs| == 2
    ensures CrcsBytes(crcs) == Word(crcs[0]) + Word(crcs[1])
  {
    var rest := crcs[1..];
    assert rest[0] == crcs[1] && rest[1..] == [];
    assert FlatMap(Word, rest[1..]) == [];
    assert FlatMap(Word, rest) == Word(rest[0]) + [];
  }

  lemma SubStreamsLayout(c: Contents)
    requires |c.sizes| == |c.crcs|
    ensures |c.sizes| == 1 ==> SubStreamsBytes(c) == [8, 0x0D, 1, 0]
    ensures |c.sizes| == 2 && 0 <= c.sizes[0] < 0x80 ==>
      SubStreamsBytes(c) == [8, 0x0D, 2, 9, c.sizes[0], 0x0A, 1] + Word(c.crcs[0]) + Word(c.crcs[1]) + [0]
  {
    SmallNum(1);
    SmallNum(2);
    if |c.sizes| == 2 && 0 <= c.sizes[0] < 0x80 {
      SmallNum(c.sizes[0]);
      assert c.sizes[..1] == [c.sizes[0]];
      OneSize(c.sizes[0]);
      TwoCrcs(c.crcs);
    }
  }

  lemma FilesLayout(c: Contents, a: CodePoint, b: CodePoint)
    requires a < 0x80 && b < 0x80
    ensures c.names == [[a]] ==> FilesBytes(c) == [5, 1, 0x11, 5, 0, a, 0, 0, 0, 0]
    ensures c.names == [[a], [b]] ==> FilesBytes(c) == [5, 2, 0x11, 9, 0, a, 0, 0, 0, b, 0, 0, 0, 0]
  {
    NameList(a, b);
    SmallNum(1);
    SmallNum(2);
    SmallNum(5);
    SmallNum(9);
  }

  lemma HeaderLayout(c: Contents)
    requires Writable(c)
    ensures HeaderBytes(c) == [1, 4] + PackInfoBytes(c) + UnpackInfoBytes(c) + SubStreamsBytes(c) + [0] + FilesBytes(c) + [0]
  {
  }

  /** The signature, the version 0.4, and the start header with its own checksum. */
  lemma SignatureLayout(crc32: Crc, packed: seq<Byte>, header: seq<Byte>)
    ensures var start := LittleEndian(|packed|, 8) + LittleEndian(|header|, 8) + LittleEndian(crc32(header), 4);
            SignatureBytes(crc32, packed, header)
            == [0x37, 0x7A, 0xBC, 0xAF, 0x27, 0x1C, 0, 4] + LittleEndian(crc32(start), 4) + start + packed + header
  {
  }
}
