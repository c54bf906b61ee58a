/**
 * `archive` itself (qualification/section-2/synthetic_7z.py, lines 35-71): its
 * refusals, the bytes it appends section by section, and what reading them back
 * recovers of the entries it was given.
 */
module SevenZipWriter {
  import opened Wrappers
  import opened Bytes
  import opened Sequences
  import opened SevenZipNumber
  import opened Utf16
  import opened SevenZip

  datatype Packed = Packed(bytes: seq<Byte>, methodId: seq<Byte>, properties: seq<Byte>)

  /** The compression method's bytes, id and properties. */
  function Pack(codecs: Codecs, payload: seq<Byte>, compression: string, dictionary: int): Result<Packed, ArchiveError> {
    if compression == "copy" then Success(Packed(payload, [0], []))
    else if compression == "zstd" then Success(Packed(codecs.zstd(payload), [4, 0xF7, 0x11, 1], []))
    else if compression == "lzma2" then
      if 0 <= dictionary < 0x100 then Success(Packed(codecs.lzma2(payload), [0x21], [dictionary]))
      else Failure(PropertyOutOfRange)
    else if compression == "lzma1" then
      if 0 <= dictionary < 0x1_0000_0000
      then Success(Packed(codecs.lzma1(payload), [3, 1, 1], [0x5D] + LittleEndian(dictionary, 4)))
      else Failure(PropertyOutOfRange)
    else Failure(UnsupportedMethod)
  }

  function Data(e: Entry): seq<Byte> { e.data }

  function Payload(entries: seq<Entry>): seq<Byte> { FlatMap(Data, entries) }

  function Names(entries: seq<Entry>): (names: seq<Text>)
    ensures |names| == |entries|
  {
    seq(|entries|, i requires 0 <= i < |entries| => entries[i].name)
  }

  function DataCrcs(crc32: Crc, entries: seq<Entry>): (crcs: seq<Word32>)
    ensures |crcs| == |entries|
  {
    seq<Word32>(|entries|, i requires 0 <= i < |entries| => crc32(entries[i].data))
  }

  function Sizes(entries: seq<Entry>, declared: Option<seq<int>>): seq<int> {
    if declared.Some? then declared.value
    else seq(|entries|, i requires 0 <= i < |entries| => |entries[i].data|)
  }

  predicate AllNumbers(s: seq<int>) { forall i :: 0 <= i < |s| ==> Number(s[i]) }

  /** What the archive is to record; meaningful once the checks before it passed. */
  function Describe(codecs: Codecs, entries: seq<Entry>, packed: Packed, sizes: seq<int>): Contents
  {
    Contents(packed.bytes, codecs.crc32(packed.bytes), packed.methodId, packed.properties,
             Sum(sizes), codecs.crc32(Payload(entries)), sizes, DataCrcs(codecs.crc32, entries), Names(entries))
  }

  /** The source's checks and range errors, in its order. */
  function Plan(codecs: Codecs, entries: seq<Entry>, compression: string, dictionary: int,
                declared: Option<seq<int>>): (r: Result<Contents, ArchiveError>)
    ensures r.Success? ==> Writable(r.value)
  {
    var payload := Payload(entries);
    var sizes := Sizes(entries, declared);
    if |payload| > CEILING then Failure(PayloadCeiling)
    else if |sizes| != |entries| || entries == [] then Failure(SizeListMismatch)
    else
      var packed :- Pack(codecs, payload, compression, dictionary);
      if !Number(|packed.bytes|) || !Number(Sum(sizes)) || !Number(|entries|) then Failure(NumberOutOfRange)
      else if !AllNumbers(sizes[..|sizes| - 1]) then Failure(NumberOutOfRange)
      else if !AllEncodable(Names(entries)) then Failure(NameNotEncodable)
      else if !Number(|NamesBytes(Names(entries))|) then Failure(NumberOutOfRange)
      else
        SingleEntryPayload(entries);
        var c := Describe(codecs, entries, packed, sizes);
        assert forall i :: 0 <= i < |sizes| - 1 ==> sizes[..|sizes| - 1][i] == sizes[i];
        if !Number(|HeaderBytes(c)|) then Failure(NumberOutOfRange) else Success(c)
  }

  lemma SingleEntryPayload(entries: seq<Entry>)
    ensures |entries| == 1 ==> Payload(entries) == entries[0].data
  {
    if |entries| == 1 {
      assert entries[1..] == [];
      assert FlatMap(Data, entries[1..]) == [];
    }
  }

  /** `uint64` with the writer's error. */
  method Encoded(n: int) returns (r: Result<seq<Byte>, ArchiveError>)
    ensures r == if Number(n) then Success(Num(n)) else Failure(NumberOutOfRange)
  {
    var s := Uint64(n);
    match s
    case Success(bytes) => return Success(bytes);
    case Failure(_) => return Failure(NumberOutOfRange);
  }

  method PackSection(crc32: Crc, packed: seq<Byte>, ghost c: Contents) returns (r: Result<seq<Byte>, ArchiveError>)
    requires c.packed == packed && c.packedCrc == crc32(packed)
    ensures r == if Number(|packed|) then Success(PackInfoBytes(c)) else Failure(NumberOutOfRange)
  {
    var zero := Encoded(0);
    var one := Encoded(1);
    var size :- Encoded(|packed|);
    return Success([6] + zero.value + one.value + [9] + size + ([0xA, 1] + Word(crc32(packed))) + [0]);
  }

  method CoderSection(packed: Packed, ghost c: Contents) returns (coder: seq<Byte>)
    requires c.methodId == packed.methodId && c.properties == packed.properties
    requires |c.methodId| < 0x10 && Number(|c.properties|)
    ensures coder == CoderBytes(c)
  {
    CoderFlag(|packed.methodId|);
    var flag := if packed.properties != [] then 0x20 else 0;
    coder := [Or(|packed.methodId|, flag)] + packed.methodId;
    if packed.properties != [] {
      var size := Encoded(|packed.properties|);
      coder := coder + (size.value + packed.properties);
    } else {
      Unextended(coder);
    }
  }

  lemma Unextended<T>(s: seq<T>)
    ensures s + [] == s
  {
  }

  lemma CoderFlag(n: nat)
    requires n < 0x10
    ensures Or(n, 0x20) == n + 0x20 && Or(n, 0) == n
  {
    assert ShiftLeft(1, 5) == 0x20;
    DisjointBits(1, n, 5);
    OrCommutes(n, 0x20);
    OrZero(n);
  }

  method UnpackSection(packed: Packed, size: int, crc: Word32, ghost c: Contents)
    returns (r: Result<seq<Byte>, ArchiveError>)
    requires c.methodId == packed.methodId && c.properties == packed.properties
    requires c.unpackSize == size && c.unpackCrc == crc
    requires |c.methodId| < 0x10 && Number(|c.properties|)
    ensures r == if Number(size) then Success(UnpackInfoBytes(c)) else Failure(NumberOutOfRange)
  {
    var coder := CoderSection(packed, c);
    var one := Encoded(1);
    var total :- Encoded(size);
    return Success(([7, 0xB] + one.value) + ([0] + one.value) + coder + [0xC] + total + ([0xA, 1] + Word(crc)) + [0]);
  }

  method JoinSizes(sizes: seq<int>) returns (r: Result<seq<Byte>, ArchiveError>)
    ensures r == if AllNumbers(sizes) then Success(SizesBytes(sizes)) else Failure(NumberOutOfRange)
  {
    var joined := [];
    for i := 0 to |sizes|
      invariant AllNumbers(sizes[..i]) && joined == SizesBytes(sizes[..i])
    {
      var size := Encoded(sizes[i]);
      if size.Failure? {
        return Failure(NumberOutOfRange);
      }
      SizesSnoc(sizes[..i], sizes[i]);
      assert sizes[..i + 1] == sizes[..i] + [sizes[i]];
      joined := joined + size.value;
    }
    assert sizes[..|sizes|] == sizes;
    return Success(joined);
  }

  lemma SizesSnoc(sizes: seq<int>, n: int)
    ensures SizesBytes(sizes + [n]) == SizesBytes(sizes) + Num(n)
  {
    FlatMapConcat(Num, sizes, [n]);
    assert SizesBytes([n]) == Num(n) + SizesBytes([]);
  }

  method SubStreamsSection(crc32: Crc, entries: seq<Entry>, sizes: seq<int>, ghost c: Contents)
    returns (r: Result<seq<Byte>, ArchiveError>)
    requires |entries| == |sizes| > 0
    requires c.sizes == sizes && c.crcs == DataCrcs(crc32, entries)
    ensures r == if Number(|entries|) && AllNumbers(sizes[..|sizes| - 1])
                 then Success(SubStreamsBytes(c)) else Failure(NumberOutOfRange)
  {
    var count :- Encoded(|entries|);
    var substreams := [8, 0xD] + count;
    if |entries| > 1 {
      var written :- JoinSizes(sizes[..|sizes| - 1]);
      substreams := substreams + ([9] + written + [0xA, 1] + CrcsBytes(DataCrcs(crc32, entries)));
    } else {
      assert substreams + [] == substreams;
    }
    return Success(substreams + [0]);
  }

  method JoinNames(entries: seq<Entry>) returns (r: Result<seq<Byte>, ArchiveError>)
    ensures r == if AllEncodable(Names(entries)) then Success(Encode(Terminated(Names(entries))))
                 else Failure(NameNotEncodable)
  {
    var joined := [];
    ghost var names := Names(entries);
    for i := 0 to |entries|
      invariant AllEncodable(names[..i]) && joined == Encode(Terminated(names[..i]))
    {
      if !Encodable(entries[i].name) {
        assert !Encodable(names[i]);
        return Failure(NameNotEncodable);
      }
      TerminatedSnoc(names[..i], names[i]);
      assert names[..i + 1] == names[..i] + [names[i]];
      joined := joined + Encode(entries[i].name + [0]);
    }
    assert names[..|entries|] == names;
    return Success(joined);
  }

  lemma TerminatedSnoc(names: seq<Text>, name: Text)
    ensures Encode(Terminated(names + [name])) == Encode(Terminated(names)) + Encode(name + [0])
  {
    TerminatedConcat(names, name);
    FlatMapConcat(EncodePoint, Terminated(names), name + [0]);
  }

  lemma {:induction false} TerminatedConcat(names: seq<Text>, name: Text)
    ensures Terminated(names + [name]) == Terminated(names) + (name + [0])
  {
    if names == [] {
      assert Terminated([name]) == name + [0] + Terminated([]);
    } else {
      TerminatedConcat(names[1..], name);
      assert (names + [name])[1..] == names[1..] + [name];
    }
  }

  method FilesSection(entries: seq<Entry>, ghost c: Contents) returns (r: Result<seq<Byte>, ArchiveError>)
    requires c.names == Names(entries) && Number(|entries|)
    ensures r == if !AllEncodable(c.names) then Failure(NameNotEncodable)
                 else if !Number(|NamesBytes(c.names)|) then Failure(NumberOutOfRange)
                 else Success(FilesBytes(c))
  {
    var joined :- JoinNames(entries);
    var names := [0] + joined;
    var count := Encoded(|entries|);
    var size :- Encoded(|names|);
    return Success([5] + count.value + [0x11] + size + names + [0]);
  }

  method Archive(codecs: Codecs, entries: seq<Entry>, compression: string := "copy", dictionary: int := 16,
                 declared: Option<seq<int>> := None)
    returns (r: Result<seq<Byte>, ArchiveError>)
    ensures var plan := Plan(codecs, entries, compression, dictionary, declared);
            r == match plan
                 case Failure(e) => Failure(e)
                 case Success(c) => Success(SignatureBytes(codecs.crc32, c.packed, HeaderBytes(c)))
  {
    var payload := Payload(entries);
    if |payload| > CEILING {
      return Failure(PayloadCeiling);
    }
    var sizes := Sizes(entries, declared);
    if |sizes| != |entries| || entries == [] {
      return Failure(SizeListMismatch);
    }
    var packed :- Pack(codecs, payload, compression, dictionary);
    ghost var c := Describe(codecs, entries, packed, sizes);
    SingleEntryPayload(entries);
    var packInfo :- PackSection(codecs.crc32, packed.bytes, c);
    var unpackInfo :- UnpackSection(packed, Sum(sizes), codecs.crc32(payload), c);
    var substreams :- SubStreamsSection(codecs.crc32, entries, sizes, c);
    var files :- FilesSection(entries, c);
    var header := [1, 4] + packInfo + unpackInfo + substreams + [0] + files + [0];
    if !Number(|header|) {
      return Failure(NumberOutOfRange);
    }
    return Success(SignatureBytes(codecs.crc32, packed.bytes, header));
  }

  /** What the caller can check of the entries before it writes them. */
  predicate Recoverable(entries: seq<Entry>, declared: Option<seq<int>>) {
    && AllNulFree(Names(entries))
    && (declared.Some? && |declared.value| > 0 ==> declared.value[|declared.value| - 1] >= 0)
  }

  lemma PlanRecords(codecs: Codecs, entries: seq<Entry>, compression: string, dictionary: int, declared: Option<seq<int>>)
    requires Plan(codecs, entries, compression, dictionary, declared).Success?
    ensures var c := Plan(codecs, entries, compression, dictionary, declared).value;
            && c.names == Names(entries) && c.sizes == Sizes(entries, declared)
            && c.crcs == DataCrcs(codecs.crc32, entries) && c.unpackSize == Sum(c.sizes)
            && Pack(codecs, Payload(entries), compression, dictionary)
               == Success(Packed(c.packed, c.methodId, c.properties))
            && Number(|HeaderBytes(c)|)
  {
  }

  lemma RecoverableIsReadable(entries: seq<Entry>, declared: Option<seq<int>>, c: Contents)
    requires Writable(c) && c.names == Names(entries) && c.sizes == Sizes(entries, declared)
    ensures Recoverable(entries, declared) <==> Readable(c)
  {
  }

  /**
   * Reading an archive back recovers every name, size, checksum, method and packed
   * byte it was made of exactly when no name holds a NUL and the last declared size
   * is not negative; otherwise the reader refuses it.
   */
  lemma ArchiveRoundTrip(codecs: Codecs, entries: seq<Entry>, compression: string, dictionary: int,
                         declared: Option<seq<int>>, rest: seq<Byte>)
    requires Plan(codecs, entries, compression, dictionary, declared).Success?
    ensures var c := Plan(codecs, entries, compression, dictionary, declared).value;
            && c.names == Names(entries) && c.sizes == Sizes(entries, declared)
            && c.crcs == DataCrcs(codecs.crc32, entries) && c.unpackSize == Sum(c.sizes)
            && Pack(codecs, Payload(entries), compression, dictionary)
               == Success(Packed(c.packed, c.methodId, c.properties))
            && ReadArchive(codecs.crc32, SignatureBytes(codecs.crc32, c.packed, HeaderBytes(c)) + rest)
               == if Recoverable(entries, declared) then Some(c) else None
  {
    var c := Plan(codecs, entries, compression, dictionary, declared).value;
    PlanRecords(codecs, entries, compression, dictionary, declared);
    RecoverableIsReadable(entries, declared, c);
    ArchiveReadsBack(codecs.crc32, c, rest);
  }

  // ---------------------------------------------------------------- what is recorded of whom

  /** Every accepted archive records each entry's name, and the checksum of its own data, at the entry's place. */
  lemma EntriesInPlace(codecs: Codecs, entries: seq<Entry>, compression: string, dictionary: int, declared: Option<seq<int>>)
    requires Plan(codecs, entries, compression, dictionary, declared).Success?
    ensures var c := Plan(codecs, entries, compression, dictionary, declared).value;
            && |c.names| == |c.crcs| == |c.sizes| == |entries|
            && (forall i :: 0 <= i < |entries| ==>
                  c.names[i] == entries[i].name && c.crcs[i] == codecs.crc32(entries[i].data))
            && (declared.None? ==> forall i :: 0 <= i < |entries| ==> c.sizes[i] == |entries[i].data|)
            && (declared.Some? ==> c.sizes == declared.value)
  {
    var c := Plan(codecs, entries, compression, dictionary, declared).value;
    PlanRecords(codecs, entries, compression, dictionary, declared);
    forall i | 0 <= i < |entries| ensures c.names[i] == entries[i].name && c.crcs[i] == codecs.crc32(entries[i].data) {
      assert c.names[i] == Names(entries)[i] && c.crcs[i] == DataCrcs(codecs.crc32, entries)[i];
    }
  }

  /** The payload is the entries' data, each behind the data of those before it. */
  lemma PayloadInPlace(before: seq<Entry>, e: Entry, behind: seq<Entry>)
    ensures Payload(before + [e] + behind) == Payload(before) + e.data + Payload(behind)
    ensures Payload([]) == []
  {
    FlatMapConcat(Data, before + [e], behind);
    FlatMapConcat(Data, before, [e]);
    assert [e][1..] == [];
    assert FlatMap(Data, [e]) == e.data + [];
  }

  lemma SumInPlace(before: seq<int>, n: int, behind: seq<int>)
    ensures Sum(before + [n] + behind) == Sum(before) + n + Sum(behind)
    ensures Sum([]) == 0
  {
    SumConcat(before + [n], behind);
    SumConcat(before, [n]);
    assert [n][1..] == [];
  }

  /** What each method packs, under which id and properties. */
  lemma MethodPacks(codecs: Codecs, payload: seq<Byte>, compression: string, dictionary: int)
    requires Pack(codecs, payload, compression, dictionary).Success?
    ensures var p := Pack(codecs, payload, compression, dictionary).value;
            || (compression == "copy" && p == Packed(payload, [0], []))
            || (compression == "zstd" && p == Packed(codecs.zstd(payload), [0x04, 0xF7, 0x11, 0x01], []))
            || (compression == "lzma2" && 0 <= dictionary < 0x100 && p == Packed(codecs.lzma2(payload), [0x21], [dictionary]))
            || (compression == "lzma1" && 0 <= dictionary < 0x1_0000_0000
                && p == Packed(codecs.lzma1(payload), [0x03, 0x01, 0x01], [0x5D] + LittleEndian(dictionary, 4)))
  {
  }

  /** The archive records those, with the checksums of the packed and the plain payload, and the total size. */
  lemma PackedInPlace(codecs: Codecs, entries: seq<Entry>, compression: string, dictionary: int, declared: Option<seq<int>>)
    requires Plan(codecs, entries, compression, dictionary, declared).Success?
    ensures var c := Plan(codecs, entries, compression, dictionary, declared).value;
            && Pack(codecs, Payload(entries), compression, dictionary) == Success(Packed(c.packed, c.methodId, c.properties))
            && c.packedCrc == codecs.crc32(c.packed) && c.unpackCrc == codecs.crc32(Payload(entries))
            && c.unpackSize == Sum(c.sizes)
  {
    PlanRecords(codecs, entries, compression, dictionary, declared);
  }

  /** The producer's ceiling is four MiB of data. */
  lemma CeilingIsFourMebibytes(codecs: Codecs, entries: seq<Entry>, compression: string, dictionary: int, declared: Option<seq<int>>)
    ensures Plan(codecs, entries, compression, dictionary, declared) == Failure(PayloadCeiling) <==> |Payload(entries)| > 4194304
  {
    var packed := Pack(codecs, Payload(entries), compression, dictionary);
    assert packed != Failure(PayloadCeiling);
  }

  // ---------------------------------------------------------------- what is accepted

  lemma NumLength(n: int)
    ensures |Num(n)| <= 9
  {
  }

  lemma {:induction false} SizesLength(sizes: seq<int>)
    ensures |SizesBytes(sizes)| <= 9 * |sizes|
  {
    if sizes != [] {
      NumLength(sizes[0]);
      SizesLength(sizes[1..]);
    }
  }

  lemma {:induction false} CrcsLength(crcs: seq<Word32>)
    ensures |CrcsBytes(crcs)| == 4 * |crcs|
  {
    if crcs != [] {
      CrcsLength(crcs[1..]);
    }
  }

  lemma SubStreamsLength(c: Contents)
    requires |c.sizes| == |c.crcs| > 0
    ensures |SubStreamsBytes(c)| <= 15 + 13 * |c.sizes|
  {
    NumLength(|c.sizes|);
    SizesLength(c.sizes[..|c.sizes| - 1]);
    CrcsLength(c.crcs);
  }

  lemma FilesLength(c: Contents)
    ensures |FilesBytes(c)| <= 21 + |NamesBytes(c.names)|
  {
    NumLength(|c.names|);
    NumLength(|NamesBytes(c.names)|);
  }

  lemma StreamsLength(c: Contents)
    requires |c.methodId| < 0x10
    ensures |PackInfoBytes(c)| <= 35 && |UnpackInfoBytes(c)| <= 66 + |c.properties|
  {
    NumLength(0);
    NumLength(1);
    NumLength(|c.packed|);
    NumLength(|c.properties|);
    NumLength(c.unpackSize);
  }

  /** The header is short beside its names, and thirteen bytes for each entry. */
  lemma HeaderLength(c: Contents)
    requires Writable(c)
    ensures |HeaderBytes(c)| <= 141 + |c.properties| + 13 * |c.sizes| + |NamesBytes(c.names)|
  {
    StreamsLength(c);
    SubStreamsLength(c);
    FilesLength(c);
  }

  /** Nothing is too long to be counted in 64 bits. */
  predicate Countable(entries: seq<Entry>, packed: Packed) {
    && Number(|packed.bytes|)
    && Number(|NamesBytes(Names(entries))| + 13 * |entries| + 0x100)
  }

  lemma PackSmall(codecs: Codecs, payload: seq<Byte>, compression: string, dictionary: int)
    requires Pack(codecs, payload, compression, dictionary).Success?
    ensures var packed := Pack(codecs, payload, compression, dictionary).value;
            |packed.methodId| <= 4 && |packed.properties| <= 5
  {
  }

  lemma DescribedFits(codecs: Codecs, entries: seq<Entry>, packed: Packed, sizes: seq<int>)
    requires |sizes| == |entries| > 0 && |packed.methodId| <= 4 && |packed.properties| <= 5 && Countable(entries, packed)
    requires AllEncodable(Names(entries)) && AllNumbers(sizes[..|sizes| - 1]) && Number(Sum(sizes))
    ensures var c := Describe(codecs, entries, packed, sizes);
            Writable(c) && Number(|HeaderBytes(c)|)
  {
    var c := Describe(codecs, entries, packed, sizes);
    SingleEntryPayload(entries);
    assert forall i :: 0 <= i < |sizes| - 1 ==> sizes[..|sizes| - 1][i] == sizes[i];
    HeaderLength(c);
  }

  lemma PlanDemands(codecs: Codecs, entries: seq<Entry>, compression: string, dictionary: int, declared: Option<seq<int>>)
    requires Plan(codecs, entries, compression, dictionary, declared).Success?
    ensures |Sizes(entries, declared)| == |entries| > 0 && AllEncodable(Names(entries))
    ensures AllNumbers(Sizes(entries, declared)[..|entries| - 1]) && Number(Sum(Sizes(entries, declared)))
  {
  }

  lemma PlanGrants(codecs: Codecs, entries: seq<Entry>, compression: string, dictionary: int, declared: Option<seq<int>>)
    requires |Sizes(entries, declared)| == |entries| > 0 && |Payload(entries)| <= CEILING
    requires Pack(codecs, Payload(entries), compression, dictionary).Success?
    requires Countable(entries, Pack(codecs, Payload(entries), compression, dictionary).value)
    requires AllEncodable(Names(entries)) && AllNumbers(Sizes(entries, declared)[..|entries| - 1])
    requires Number(Sum(Sizes(entries, declared)))
    ensures Plan(codecs, entries, compression, dictionary, declared).Success?
  {
    PackSmall(codecs, Payload(entries), compression, dictionary);
    DescribedFits(codecs, entries, Pack(codecs, Payload(entries), compression, dictionary).value, Sizes(entries, declared));
  }

  /** Sizes are accepted exactly when all but the last one, and their sum, are numbers: the last one is never written. */
  lemma PlanAccepts(codecs: Codecs, entries: seq<Entry>, compression: string, dictionary: int, declared: Option<seq<int>>)
    requires |Sizes(entries, declared)| == |entries| > 0 && |Payload(entries)| <= CEILING
    requires Pack(codecs, Payload(entries), compression, dictionary).Success?
    requires Countable(entries, Pack(codecs, Payload(entries), compression, dictionary).value)
    ensures Plan(codecs, entries, compression, dictionary, declared).Success? <==>
            && AllEncodable(Names(entries))
            && AllNumbers(Sizes(entries, declared)[..|entries| - 1]) && Number(Sum(Sizes(entries, declared)))
  {
    var sizes := Sizes(entries, declared);
    if AllEncodable(Names(entries)) && AllNumbers(sizes[..|entries| - 1]) && Number(Sum(sizes)) {
      PlanGrants(codecs, entries, compression, dictionary, declared);
    }
    if Plan(codecs, entries, compression, dictionary, declared).Success? {
      PlanDemands(codecs, entries, compression, dictionary, declared);
    }
  }

  /**
   * Non-negative declared sizes, one for each entry, with a sum below 2^64 are always written,
   * and with names that hold no NUL reading the archive recovers all of them.
   */
  lemma DeclaredSizesAccepted(codecs: Codecs, entries: seq<Entry>, compression: string, dictionary: int,
                              declared: seq<int>, rest: seq<Byte>)
    requires |declared| == |entries| > 0 && |Payload(entries)| <= CEILING && AllEncodable(Names(entries))
    requires (forall i :: 0 <= i < |declared| ==> declared[i] >= 0) && Sum(declared) < UINT64_LIMIT
    requires Pack(codecs, Payload(entries), compression, dictionary).Success?
    requires Countable(entries, Pack(codecs, Payload(entries), compression, dictionary).value)
    ensures var plan := Plan(codecs, entries, compression, dictionary, Some(declared));
            && plan.Success? && plan.value.sizes == declared && plan.value.names == Names(entries)
            && (AllNulFree(Names(entries)) ==>
                  ReadArchive(codecs.crc32, SignatureBytes(codecs.crc32, plan.value.packed, HeaderBytes(plan.value)) + rest)
                  == Some(plan.value))
  {
    SizesInRange(declared);
    PlanAccepts(codecs, entries, compression, dictionary, Some(declared));
    ArchiveRoundTrip(codecs, entries, compression, dictionary, Some(declared), rest);
  }

  lemma {:induction false} SizesInRange(sizes: seq<int>)
    requires forall i :: 0 <= i < |sizes| ==> sizes[i] >= 0
    requires Sum(sizes) < UINT64_LIMIT
    ensures Sum(sizes) >= 0 && AllNumbers(sizes)
  {
    if sizes != [] {
      assert forall i :: 0 <= i < |sizes[1..]| ==> sizes[1..][i] == sizes[i + 1];
      SumNonnegative(sizes[1..]);
      SizesInRange(sizes[1..]);
      forall i | 0 <= i < |sizes| ensures Number(sizes[i]) {
        assert i > 0 ==> sizes[i] == sizes[1..][i - 1];
      }
    }
  }

  lemma {:induction false} SumNonnegative(s: seq<int>)
    requires forall i :: 0 <= i < |s| ==> s[i] >= 0
    ensures Sum(s) >= 0
  {
    if s != [] {
      SumNonnegative(s[1..]);
    }
  }

  // ---------------------------------------------------------------- accepted and lost

  /** Two empty entries with the sizes 1 and -1 are written, and cannot be read back. */
  lemma NegativeSizeAccepted(codecs: Codecs, rest: seq<Byte>)
    ensures var entries, declared := [Entry([], []), Entry([], [])], Some([1, -1]);
            var plan := Plan(codecs, entries, "copy", 16, declared);
            && plan.Success? && !Recoverable(entries, declared)
            && ReadArchive(codecs.crc32, SignatureBytes(codecs.crc32, plan.value.packed, HeaderBytes(plan.value)) + rest) == None
  {
    var entries, declared := [Entry([], []), Entry([], [])], Some([1, -1]);
    assert entries[1..] == [Entry([], [])] && entries[1..][1..] == [];
    assert Payload(entries) == [];
    assert [1, -1][1..] == [-1] && [1, -1][1..][1..] == [];
    assert Sum([1, -1]) == 0;
    assert [1, -1][..1] == [1];
    ShortNames(entries);
    PlanAccepts(codecs, entries, "copy", 16, declared);
    ArchiveRoundTrip(codecs, entries, "copy", 16, declared, rest);
  }

  lemma NulEntry(entries: seq<Entry>)
    requires entries == [Entry([0], [])]
    ensures Payload(entries) == [] && Sizes(entries, None) == [0] && Sum([0]) == 0
    ensures !AllNulFree(Names(entries)) && AllEncodable(Names(entries)) && |NamesBytes(Names(entries))| <= 17
  {
    assert entries[1..] == [] && [0][1..] == [];
    assert FlatMap(Data, entries[1..]) == [];
    assert Names(entries)[0][0] == 0;
    ShortNames(entries);
  }

  /** An empty entry whose name is a NUL is written, and cannot be read back. */
  lemma NulNameAccepted(codecs: Codecs, rest: seq<Byte>)
    ensures var entries := [Entry([0], [])];
            var plan := Plan(codecs, entries, "copy", 16, None);
            && plan.Success? && !Recoverable(entries, None)
            && ReadArchive(codecs.crc32, SignatureBytes(codecs.crc32, plan.value.packed, HeaderBytes(plan.value)) + rest) == None
  {
    var entries := [Entry([0], [])];
    NulEntry(entries);
    PlanAccepts(codecs, entries, "copy", 16, None);
    ArchiveRoundTrip(codecs, entries, "copy", 16, None, rest);
  }

  lemma {:induction false} EncodeLength(t: Text)
    ensures |Encode(t)| <= 4 * |t|
  {
    if t != [] {
      EncodeLength(t[1..]);
    }
  }

  lemma ShortNames(entries: seq<Entry>)
    requires |entries| <= 2 && forall i :: 0 <= i < |entries| ==> |entries[i].name| <= 1
    ensures |NamesBytes(Names(entries))| <= 17
  {
    var names := Names(entries);
    EncodeLength(Terminated(names));
    TerminatedLength(names);
  }

  lemma {:induction false} TerminatedLength(names: seq<Text>)
    requires forall i :: 0 <= i < |names| ==> |names[i]| <= 1
    ensures |Terminated(names)| <= 2 * |names|
  {
    if names != [] {
      TerminatedLength(names[1..]);
    }
  }
}
