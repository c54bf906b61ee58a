/**
 * Replies correlated by id and the evidence transfer of a monitored guest
 * (qualification/section-2/check-linux-vm.py, lines 46-58 and 259-277).
 */
module MonitorReplies {
  import opened Wrappers
  import opened Bytes
  import opened Json
  import opened MonitorLines
  import opened Sequences

  /** A decoded JSON object: its id, whether it holds an error, and its return value. */
  datatype Reply = Reply(id: Option<Json>, error: bool, result: Option<Json>)

  /** `json.loads`; None is its ValueError. */
  type Decoder = seq<Byte> -> Option<Reply>

  datatype Outcome =
    | Returned(value: Json)
    | Unread(cause: LineResult)
    | TooLong
    | NotJson
    | CommandFailed
    | DeadlinePassed

  /** `line.lstrip(b"\\xff")` */
  function StripMarks(line: seq<Byte>): seq<Byte> {
    if line != [] && line[0] == 0xFF then StripMarks(line[1..]) else line
  }

  /** A reply to something else, or an event. */
  predicate Foreign(decode: Decoder, line: seq<Byte>, expected: Json) {
    |line| <= LIMIT && match decode(StripMarks(line)) case Some(reply) => reply.id != Some(expected) case None => false
  }

  /** What the first line that is not foreign makes of the call. */
  function Answer(decode: Decoder, line: seq<Byte>, expected: Json): Outcome {
    if |line| > LIMIT then TooLong
    else match decode(StripMarks(line))
         case None => NotJson
         case Some(reply) => if reply.error || reply.result.None? then CommandFailed else Returned(reply.result.value)
  }

  /** Foreign lines, then the line that answers. */
  predicate Answers(decode: Decoder, consumed: seq<seq<Byte>>, expected: Json, outcome: Outcome) {
    && consumed != []
    && var last := |consumed| - 1;
       && (forall i :: 0 <= i < last ==> Foreign(decode, consumed[i], expected))
       && !Foreign(decode, consumed[last], expected) && outcome == Answer(decode, consumed[last], expected)
  }

  /** What the bytes still to come make of the call, and what they leave behind it. */
  function AnswerOf(pending: seq<Byte>, decode: Decoder, expected: Json): (Outcome, seq<Byte>)
    decreases |pending|
  {
    var fate := Fate(pending, LIMIT + 1);
    if !fate.Line? then (Unread(fate), pending)
    else
      var rest := pending[|fate.bytes|..];
      if Foreign(decode, fate.bytes, expected) then AnswerOf(rest, decode, expected)
      else (Answer(decode, fate.bytes, expected), rest)
  }

  /** The deadline passed before the call had its answer. */
  predicate Late(r: Outcome) { r == DeadlinePassed || r == Unread(Deadline) }

  method Receive(stream: SocketLines, expected: Json, decode: Decoder) returns (r: Outcome)
    requires stream.Valid()
    modifies stream, stream.client
    ensures stream.Valid() && old(stream.lines) <= stream.lines
    ensures r.Returned? || r.TooLong? || r.NotJson? || r.CommandFailed? ==>
              Answers(decode, stream.lines[old(|stream.lines|)..], expected, r) &&
              stream.intact == old(stream.intact)
    ensures r.Unread? || r.DeadlinePassed? ==>
              forall i :: old(|stream.lines|) <= i < |stream.lines| ==> Foreign(decode, stream.lines[i], expected)
    ensures Late(r) || r == AnswerOf(old(stream.Pending()), decode, expected).0
    ensures r.Returned? ==> stream.Pending() == AnswerOf(old(stream.Pending()), decode, expected).1
  {
    ghost var read;
    r, read := Await(stream, expected, decode);
    assert stream.lines[old(|stream.lines|)..] == read;
    assert forall i :: old(|stream.lines|) <= i < |stream.lines| ==> stream.lines[i] == read[i - old(|stream.lines|)];
  }

  predicate AllForeign(decode: Decoder, read: seq<seq<Byte>>, expected: Json) {
    forall i :: 0 <= i < |read| ==> Foreign(decode, read[i], expected)
  }

  lemma ForeignBehind(decode: Decoder, read: seq<seq<Byte>>, line: seq<Byte>, expected: Json)
    requires AllForeign(decode, read, expected) && Foreign(decode, line, expected)
    ensures AllForeign(decode, read + [line], expected)
  {
  }

  lemma AnswersBehind(decode: Decoder, read: seq<seq<Byte>>, line: seq<Byte>, expected: Json)
    requires AllForeign(decode, read, expected) && !Foreign(decode, line, expected)
    ensures Answers(decode, read + [line], expected, Answer(decode, line, expected))
  {
  }

  /** The loop of `receive`, and the lines it read. */
  method Await(stream: SocketLines, expected: Json, decode: Decoder) returns (r: Outcome, ghost read: seq<seq<Byte>>)
    requires stream.Valid()
    modifies stream, stream.client
    ensures stream.Valid() && stream.lines == old(stream.lines) + read
    ensures r.Unread? || r.DeadlinePassed? ==> AllForeign(decode, read, expected)
    ensures r.Unread? || r.DeadlinePassed? || (Answers(decode, read, expected, r) && stream.intact == old(stream.intact))
    ensures Late(r) || r == AnswerOf(old(stream.Pending()), decode, expected).0
    ensures r.Returned? ==> stream.Pending() == AnswerOf(old(stream.Pending()), decode, expected).1
  {
    read := [];
    while true
      invariant stream.Valid() && stream.lines == old(stream.lines) + read && stream.intact == old(stream.intact)
      invariant AllForeign(decode, read, expected)
      invariant AnswerOf(stream.Pending(), decode, expected) == AnswerOf(old(stream.Pending()), decode, expected)
      decreases |stream.Pending()|
    {
      if * {
        return DeadlinePassed, read;
      }
      var answered;
      ghost var line;
      answered, line := ReadReply(stream, expected, decode);
      if answered.Some? && answered.value.Unread? {
        return answered.value, read;
      }
      Associate(old(stream.lines), read, [line]);
      if answered.Some? {
        AnswersBehind(decode, read, line, expected);
        return answered.value, read + [line];
      }
      ForeignBehind(decode, read, line, expected);
      read := read + [line];
    }
  }

  /** One line; None when it is foreign. */
  method ReadReply(stream: SocketLines, expected: Json, decode: Decoder) returns (r: Option<Outcome>, ghost line: seq<Byte>)
    requires stream.Valid()
    modifies stream, stream.client
    ensures stream.Valid() && (r.Some? ==> !r.value.DeadlinePassed?)
    ensures r.Some? && r.value.Unread? ==>
      && stream.lines == old(stream.lines)
      && (r.value == Unread(Deadline) || r.value == AnswerOf(old(stream.Pending()), decode, expected).0)
    ensures r.None? || !r.value.Unread? ==>
      stream.lines == old(stream.lines) + [line] && stream.intact == old(stream.intact)
    ensures r.Some? && !r.value.Unread? ==>
      && !Foreign(decode, line, expected) && r.value == Answer(decode, line, expected)
      && AnswerOf(old(stream.Pending()), decode, expected) == (r.value, stream.Pending())
    ensures r.None? ==>
      && Foreign(decode, line, expected) && |stream.Pending()| < |old(stream.Pending())|
      && AnswerOf(stream.Pending(), decode, expected) == AnswerOf(old(stream.Pending()), decode, expected)
  {
    ghost var pending := stream.Pending();
    var read := stream.ReadLine(LIMIT + 1);
    if !read.Line? {
      return Some(Unread(read)), [];
    }
    assert pending[|read.bytes|..] == stream.Pending();
    line := read.bytes;
    if |read.bytes| > LIMIT {
      return Some(TooLong), line;
    }
    var reply := decode(StripMarks(read.bytes));
    if reply.None? {
      return Some(NotJson), line;
    }
    if reply.value.id != Some(expected) {
      return None, line;
    }
    if reply.value.error || reply.value.result.None? {
      return Some(CommandFailed), line;
    }
    return Some(Returned(reply.value.result.value)), line;
  }

  lemma LineIsTaken(line: seq<Byte>, rest: seq<Byte>)
    requires IsLine(line) && |line| <= LIMIT + 1
    ensures Fate(line + rest, LIMIT + 1) == Line(line) && (line + rest)[|line|..] == rest
  {
    var n := |line| - 1;
    assert (line + rest)[..n] == line[..n];
    LineLengthIs(line + rest, n);
    assert (line + rest)[..n + 1] == line;
  }

  /** Behind any foreign lines, the first other line answers, and nothing after it is touched. */
  lemma {:induction false} AnswerIsFound(decode: Decoder, expected: Json, before: seq<seq<Byte>>, line: seq<Byte>, rest: seq<Byte>)
    requires forall i :: 0 <= i < |before| ==> IsLine(before[i]) && Foreign(decode, before[i], expected)
    requires IsLine(line) && |line| <= LIMIT + 1 && !Foreign(decode, line, expected)
    ensures AnswerOf(Flatten(before) + line + rest, decode, expected) == (Answer(decode, line, expected), rest)
    decreases |before|
  {
    if before == [] {
      assert Flatten(before) + line + rest == line + rest;
      LineIsTaken(line, rest);
    } else {
      var more := Flatten(before[1..]) + line + rest;
      assert before == [before[0]] + before[1..];
      FlattenCons(before[0], before[1..]);
      assert Flatten(before) + line + rest == before[0] + more;
      LineIsTaken(before[0], more);
      AnswerIsFound(decode, expected, before[1..], line, rest);
    }
  }

  /** The outcome does not depend on how the bytes arrived: both runs answer with the same line. */
  lemma AnswerIsUnique(decode: Decoder, a: seq<seq<Byte>>, b: seq<seq<Byte>>, expected: Json, x: Outcome, y: Outcome)
    requires a <= b || b <= a
    requires Answers(decode, a, expected, x) && Answers(decode, b, expected, y)
    ensures a == b && x == y
  {
    if |a| == |b| {
      assert a == b;
    }
  }

  /**
   * Two fresh readers of one byte stream, cut into receives in any way, that both get an
   * answer to the same id get the same one.
   */
  lemma SameAnswerHoweverCut(decode: Decoder, sent: seq<Byte>, expected: Json,
                             a: seq<seq<Byte>>, bufferA: seq<Byte>, deliveredA: nat, x: Outcome,
                             b: seq<seq<Byte>>, bufferB: seq<Byte>, deliveredB: nat, y: Outcome)
    requires deliveredA <= |sent| && deliveredB <= |sent|
    requires Framing(a, bufferA, sent[..deliveredA]) && Framing(b, bufferB, sent[..deliveredB])
    requires Answers(decode, a, expected, x) && Answers(decode, b, expected, y)
    ensures x == y
  {
    if |a| <= |b| {
      ChunkingIsIrrelevant(sent, a, bufferA, deliveredA, b, bufferB, deliveredB);
    } else {
      ChunkingIsIrrelevant(sent, b, bufferB, deliveredB, a, bufferA, deliveredA);
    }
    AnswerIsUnique(decode, a, b, expected, x, y);
  }

  // ---------------------------------------------------------------- evidence transfer

  /** One guest-file-read reply: the decoded bytes, the announced count and the end mark. */
  datatype Piece = Piece(data: seq<Byte>, count: Option<nat>, eof: bool)

  datatype TransferError = LimitOrMismatch | NoProgress

  const TRANSFER: nat := 64 * 1024 * 1024

  /** A guest file handle; every read may answer anything. */
  class GuestFile {
    ghost var pieces: seq<Piece>
    ghost var closed: nat

    constructor ()
      ensures pieces == [] && closed == 0
    {
      pieces, closed := [], 0;
    }

    method Read() returns (piece: Piece)
      modifies this
      ensures pieces == old(pieces) + [piece] && closed == old(closed)
    {
      piece := *;
      pieces := pieces + [piece];
    }

    method Close()
      modifies this
      ensures pieces == old(pieces) && closed == old(closed) + 1
    {
      closed := closed + 1;
    }
  }

  function Transferred(pieces: seq<Piece>): seq<Byte> {
    if pieces == [] then [] else Transferred(pieces[..|pieces| - 1]) + pieces[|pieces| - 1].data
  }

  predicate Continues(p: Piece) { p.count == Some(|p.data|) && !p.eof && p.data != [] }

  /** Every piece but the last was announced rightly, brought bytes and was not the end. */
  predicate Ongoing(pieces: seq<Piece>) {
    pieces != [] && forall i :: 0 <= i < |pieces| - 1 ==> Continues(pieces[i])
  }

  method Collect(handle: GuestFile) returns (r: Result<seq<Byte>, TransferError>)
    requires handle.pieces == [] && handle.closed == 0
    modifies handle
    ensures handle.closed == 1 && Ongoing(handle.pieces) && |handle.pieces| <= TRANSFER + 1
    ensures var last := handle.pieces[|handle.pieces| - 1];
            r == if last.count != Some(|last.data|) || |Transferred(handle.pieces)| > TRANSFER then Failure(LimitOrMismatch)
                 else if last.eof then Success(Transferred(handle.pieces))
                 else Failure(NoProgress)
  {
    var file, size := [], 0;
    while true
      invariant file == Transferred(handle.pieces) && size == |file| <= TRANSFER
      invariant |handle.pieces| <= size && handle.closed == 0
      invariant forall i :: 0 <= i < |handle.pieces| ==> Continues(handle.pieces[i])
      decreases TRANSFER - size
    {
      ghost var before := handle.pieces;
      var reply := handle.Read();
      assert handle.pieces[..|before|] == before;
      size := size + |reply.data|;
      if reply.count != Some(|reply.data|) || size > TRANSFER {
        handle.Close();
        return Failure(LimitOrMismatch);
      }
      file := file + reply.data;
      if reply.eof {
        handle.Close();
        return Success(file);
      }
      if reply.data == [] {
        handle.Close();
        return Failure(NoProgress);
      }
    }
  }

  // ---------------------------------------------------------------- one line, in plain terms

  /** Exactly the bytes 255 at the start are dropped. */
  lemma {:induction false} StripsMarks(line: seq<Byte>)
    ensures var n := |line| - |StripMarks(line)|;
            && 0 <= n <= |line| && StripMarks(line) == line[n..]
            && (forall i :: 0 <= i < n ==> line[i] == 255)
            && (n < |line| ==> line[n] != 255)
  {
    if line != [] && line[0] == 0xFF {
      StripsMarks(line[1..]);
    }
  }

  /** A line is passed over when it is short enough, decodes, and carries another id or none. */
  lemma ForeignMeans(decode: Decoder, line: seq<Byte>, expected: Json)
    ensures Foreign(decode, line, expected) <==>
            && |line| <= 4_194_304 && decode(StripMarks(line)).Some?
            && decode(StripMarks(line)).value.id != Some(expected)
  {
  }

  /** What any other line comes to: only a short one that decodes to a value without error returns it. */
  lemma AnswerMeans(decode: Decoder, line: seq<Byte>, expected: Json, v: Json)
    ensures var outcome, decoded := Answer(decode, line, expected), decode(StripMarks(line));
            && (outcome == TooLong <==> |line| > 4_194_304)
            && (outcome == NotJson <==> |line| <= 4_194_304 && decoded == None)
            && (outcome == Returned(v) <==>
                  |line| <= 4_194_304 && decoded.Some? && !decoded.value.error && decoded.value.result == Some(v))
            && (outcome == CommandFailed <==>
                  |line| <= 4_194_304 && decoded.Some? && (decoded.value.error || decoded.value.result == None))
  {
  }

  /** A collected file is its pieces' bytes in order, and at most 64 MiB of them. */
  lemma TransferredMeans(pieces: seq<Piece>, last: Piece)
    ensures Transferred([]) == [] && Transferred(pieces + [last]) == Transferred(pieces) + last.data
    ensures TRANSFER == 67_108_864
  {
    assert (pieces + [last])[..|pieces|] == pieces;
  }
}
