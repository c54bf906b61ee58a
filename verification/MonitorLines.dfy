/**
 * Line framing over a socket (qualification/section-2/check-linux-vm.py, lines
 * 61-81). The peer and the clock are oracles.
 */
module MonitorLines {
  import opened Wrappers
  import opened Bytes
  import opened Sequences

  const NEWLINE: Byte := 10
  const LIMIT: nat := 4 * 1024 * 1024

  // ---------------------------------------------------------------- lines of a byte stream

  predicate NoNewline(s: seq<Byte>) { forall i :: 0 <= i < |s| ==> s[i] != NEWLINE }

  /** Exactly one newline, at the end. */
  predicate IsLine(l: seq<Byte>) { l != [] && l[|l| - 1] == NEWLINE && NoNewline(l[..|l| - 1]) }

  function LineLength(s: seq<Byte>): (n: nat)
    ensures n <= |s| && NoNewline(s[..n]) && (n < |s| ==> s[n] == NEWLINE)
  {
    if s == [] || s[0] == NEWLINE then 0 else
    var n := LineLength(s[1..]);
    assert s[..n + 1] == [s[0]] + s[1..][..n];
    n + 1
  }

  lemma {:induction false} LineLengthIs(s: seq<Byte>, n: nat)
    requires n <= |s| && NoNewline(s[..n]) && (n < |s| ==> s[n] == NEWLINE)
    ensures LineLength(s) == n
  {
    if n > 0 {
      assert s[0] == s[..n][0];
      assert s[1..][..n - 1] == s[..n][1..];
      LineLengthIs(s[1..], n - 1);
    }
  }

  /** The end of one attempt to read a line. */
  datatype LineResult = Line(bytes: seq<Byte>) | Oversized | Disconnected | Deadline

  /** What the bytes alone decide, however they are cut into receives. */
  function Fate(pending: seq<Byte>, limit: nat): LineResult {
    var n := LineLength(pending);
    if n < |pending| && n < limit then Line(pending[..n + 1])
    else if |pending| >= limit then Oversized
    else Disconnected
  }

  // ---------------------------------------------------------------- the peer

  datatype Receipt = Chunk(data: seq<Byte>) | Closed | TimedOut

  /** A socket: all the bytes its peer will ever send, and how many were delivered. */
  class Client {
    const sent: seq<Byte>
    var delivered: nat

    constructor (sent: seq<Byte>)
      ensures this.sent == sent && delivered == 0
    {
      this.sent, delivered := sent, 0;
    }

    ghost predicate Valid()
      reads this
    {
      delivered <= |sent|
    }

    /** `select`, then `recv(most)`: any non-empty piece of what is left, or nothing in time. */
    method Receive(most: nat) returns (r: Receipt)
      requires Valid() && most > 0
      modifies this
      ensures Valid()
      ensures r.Chunk? ==> 0 < |r.data| <= most && delivered == old(delivered) + |r.data| &&
                           r.data == sent[old(delivered)..delivered]
      ensures !r.Chunk? ==> delivered == old(delivered)
      ensures r.Closed? ==> delivered == |sent|
    {
      if * {
        return TimedOut;
      }
      if delivered == |sent| {
        return Closed;
      }
      var n: nat :| 0 < n <= most && delivered + n <= |sent|;
      r := Chunk(sent[delivered..delivered + n]);
      delivered := delivered + n;
    }
  }

  // ---------------------------------------------------------------- the reader

  class SocketLines {
    const client: Client
    var buffer: seq<Byte>
    /** The lines returned so far; empty again once a refusal dropped bytes. */
    ghost var lines: seq<seq<Byte>>
    ghost var intact: bool

    constructor (client: Client)
      requires client.Valid() && client.delivered == 0
      ensures this.client == client && Valid() && lines == [] && intact && buffer == []
    {
      this.client, buffer := client, [];
      lines, intact := [], true;
    }

    /** The bytes received but not yet returned, and the ones still to come. */
    ghost function Pending(): seq<Byte>
      requires client.Valid()
      reads this, client
    {
      buffer + client.sent[client.delivered..]
    }

    /** Returned lines and buffer together are the bytes received. */
    ghost predicate Valid()
      reads this, client
    {
      client.Valid() && (intact ==> Framing(lines, buffer, client.sent[..client.delivered]))
    }

    method ReadLine(limit: nat) returns (r: LineResult)
      requires Valid()
      modifies this, client
      ensures Valid()
      ensures r == Deadline || r == Fate(old(Pending()), limit)
      ensures r.Line? ==> IsLine(r.bytes) && |r.bytes| <= limit && r.bytes + Pending() == old(Pending())
      ensures r.Line? ==> lines == old(lines) + [r.bytes] && intact == old(intact)
      ensures r.Disconnected? || r.Deadline? ==> Pending() == old(Pending())
      ensures !r.Line? ==> lines == old(lines) && (intact ==> old(intact))
      ensures |buffer| <= old(|buffer|) || |buffer| <= limit
    {
      var failure := Fill(limit);
      if failure.Some? {
        return failure.value;
      }
      r := TakeLine(limit);
    }

    /** The receive loop: until the buffer holds a newline. */
    method Fill(limit: nat) returns (failure: Option<LineResult>)
      requires Valid()
      modifies this`buffer, client
      ensures Valid() && Pending() == old(Pending())
      ensures |buffer| <= old(|buffer|) || |buffer| <= limit
      ensures failure.None? ==> LineLength(buffer) < |buffer|
      ensures failure.Some? ==> failure.value == Deadline ||
                                (!failure.value.Line? && failure.value == Fate(Pending(), limit))
    {
      while LineLength(buffer) == |buffer|
        invariant Valid() && Pending() == old(Pending())
        invariant |buffer| <= old(|buffer|) || |buffer| <= limit
        decreases |client.sent| - client.delivered
      {
        if |buffer| >= limit {
          NoLineYet(buffer, client.sent[client.delivered..], limit);
          return Some(Oversized);
        }
        var chunk := client.Receive(if limit - |buffer| < 65536 then limit - |buffer| else 65536);
        match chunk
        case TimedOut => return Some(Deadline);
        case Closed =>
          assert Pending() == buffer;
          return Some(Disconnected);
        case Chunk(data) =>
          if intact {
            FramingReceives(lines, buffer, client.sent, client.delivered, data);
          }
          buffer := buffer + data;
      }
      return None;
    }

    /** The split at the first newline. */
    method TakeLine(limit: nat) returns (r: LineResult)
      requires Valid() && LineLength(buffer) < |buffer|
      modifies this
      ensures Valid() && |buffer| <= old(|buffer|)
      ensures r == Fate(old(Pending()), limit) && (r.Line? || r.Oversized?)
      ensures r.Line? ==> IsLine(r.bytes) && |r.bytes| <= limit && r.bytes + Pending() == old(Pending())
      ensures r.Line? ==> lines == old(lines) + [r.bytes] && intact == old(intact)
      ensures !r.Line? ==> lines == old(lines) && (intact ==> old(intact))
    {
      var n := LineLength(buffer);
      LineFound(buffer, client.sent[client.delivered..]);
      var line := buffer[..n + 1];
      SplitIsLine(buffer, n);
      if intact {
        FramingReturns(lines, buffer, client.sent[..client.delivered], n);
      }
      assert buffer == line + buffer[n + 1..];
      buffer := buffer[n + 1..];
      if n + 1 > limit {
        intact := false;
        return Oversized;
      }
      lines := lines + [line];
      return Line(line);
    }
  }

  lemma {:induction false} LineLengthAtLeast(s: seq<Byte>, n: nat)
    requires n <= |s| && NoNewline(s[..n])
    ensures LineLength(s) >= n
  {
    if n > 0 {
      assert s[0] == s[..n][0];
      assert s[1..][..n - 1] == s[..n][1..];
      LineLengthAtLeast(s[1..], n - 1);
    }
  }

  /** A buffer without a newline that reached the limit decides that the line is oversized. */
  lemma NoLineYet(buffer: seq<Byte>, rest: seq<Byte>, limit: nat)
    requires LineLength(buffer) == |buffer| >= limit
    ensures Fate(buffer + rest, limit) == Oversized
  {
    assert (buffer + rest)[..|buffer|] == buffer == buffer[..|buffer|];
    LineLengthAtLeast(buffer + rest, |buffer|);
  }

  /** A buffer with a newline decides the line, whatever follows. */
  lemma LineFound(buffer: seq<Byte>, rest: seq<Byte>)
    requires LineLength(buffer) < |buffer|
    ensures LineLength(buffer + rest) == LineLength(buffer)
    ensures (buffer + rest)[..LineLength(buffer) + 1] == buffer[..LineLength(buffer) + 1]
  {
    var n := LineLength(buffer);
    assert (buffer + rest)[..n] == buffer[..n];
    LineLengthIs(buffer + rest, n);
  }

  lemma SplitIsLine(buffer: seq<Byte>, n: nat)
    requires n < |buffer| && NoNewline(buffer[..n]) && buffer[n] == NEWLINE
    ensures IsLine(buffer[..n + 1])
  {
    assert buffer[..n + 1][..n] == buffer[..n];
  }

  function Flatten(lines: seq<seq<Byte>>): seq<Byte> {
    if lines == [] then [] else Flatten(lines[..|lines| - 1]) + lines[|lines| - 1]
  }

  /** Complete lines and a remainder that make up the bytes. */
  predicate Framing(lines: seq<seq<Byte>>, buffer: seq<Byte>, bytes: seq<Byte>) {
    (forall i :: 0 <= i < |lines| ==> IsLine(lines[i])) && Flatten(lines) + buffer == bytes
  }

  lemma FramingReceives(lines: seq<seq<Byte>>, buffer: seq<Byte>, sent: seq<Byte>, delivered: nat, data: seq<Byte>)
    requires |data| <= delivered <= |sent| && data == sent[delivered - |data|..delivered]
    requires Framing(lines, buffer, sent[..delivered - |data|])
    ensures Framing(lines, buffer + data, sent[..delivered])
  {
    assert sent[..delivered] == sent[..delivered - |data|] + data;
    assert Flatten(lines) + (buffer + data) == (Flatten(lines) + buffer) + data;
  }

  lemma FramingReturns(lines: seq<seq<Byte>>, buffer: seq<Byte>, bytes: seq<Byte>, n: nat)
    requires Framing(lines, buffer, bytes) && n < |buffer| && IsLine(buffer[..n + 1])
    ensures Framing(lines + [buffer[..n + 1]], buffer[n + 1..], bytes)
  {
    FlattenSnoc(lines, buffer[..n + 1]);
    assert buffer == buffer[..n + 1] + buffer[n + 1..];
    Associate(Flatten(lines), buffer[..n + 1], buffer[n + 1..]);
  }

  lemma FlattenSnoc(lines: seq<seq<Byte>>, line: seq<Byte>)
    ensures Flatten(lines + [line]) == Flatten(lines) + line
  {
    assert (lines + [line])[..|lines|] == lines;
  }

  // ---------------------------------------------------------------- independence of chunking

  lemma {:induction false} FlattenCons(first: seq<Byte>, lines: seq<seq<Byte>>)
    ensures Flatten([first] + lines) == first + Flatten(lines)
  {
    var all := [first] + lines;
    if lines == [] {
      assert all[..0] == [];
      assert Flatten(all) == Flatten([]) + first;
    } else {
      assert all[..|all| - 1] == [first] + lines[..|lines| - 1];
      FlattenCons(first, lines[..|lines| - 1]);
    }
  }

  /**
   * Any two runs over one byte stream, cut into receives in any way, return the same
   * lines: the lines of the shorter run are the first lines of the longer one.
   */
  lemma {:induction false} ChunkingIsIrrelevant(sent: seq<Byte>, a: seq<seq<Byte>>, bufferA: seq<Byte>, deliveredA: nat,
                                               b: seq<seq<Byte>>, bufferB: seq<Byte>, deliveredB: nat)
    requires deliveredA <= |sent| && deliveredB <= |sent| && |a| <= |b|
    requires Framing(a, bufferA, sent[..deliveredA]) && Framing(b, bufferB, sent[..deliveredB])
    ensures a <= b
    decreases |a|
  {
    if a != [] {
      FirstLineAgrees(sent, a, bufferA, deliveredA);
      FirstLineAgrees(sent, b, bufferB, deliveredB);
      var n := |a[0]|;
      ChunkingIsIrrelevant(sent[n..], a[1..], bufferA, deliveredA - n, b[1..], bufferB, deliveredB - n);
      assert a == [a[0]] + a[1..] && b == [b[0]] + b[1..];
    }
  }

  /** The first line of any framing is the first line of the stream. */
  lemma FirstLineAgrees(sent: seq<Byte>, lines: seq<seq<Byte>>, buffer: seq<Byte>, delivered: nat)
    requires delivered <= |sent| && lines != [] && Framing(lines, buffer, sent[..delivered])
    ensures |lines[0]| <= delivered && |lines[0]| == LineLength(sent) + 1 && lines[0] == sent[..|lines[0]|]
    ensures Framing(lines[1..], buffer, sent[|lines[0]|..][..delivered - |lines[0]|])
  {
    LinesBehindFirst(lines);
    PrefixLine(sent, delivered, lines[0], Flatten(lines[1..]) + buffer);
  }

  lemma LinesBehindFirst(lines: seq<seq<Byte>>)
    requires lines != [] && forall i :: 0 <= i < |lines| ==> IsLine(lines[i])
    ensures IsLine(lines[0]) && forall i :: 0 <= i < |lines[1..]| ==> IsLine(lines[1..][i])
    ensures forall buffer :: Flatten(lines) + buffer == lines[0] + (Flatten(lines[1..]) + buffer)
  {
    FlattenCons(lines[0], lines[1..]);
    assert lines == [lines[0]] + lines[1..];
    forall i | 0 <= i < |lines[1..]| ensures IsLine(lines[1..][i]) {
      assert lines[1..][i] == lines[i + 1];
    }
  }

  lemma SliceOf<T>(s: seq<T>, delivered: nat, first: seq<T>, tail: seq<T>)
    requires delivered <= |s| && s[..delivered] == first + tail
    ensures |first| <= delivered && first == s[..|first|] && s[|first|..][..delivered - |first|] == tail
  {
    assert s[..|first|] == s[..delivered][..|first|];
    assert s[|first|..][..delivered - |first|] == s[..delivered][|first|..];
  }

  lemma PrefixLine(sent: seq<Byte>, delivered: nat, first: seq<Byte>, tail: seq<Byte>)
    requires delivered <= |sent| && IsLine(first) && sent[..delivered] == first + tail
    ensures |first| <= delivered && |first| == LineLength(sent) + 1 && first == sent[..|first|]
    ensures sent[|first|..][..delivered - |first|] == tail
  {
    var n := |first|;
    SliceOf(sent, delivered, first, tail);
    assert sent[..n - 1] == first[..n - 1];
    assert sent[n - 1] == first[n - 1];
    LineLengthIs(sent, n - 1);
  }

  // ---------------------------------------------------------------- what the bytes decide

  /** The bytes begin with this line: up to their first newline, and no longer than the limit. */
  predicate BeginsWith(pending: seq<Byte>, limit: nat, l: seq<Byte>) {
    && l != [] && l <= pending && |l| <= limit && l[|l| - 1] == 10
    && forall i :: 0 <= i < |l| - 1 ==> l[i] != 10
  }

  /** A line is read when the bytes begin with one; without newline, and below the limit, they end in a disconnection. */
  lemma FateMeans(pending: seq<Byte>, limit: nat, l: seq<Byte>)
    ensures Fate(pending, limit) == Line(l) <==> BeginsWith(pending, limit, l)
    ensures Fate(pending, limit) == Disconnected <==> |pending| < limit && 10 !in pending
    ensures Fate(pending, limit) == Oversized <==> !Fate(pending, limit).Line? && !Fate(pending, limit).Disconnected?
  {
    var n := LineLength(pending);
    if BeginsWith(pending, limit, l) {
      BeginningIsLine(pending, limit, l);
    }
    if n < |pending| {
      assert pending[n] == 10 && pending[..n + 1][n] == 10;
      assert forall i :: 0 <= i < n ==> pending[..n + 1][i] == pending[..n][i];
    } else {
      assert pending[..n] == pending;
    }
  }

  lemma BeginningIsLine(pending: seq<Byte>, limit: nat, l: seq<Byte>)
    requires BeginsWith(pending, limit, l)
    ensures LineLength(pending) == |l| - 1 && pending[..|l|] == l
  {
    assert pending[..|l|] == l;
    assert pending[..|l| - 1] == l[..|l| - 1];
    assert pending[|l| - 1] == l[|l| - 1];
    LineLengthIs(pending, |l| - 1);
  }

  lemma FourMebibytes()
    ensures LIMIT == 4_194_304
  {
  }
}
