/**
 * One remote call on a fresh connection (qualification/section-2/check-linux-vm.py,
 * lines 84-114): what must have been read before the request goes out, and which
 * line its result comes from. The peer's bytes may be anything.
 */
module MonitorCalls {
  import opened Bytes
  import opened Json
  import opened MonitorLines
  import opened MonitorReplies

  datatype Message = Sync(token: nat) | Capabilities | Request(command: string)

  datatype CallOutcome = NotAllowed | NoGreeting | Mismatch | NoReply | Failed(cause: Outcome) | Result(value: Json)

  /** `'QMP' in json.loads(greeting)`, false when that raises. */
  type Greeter = seq<Byte> -> bool

  /** Python's == between a decoded value and an integer. */
  predicate EqualsInt(v: Json, n: int) {
    match v
    case Int(i) => i == n
    case Bool(b) => n == if b then 1 else 0
    case Float(f) => FloatEqual(f, Finite(n as real))
    case _ => false
  }

  /** Besides the number itself only the float of that value, and a truth value for 0 and 1, are equal to it. */
  lemma EqualsIntMeans(v: Json, n: int)
    ensures v.Int? ==> (EqualsInt(v, n) <==> v.i == n)
    ensures v.Bool? ==> (EqualsInt(v, n) <==> (v.b && n == 1) || (!v.b && n == 0))
    ensures v.Float? ==> (EqualsInt(v, n) <==> v.f == Finite(n as real) || (v.f == NegativeZero && n == 0))
    ensures EqualsInt(v, n) ==> v.Int? || v.Bool? || v.Float?
  {
  }

  /** These lines end with the first one that is not foreign, and it carries a result. */
  predicate ReturnsAt(decode: Decoder, consumed: seq<seq<Byte>>, id: Json) {
    consumed != [] &&
    var outcome := Answer(decode, consumed[|consumed| - 1], id);
    outcome.Returned? && Answers(decode, consumed, id, outcome)
  }

  function ReturnedBy(decode: Decoder, consumed: seq<seq<Byte>>, id: Json): Json
    requires ReturnsAt(decode, consumed, id)
  {
    Answer(decode, consumed[|consumed| - 1], id).value
  }

  /** The peer has echoed our token, or greeted us and accepted capabilities. */
  predicate Synchronized(guest: bool, decode: Decoder, greets: Greeter, consumed: seq<seq<Byte>>, token: nat) {
    if guest then
      ReturnsAt(decode, consumed, Str("sync")) && EqualsInt(ReturnedBy(decode, consumed, Str("sync")), token)
    else
      consumed != [] && |consumed[0]| <= LIMIT && greets(consumed[0]) && ReturnsAt(decode, consumed[1..], Str("caps"))
  }

  function Opening(guest: bool, token: nat): Message { if guest then Sync(token) else Capabilities }

  /** What the pending bytes make of the whole call, if no deadline passes. */
  function CallOf(pending: seq<Byte>, guest: bool, token: nat, expectReply: bool, decode: Decoder, greets: Greeter): CallOutcome {
    var (greeted, rest) := if guest then SyncOf(pending, token, decode) else NegotiationOf(pending, decode, greets);
    if !greeted.NoReply? || !expectReply then greeted else
    var reply := AnswerOf(rest, decode, Str("request")).0;
    if reply.Returned? then Result(reply.value) else Failed(reply)
  }

  /** The opening's outcome, NoReply when the request may be sent, and the bytes behind it. */
  function SyncOf(pending: seq<Byte>, token: nat, decode: Decoder): (CallOutcome, seq<Byte>) {
    var (reply, rest) := AnswerOf(pending, decode, Str("sync"));
    if !reply.Returned? then (Failed(reply), rest)
    else if !EqualsInt(reply.value, token) then (Mismatch, rest)
    else (NoReply, rest)
  }

  function NegotiationOf(pending: seq<Byte>, decode: Decoder, greets: Greeter): (CallOutcome, seq<Byte>) {
    var greeting := Fate(pending, LIMIT + 1);
    if !greeting.Line? then (Failed(Unread(greeting)), pending)
    else
      var behind := pending[|greeting.bytes|..];
      if |greeting.bytes| > LIMIT || !greets(greeting.bytes) then (NoGreeting, behind)
      else
        var (reply, rest) := AnswerOf(behind, decode, Str("caps"));
        if reply.Returned? then (NoReply, rest) else (Failed(reply), rest)
  }

  predicate OutOfTime(r: CallOutcome) { r.Failed? && Late(r.cause) }

  method Call(stream: SocketLines, guest: bool, command: string, token: nat, expectReply: bool, decode: Decoder, greets: Greeter)
    returns (r: CallOutcome, sent: seq<Message>, ghost ready: nat)
    requires stream.Valid() && stream.lines == []
    modifies stream, stream.client
    ensures stream.Valid() && ready <= |stream.lines|
    ensures sent <= [Opening(guest, token), Request(command)]
    ensures !expectReply && !(guest && command == "guest-shutdown") ==> r == NotAllowed && sent == [] && stream.lines == []
    ensures |sent| == 2 ==> Synchronized(guest, decode, greets, stream.lines[..ready], token)
    ensures r.Result? ==>
      && |sent| == 2 && expectReply
      && ReturnsAt(decode, stream.lines[ready..], Str("request"))
      && r.value == ReturnedBy(decode, stream.lines[ready..], Str("request"))
    ensures r.NoReply? ==> |sent| == 2 && !expectReply && ready == |stream.lines|
    ensures expectReply || (guest && command == "guest-shutdown") ==>
      OutOfTime(r) || r == CallOf(old(stream.Pending()), guest, token, expectReply, decode, greets)
  {
    sent, ready := [], 0;
    if !expectReply && !(guest && command == "guest-shutdown") {
      return NotAllowed, sent, ready;
    }
    var greeted: CallOutcome;
    if guest {
      sent := [Sync(token)];
      greeted := Synchronize(stream, token, decode);
    } else {
      greeted, sent := Negotiate(stream, decode, greets);
    }
    if !greeted.NoReply? {
      return greeted, sent, ready;
    }
    ready := |stream.lines|;
    ghost var before := stream.lines;
    assert before[..ready] == before;
    sent := sent + [Request(command)];
    if !expectReply {
      return NoReply, sent, ready;
    }
    var reply := Receive(stream, Str("request"), decode);
    assert stream.lines[..ready] == before;
    if !reply.Returned? {
      return Failed(reply), sent, ready;
    }
    return Result(reply.value), sent, ready;
  }

  /** The guest agent's delimited synchronization; NoReply means it may be asked. */
  method Synchronize(stream: SocketLines, token: nat, decode: Decoder) returns (r: CallOutcome)
    requires stream.Valid() && stream.lines == []
    modifies stream, stream.client
    ensures stream.Valid()
    ensures r.NoReply? || r.Mismatch? || r.Failed?
    ensures OutOfTime(r) || r == SyncOf(old(stream.Pending()), token, decode).0
    ensures r.NoReply? ==> stream.Pending() == SyncOf(old(stream.Pending()), token, decode).1
    ensures r.NoReply? ==>
      && ReturnsAt(decode, stream.lines, Str("sync"))
      && EqualsInt(ReturnedBy(decode, stream.lines, Str("sync")), token)
  {
    var reply := Receive(stream, Str("sync"), decode);
    assert stream.lines[0..] == stream.lines;
    if !reply.Returned? {
      return Failed(reply);
    }
    if !EqualsInt(reply.value, token) {
      return Mismatch;
    }
    return NoReply;
  }

  /** The monitor's greeting and capability negotiation. */
  method Negotiate(stream: SocketLines, decode: Decoder, greets: Greeter) returns (r: CallOutcome, sent: seq<Message>)
    requires stream.Valid() && stream.lines == []
    modifies stream, stream.client
    ensures stream.Valid()
    ensures r.NoReply? || r.NoGreeting? || r.Failed?
    ensures OutOfTime(r) || r == NegotiationOf(old(stream.Pending()), decode, greets).0
    ensures r.NoReply? ==> stream.Pending() == NegotiationOf(old(stream.Pending()), decode, greets).1
    ensures sent <= [Capabilities] && (r.NoReply? ==> sent == [Capabilities])
    ensures r.NoReply? ==>
      && stream.lines != [] && |stream.lines[0]| <= LIMIT && greets(stream.lines[0])
      && ReturnsAt(decode, stream.lines[1..], Str("caps"))
  {
    sent := [];
    var greeting := stream.ReadLine(LIMIT + 1);
    if !greeting.Line? {
      return Failed(Unread(greeting)), sent;
    }
    assert old(stream.Pending())[|greeting.bytes|..] == stream.Pending();
    if |greeting.bytes| > LIMIT || !greets(greeting.bytes) {
      return NoGreeting, sent;
    }
    sent := [Capabilities];
    var reply := Receive(stream, Str("caps"), decode);
    if !reply.Returned? {
      return Failed(reply), sent;
    }
    return NoReply, sent;
  }

  // ---------------------------------------------------------------- whole calls over given lines

  /** Foreign lines and the line that is not, with its newline. */
  predicate Exchange(decode: Decoder, before: seq<seq<Byte>>, line: seq<Byte>, id: string) {
    && (forall i :: 0 <= i < |before| ==> IsLine(before[i]) && Foreign(decode, before[i], Str(id)))
    && IsLine(line) && |line| <= LIMIT + 1 && !Foreign(decode, line, Str(id))
  }

  /** The guest agent answers a call: its synchronization returned our token, and then the request its result. */
  lemma GuestAnswers(decode: Decoder, greets: Greeter, token: nat, first: seq<seq<Byte>>, sync: seq<Byte>,
                     second: seq<seq<Byte>>, reply: seq<Byte>, rest: seq<Byte>, v: Json, w: Json)
    requires Exchange(decode, first, sync, "sync") && Answer(decode, sync, Str("sync")) == Returned(v)
    requires Exchange(decode, second, reply, "request") && Answer(decode, reply, Str("request")) == Returned(w)
    ensures CallOf(Flatten(first) + sync + (Flatten(second) + reply + rest), true, token, true, decode, greets)
         == if EqualsInt(v, token) then Result(w) else Mismatch
    ensures CallOf(Flatten(first) + sync + rest, true, token, false, decode, greets)
         == if EqualsInt(v, token) then NoReply else Mismatch
  {
    AnswerIsFound(decode, Str("sync"), first, sync, Flatten(second) + reply + rest);
    AnswerIsFound(decode, Str("request"), second, reply, rest);
    AnswerIsFound(decode, Str("sync"), first, sync, rest);
  }

  /** The monitor answers a call: a greeting first, then its capabilities, then the request's result. */
  lemma MonitorAnswers(decode: Decoder, greets: Greeter, token: nat, greeting: seq<Byte>, first: seq<seq<Byte>>, caps: seq<Byte>,
                       second: seq<seq<Byte>>, reply: seq<Byte>, rest: seq<Byte>, v: Json, w: Json)
    requires IsLine(greeting) && |greeting| <= LIMIT
    requires Exchange(decode, first, caps, "caps") && Answer(decode, caps, Str("caps")) == Returned(v)
    requires Exchange(decode, second, reply, "request") && Answer(decode, reply, Str("request")) == Returned(w)
    ensures CallOf(greeting + (Flatten(first) + caps + (Flatten(second) + reply + rest)), false, token, true, decode, greets)
         == if greets(greeting) then Result(w) else NoGreeting
  {
    var behind := Flatten(second) + reply + rest;
    LineIsTaken(greeting, Flatten(first) + caps + behind);
    AnswerIsFound(decode, Str("caps"), first, caps, behind);
    AnswerIsFound(decode, Str("request"), second, reply, rest);
    assert NegotiationOf(greeting + (Flatten(first) + caps + behind), decode, greets)
        == if greets(greeting) then (NoReply, behind) else (NoGreeting, Flatten(first) + caps + behind);
  }
}
