/**
 * Nested waits that never repeat an action
 * (qualification/section-2/check-native-macos.py, lines 29-42, 248-291 and
 * 302-324). What the predicates do, what the helper answers and what the clock
 * reads is a script. `Exec` says what every script must do, without a counter; the
 * observer and its shared counter are proved to do exactly that.
 */
module ObservationWaits {
  import opened Sequences
  import opened Wrappers

  /** How a helper command can end. */
  datatype Answer = Passed(truthy: bool) | Unavailable | Failed

  /** READ_ONLY_OPERATIONS, the snapshots among them, and everything else. */
  datatype Operation = Snapshot | ReadOnly | Mutation

  /** What a predicate does: commands and waits, catching their exceptions or not, then a value. */
  datatype Script =
    | Return(truthy: bool)
    | Raise(error: Error)
    | Do(action: Action, catches: bool, next: Script)

  datatype Action =
    | Call(operation: Operation, timeout: int, now: int, answer: Answer)
    | Wait(start: int, timeout: int, rounds: Rounds)

  /** The rounds of one wait loop, with the clock at its test and after the predicate. */
  datatype Rounds = Cut | Round(now: int, body: Script, after: int, more: Rounds)

  datatype Error = TimedOut | SnapshotUnavailable | Runtime

  /** A value, an exception, or a run whose script ends here. */
  datatype Outcome = Value(truthy: bool) | Raised(error: Error) | Unfinished

  /** What happened, in order; `width` counts the events since the round began. */
  datatype Event =
    | Issued(operation: Operation, timeout: int, remaining: Option<int>)
    | Began(deadline: int, parent: Option<int>)
    | RoundBegan(now: int)
    | Swallowed(width: nat)
    | Reraised(width: nat)
    | Returned(deadline: int, now: int)

  /** A run, or a round that has an outcome unless the loop goes on. */
  datatype Ran = Ran(outcome: Outcome, events: seq<Event>)

  datatype Step = Step(outcome: Option<Outcome>, events: seq<Event>)

  predicate Mutating(e: Event) { e.Issued? && e.operation.Mutation? }

  function Mutations(log: seq<Event>): nat {
    if log == [] then 0 else Mutations(log[..|log| - 1]) + if Mutating(log[|log| - 1]) then 1 else 0
  }

  function Min(m: int, n: int): int { if m <= n then m else n }

  // ---------------------------------------------------------------- what a script must do

  /** The deadline of a wait within another, or of an outermost one. */
  function Deadline(own: int, context: Option<int>): int {
    if context.Some? then Min(own, context.value) else own
  }

  function Answered(operation: Operation, answer: Answer): Outcome {
    match answer
    case Passed(truthy) => Value(truthy)
    case Unavailable => Raised(if operation.Snapshot? then SnapshotUnavailable else Runtime)
    case Failed => Raised(Runtime)
  }

  /** The predicate does not go on after this. */
  predicate Stops(first: Outcome, catches: bool) { first.Unfinished? || (first.Raised? && !catches) }

  function Exec(script: Script, context: Option<int>): Ran
    decreases script
  {
    match script
    case Return(truthy) => Ran(Value(truthy), [])
    case Raise(error) => Ran(Raised(error), [])
    case Do(action, catches, next) =>
      var first := ExecAction(action, context);
      if Stops(first.outcome, catches) then first
      else
        var rest := Exec(next, context);
        Ran(rest.outcome, first.events + rest.events)
  }

  /** A snapshot within a wait is requested only in time, and for no longer than remains. */
  function ExecAction(action: Action, context: Option<int>): Ran
    decreases action
  {
    match action
    case Call(operation, timeout, now, answer) =>
      var remaining := if operation.Snapshot? && context.Some? then Some(context.value - now) else None;
      if remaining.Some? && remaining.value <= 0 then Ran(Raised(TimedOut), [])
      else
        var limit := if remaining.Some? then Min(timeout, remaining.value) else timeout;
        Ran(Answered(operation, answer), [Issued(operation, limit, remaining)])
    case Wait(start, timeout, rounds) =>
      var deadline := Deadline(start + timeout, context);
      var looped := ExecRounds(rounds, deadline);
      Ran(looped.outcome, [Began(deadline, context)] + looped.events)
  }

  function ExecRounds(rounds: Rounds, deadline: int): Ran
    decreases rounds, 1
  {
    if rounds.Cut? then Ran(Unfinished, [])
    else
      var step := ExecRound(rounds, deadline);
      if step.outcome.Some? then Ran(step.outcome.value, step.events)
      else
        var rest := ExecRounds(rounds.more, deadline);
        Ran(rest.outcome, step.events + rest.events)
  }

  function ExecRound(round: Rounds, deadline: int): Step
    requires round.Round?
    decreases round, 0
  {
    if round.now >= deadline then Step(Some(Raised(TimedOut)), [])
    else
      var body := Exec(round.body, Some(deadline));
      Step(Ends(body, round.after, deadline), [RoundBegan(round.now)] + body.events + Verdict(body, round.after, deadline))
  }

  /** An unavailable snapshot is passed over only when the round issued no mutating command. */
  function Ends(body: Ran, after: int, deadline: int): Option<Outcome> {
    if body.outcome == Raised(SnapshotUnavailable) then
      if Mutations(body.events) > 0 then Some(body.outcome) else None
    else if body.outcome.Value? && !(body.outcome.truthy && after < deadline) then None
    else Some(body.outcome)
  }

  function Verdict(body: Ran, after: int, deadline: int): seq<Event> {
    if body.outcome == Raised(SnapshotUnavailable) then
      if Mutations(body.events) > 0 then [Reraised(1 + |body.events|)] else [Swallowed(1 + |body.events|)]
    else if body.outcome.Value? && body.outcome.truthy && after < deadline then [Returned(deadline, after)]
    else []
  }

  // ---------------------------------------------------------------- the observer

  /** The shared one-element list that counts mutating commands. */
  class Counter {
    var count: nat

    constructor ()
      ensures count == 0
    {
      count := 0;
    }
  }

  class ObservationWait {
    const deadline: int
    const mutations: Counter

    constructor (deadline: int, parent: ObservationWait?)
      ensures this.deadline == if parent != null then Min(deadline, parent.deadline) else deadline
      ensures parent != null ==> mutations == parent.mutations
      ensures parent == null ==> fresh(mutations) && mutations.count == 0
    {
      if parent != null {
        this.deadline := Min(deadline, parent.deadline);
        this.mutations := parent.mutations;
      } else {
        this.deadline := deadline;
        this.mutations := new Counter();
      }
    }
  }

  class Observer {
    var active: ObservationWait?
    ghost var log: seq<Event>

    constructor ()
      ensures active == null && log == []
    {
      active, log := null, [];
    }

    /** The counter of the active wait. */
    ghost function Cell(): set<object>
      reads this
    {
      if active != null then {active.mutations} else {}
    }

    ghost function Count(): nat
      reads this, Cell()
    {
      if active != null then active.mutations.count else 0
    }

    ghost function Context(): Option<int>
      reads this
    {
      if active != null then Some(active.deadline) else None
    }

    /** `call`: counts a mutation before the command is issued. */
    method Perform(call: Action) returns (r: Outcome)
      requires call.Call?
      modifies this`log, Cell()
      ensures r == ExecAction(call, Context()).outcome
      ensures log == old(log) + ExecAction(call, Context()).events
      ensures active != null ==> Count() == old(Count()) + Mutations(ExecAction(call, Context()).events)
    {
      if call.operation.Mutation? && active != null {
        active.mutations.count := active.mutations.count + 1;
      }
      var limit, remaining := call.timeout, None;
      if call.operation.Snapshot? && active != null {
        remaining := Some(active.deadline - call.now);
        if remaining.value <= 0 {
          return Raised(TimedOut);
        }
        limit := Min(limit, remaining.value);
      }
      ghost var issued := Issued(call.operation, limit, remaining);
      OneEvent(issued);
      log := log + [issued];
      return Answered(call.operation, call.answer);
    }

    /** A predicate, or anything else that calls and waits. */
    method Run(script: Script) returns (r: Outcome)
      modifies this, Cell()
      ensures active == old(active)
      ensures r == Exec(script, Context()).outcome
      ensures log == old(log) + Exec(script, Context()).events
      ensures active != null ==> Count() == old(Count()) + Mutations(Exec(script, Context()).events)
      decreases script, 1
    {
      match script
      case Return(truthy) => return Value(truthy);
      case Raise(error) => return Raised(error);
      case Do(_, _, _) => r := Proceed(script);
    }

    /** An action, and what follows it unless its exception goes uncaught. */
    method Proceed(script: Script) returns (r: Outcome)
      requires script.Do?
      modifies this, Cell()
      ensures active == old(active)
      ensures r == Exec(script, Context()).outcome
      ensures log == old(log) + Exec(script, Context()).events
      ensures active != null ==> Count() == old(Count()) + Mutations(Exec(script, Context()).events)
      decreases script, 0
    {
      ghost var before, acted, rest := log, ExecAction(script.action, Context()), Exec(script.next, Context());
      ExecDo(script, Context());
      var first := Act(script.action);
      if Stops(first, script.catches) {
        return first;
      }
      r := Run(script.next);
      Associate(before, acted.events, rest.events);
    }

    method Act(action: Action) returns (r: Outcome)
      modifies this, Cell()
      ensures active == old(active)
      ensures r == ExecAction(action, Context()).outcome
      ensures log == old(log) + ExecAction(action, Context()).events
      ensures active != null ==> Count() == old(Count()) + Mutations(ExecAction(action, Context()).events)
      decreases action, 1
    {
      if action.Call? {
        r := Perform(action);
      } else {
        r := WaitFor(action);
      }
    }

    /** `wait`: polls the predicate until its value is true or the deadline has passed. */
    method WaitFor(wait: Action) returns (r: Outcome)
      requires wait.Wait?
      modifies this, Cell()
      ensures active == old(active)
      ensures r == ExecAction(wait, Context()).outcome
      ensures log == old(log) + ExecAction(wait, Context()).events
      ensures active != null ==> Count() == old(Count()) + Mutations(ExecAction(wait, Context()).events)
      decreases wait, 0
    {
      ExecWait(wait, Context());
      ghost var before := log;
      var parent := active;
      var context := new ObservationWait(wait.start + wait.timeout, parent);
      ghost var began := Began(context.deadline, Context());
      log := log + [began];
      active := context;
      r := Loop(wait.rounds);
      active := parent;
      Associate(before, [began], ExecRounds(wait.rounds, context.deadline).events);
    }

    /** The loop of the active wait. */
    method Loop(rounds: Rounds) returns (r: Outcome)
      requires active != null
      modifies this, Cell()
      ensures active == old(active)
      ensures r == ExecRounds(rounds, active.deadline).outcome
      ensures log == old(log) + ExecRounds(rounds, active.deadline).events
      ensures Count() == old(Count()) + Mutations(ExecRounds(rounds, active.deadline).events)
      decreases rounds, 1
    {
      var left := rounds;
      ghost var done, before := [], log;
      while left.Round?
        invariant active == old(active) && log == before + done
        invariant Count() == old(Count()) + Mutations(done)
        invariant ExecRounds(rounds, active.deadline) == Behind(done, ExecRounds(left, active.deadline))
        invariant left == rounds || left < rounds
        decreases left
      {
        var ended := DoRound(left);
        done := RoundDone(before, done, left, active.deadline);
        if ended.Some? {
          return ended.value;
        }
        left := left.more;
      }
      assert done + [] == done;
      return Unfinished;
    }

    /** One round of the active wait; None when the loop goes on. */
    method DoRound(round: Rounds) returns (r: Option<Outcome>)
      requires active != null && round.Round?
      modifies this, Cell()
      ensures active == old(active)
      ensures r == ExecRound(round, active.deadline).outcome
      ensures log == old(log) + ExecRound(round, active.deadline).events
      ensures Count() == old(Count()) + Mutations(ExecRound(round, active.deadline).events)
      decreases round, 0
    {
      if round.now >= active.deadline {
        return Some(Raised(TimedOut));
      }
      ghost var begun, body := RoundBegan(round.now), Exec(round.body, Context());
      log := log + [begun];
      var serial := active.mutations.count;
      var value := Run(round.body);
      r := Settle(round.after, value, serial != active.mutations.count, body);
      RoundMutations(begun, body, round.after, active.deadline);
    }

    /** What the round's value or exception makes of the wait. */
    method Settle(after: int, value: Outcome, mutated: bool, ghost body: Ran) returns (r: Option<Outcome>)
      requires active != null && value == body.outcome && (mutated <==> Mutations(body.events) > 0)
      modifies `log
      ensures r == Ends(body, after, active.deadline)
      ensures log == old(log) + Verdict(body, after, active.deadline)
    {
      if value == Raised(SnapshotUnavailable) {
        if mutated {
          log := log + [Reraised(1 + |body.events|)];
          return Some(value);
        }
        log := log + [Swallowed(1 + |body.events|)];
        return None;
      }
      if !value.Value? {
        return Some(value);
      }
      if value.truthy && active.deadline - after > 0 {
        log := log + [Returned(active.deadline, after)];
        return Some(value);
      }
      return None;
    }
  }

  // ---------------------------------------------------------------- counting

  lemma OneEvent(e: Event)
    ensures Mutations([e]) == if Mutating(e) then 1 else 0
  {
    assert [e][..0] == [];
  }

  lemma {:induction false} MutationsConcat(a: seq<Event>, b: seq<Event>)
    ensures Mutations(a + b) == Mutations(a) + Mutations(b)
  {
    if b == [] {
      assert a + b == a;
    } else {
      assert (a + b)[..|a + b| - 1] == a + b[..|b| - 1];
      MutationsConcat(a, b[..|b| - 1]);
    }
  }

  /** A round's own events issue nothing. */
  lemma RoundMutations(begun: Event, body: Ran, after: int, deadline: int)
    requires begun.RoundBegan?
    ensures Mutations([begun] + body.events + Verdict(body, after, deadline)) == Mutations(body.events)
  {
    var verdict := Verdict(body, after, deadline);
    OneEvent(begun);
    MutationsConcat([begun], body.events);
    MutationsConcat([begun] + body.events, verdict);
    if verdict != [] {
      OneEvent(verdict[0]);
      assert verdict == [verdict[0]];
    }
  }

  /** A run whose events come after others. */
  function Behind(done: seq<Event>, run: Ran): Ran { Ran(run.outcome, done + run.events) }

  lemma ExecDo(script: Script, context: Option<int>)
    requires script.Do?
    ensures var acted, rest := ExecAction(script.action, context), Exec(script.next, context);
            if Stops(acted.outcome, script.catches) then Exec(script, context) == acted
            else && Exec(script, context) == Ran(rest.outcome, acted.events + rest.events)
                 && Mutations(Exec(script, context).events) == Mutations(acted.events) + Mutations(rest.events)
  {
    MutationsConcat(ExecAction(script.action, context).events, Exec(script.next, context).events);
  }

  lemma ExecWait(wait: Action, context: Option<int>)
    requires wait.Wait?
    ensures var deadline := Deadline(wait.start + wait.timeout, context);
            var looped := ExecRounds(wait.rounds, deadline);
            && ExecAction(wait, context) == Ran(looped.outcome, [Began(deadline, context)] + looped.events)
            && Mutations(ExecAction(wait, context).events) == Mutations(looped.events)
  {
    var deadline := Deadline(wait.start + wait.timeout, context);
    OneEvent(Began(deadline, context));
    MutationsConcat([Began(deadline, context)], ExecRounds(wait.rounds, deadline).events);
  }

  /** After one round more. */
  lemma RoundDone(log: seq<Event>, before: seq<Event>, rounds: Rounds, deadline: int) returns (done: seq<Event>)
    requires rounds.Round?
    ensures var step := ExecRound(rounds, deadline);
            && done == before + step.events && Mutations(done) == Mutations(before) + Mutations(step.events)
            && log + before + step.events == log + done
            && Behind(before, ExecRounds(rounds, deadline)) ==
               if step.outcome.Some? then Ran(step.outcome.value, done)
               else Behind(done, ExecRounds(rounds.more, deadline))
  {
    var step := ExecRound(rounds, deadline);
    done := before + step.events;
    MutationsConcat(before, step.events);
    Associate(log, before, step.events);
    Associate(before, step.events, ExecRounds(rounds.more, deadline).events);
  }

  // ---------------------------------------------------------------- every event is justified

  predicate Quiet(log: seq<Event>, from: nat, to: nat) {
    forall k :: from <= k < to && k < |log| ==> !Mutating(log[k])
  }

  /**
   * A snapshot was swallowed only when no mutating command was issued since its round began,
   * at any depth, and re-raised only when one was; a nested deadline is at most its parent's;
   * a value was returned only in time; and within a wait a snapshot was requested only in
   * time, and for no longer than remained.
   */
  predicate GoodEvent(log: seq<Event>, i: nat)
    requires i < |log|
  {
    match log[i]
    case Swallowed(width) => 0 < width <= i && log[i - width].RoundBegan? && Quiet(log, i - width, i)
    case Reraised(width) => 0 < width <= i && log[i - width].RoundBegan? && !Quiet(log, i - width, i)
    case Began(deadline, parent) => parent.Some? ==> deadline <= parent.value
    case Returned(deadline, now) => now < deadline
    case Issued(operation, timeout, remaining) => remaining.Some? ==> remaining.value > 0 && timeout <= remaining.value
    case RoundBegan(_) => true
  }

  predicate Good(log: seq<Event>) { forall i :: 0 <= i < |log| ==> GoodEvent(log, i) }

  lemma GoodWithin(a: seq<Event>, b: seq<Event>, c: seq<Event>, i: nat)
    requires i < |b| && GoodEvent(b, i)
    ensures GoodEvent(a + b + c, |a| + i)
  {
    var log := a + b + c;
    assert forall k :: 0 <= k < |b| ==> log[|a| + k] == b[k];
    if (b[i].Swallowed? || b[i].Reraised?) && !Quiet(b, i - b[i].width, i) {
      var k :| i - b[i].width <= k < i && Mutating(b[k]);
      assert Mutating(log[|a| + k]);
    }
  }

  lemma GoodConcat(a: seq<Event>, b: seq<Event>)
    requires Good(a) && Good(b)
    ensures Good(a + b)
  {
    assert [] + a + b == a + b && a + b + [] == a + b;
    forall i | 0 <= i < |a + b| ensures GoodEvent(a + b, i) {
      if i < |a| {
        GoodWithin([], a, b, i);
      } else {
        GoodWithin(a, b, [], i - |a|);
      }
    }
  }

  /** Whatever a script does, every event of its run is justified by those before it. */
  lemma {:induction false} RunsAreGood(script: Script, context: Option<int>)
    ensures Good(Exec(script, context).events)
    decreases script
  {
    if script.Do? {
      ActionsAreGood(script.action, context);
      RunsAreGood(script.next, context);
      GoodConcat(ExecAction(script.action, context).events, Exec(script.next, context).events);
    }
  }

  lemma {:induction false} ActionsAreGood(action: Action, context: Option<int>)
    ensures Good(ExecAction(action, context).events)
    decreases action
  {
    if action.Wait? {
      var deadline := Deadline(action.start + action.timeout, context);
      RoundsAreGood(action.rounds, deadline);
      GoodConcat([Began(deadline, context)], ExecRounds(action.rounds, deadline).events);
    }
  }

  lemma {:induction false} RoundsAreGood(rounds: Rounds, deadline: int)
    ensures Good(ExecRounds(rounds, deadline).events)
    decreases rounds
  {
    if rounds.Round? {
      RunsAreGood(rounds.body, Some(deadline));
      RoundIsGood(rounds, deadline);
      RoundsAreGood(rounds.more, deadline);
      GoodConcat(ExecRound(rounds, deadline).events, ExecRounds(rounds.more, deadline).events);
    }
  }

  lemma RoundIsGood(round: Rounds, deadline: int)
    requires round.Round? && Good(Exec(round.body, Some(deadline)).events)
    ensures Good(ExecRound(round, deadline).events)
  {
    if round.now < deadline {
      var body := Exec(round.body, Some(deadline));
      var begun := [RoundBegan(round.now)];
      var verdict := Verdict(body, round.after, deadline);
      GoodConcat(begun, body.events);
      MutationsQuiet(body.events);
      var log := begun + body.events + verdict;
      forall i | 0 <= i < |log| ensures GoodEvent(log, i) {
        if i < |begun + body.events| {
          assert [] + (begun + body.events) + verdict == log;
          GoodWithin([], begun + body.events, verdict, i);
        } else {
          assert log[i] == verdict[0];
          VerdictIsGood(begun, body, round.after, deadline);
        }
      }
    }
  }

  lemma VerdictIsGood(begun: seq<Event>, body: Ran, after: int, deadline: int)
    requires |begun| == 1 && begun[0].RoundBegan? && Verdict(body, after, deadline) != []
    requires Mutations(body.events) == 0 <==> Quiet(body.events, 0, |body.events|)
    ensures GoodEvent(begun + body.events + Verdict(body, after, deadline), 1 + |body.events|)
  {
    var log := begun + body.events + Verdict(body, after, deadline);
    assert forall k :: 0 <= k < |body.events| ==> log[1 + k] == body.events[k];
    assert log[0] == begun[0];
    if !Quiet(body.events, 0, |body.events|) {
      var k :| 0 <= k < |body.events| && Mutating(body.events[k]);
      assert Mutating(log[1 + k]);
    }
  }

  lemma {:induction false} MutationsQuiet(log: seq<Event>)
    ensures Mutations(log) == 0 <==> Quiet(log, 0, |log|)
  {
    if log != [] {
      var front := log[..|log| - 1];
      MutationsQuiet(front);
      assert forall k :: 0 <= k < |front| ==> front[k] == log[k];
    }
  }

  // ---------------------------------------------------------------- what a wait comes to

  function Length(rounds: Rounds): nat { if rounds.Cut? then 0 else 1 + Length(rounds.more) }

  function At(rounds: Rounds, i: nat): (r: Rounds)
    requires i < Length(rounds)
    ensures r.Round?
  {
    if i == 0 then rounds else At(rounds.more, i - 1)
  }

  /** The loop goes on after this round. */
  predicate GoesOn(round: Rounds, deadline: int)
    requires round.Round?
  {
    ExecRound(round, deadline).outcome.None?
  }

  /**
   * A wait goes on exactly after a round begun in time whose predicate was false, or true too
   * late, or met an unavailable snapshot without having issued a mutating command.
   */
  lemma GoesOnMeans(round: Rounds, deadline: int)
    requires round.Round?
    ensures GoesOn(round, deadline) <==>
      var body := Exec(round.body, Some(deadline));
      && round.now < deadline
      && (|| body.outcome == Value(false)
          || (body.outcome == Value(true) && round.after >= deadline)
          || (body.outcome == Raised(SnapshotUnavailable) && Quiet(body.events, 0, |body.events|)))
  {
    MutationsQuiet(Exec(round.body, Some(deadline)).events);
  }

  /** The first round after which the loop does not go on decides the wait. */
  lemma {:induction false} FirstRoundDecides(rounds: Rounds, deadline: int) returns (n: nat)
    ensures n <= Length(rounds) && forall j :: 0 <= j < n ==> GoesOn(At(rounds, j), deadline)
    ensures n == Length(rounds) ==> ExecRounds(rounds, deadline).outcome == Unfinished
    ensures n < Length(rounds) ==>
      !GoesOn(At(rounds, n), deadline)
      && ExecRounds(rounds, deadline).outcome == ExecRound(At(rounds, n), deadline).outcome.value
  {
    if rounds.Cut? || !GoesOn(rounds, deadline) {
      n := 0;
    } else {
      var m := FirstRoundDecides(rounds.more, deadline);
      n := m + 1;
      forall j | 0 <= j < n ensures GoesOn(At(rounds, j), deadline) {
        assert j > 0 ==> At(rounds, j) == At(rounds.more, j - 1);
      }
    }
  }

  /** A round that returns: begun in time, true, and still in time. */
  predicate ReturnsIn(round: Rounds, deadline: int)
    requires round.Round?
  {
    round.now < deadline && Exec(round.body, Some(deadline)).outcome == Value(true) && round.after < deadline
  }

  /** A wait returns exactly when a round returns and the loop goes on after all earlier ones; what it returns is true. */
  lemma ReturnsMeans(rounds: Rounds, deadline: int)
    ensures ExecRounds(rounds, deadline).outcome.Value? <==> ReturnsAfterGoing(rounds, deadline)
    ensures ExecRounds(rounds, deadline).outcome.Value? ==> ExecRounds(rounds, deadline).outcome.truthy
  {
    var n := FirstRoundDecides(rounds, deadline);
    if ReturnsAfterGoing(rounds, deadline) {
      var i :| ReturnsAfter(rounds, deadline, i);
      assert !GoesOn(At(rounds, i), deadline);
      assert n <= i;
      assert i <= n;
    }
    if ExecRounds(rounds, deadline).outcome.Value? {
      assert ReturnsAfter(rounds, deadline, n);
    }
  }

  predicate ReturnsAfter(rounds: Rounds, deadline: int, i: nat) {
    && i < Length(rounds) && ReturnsIn(At(rounds, i), deadline)
    && forall j :: 0 <= j < i ==> GoesOn(At(rounds, j), deadline)
  }

  ghost predicate ReturnsAfterGoing(rounds: Rounds, deadline: int) { exists i :: ReturnsAfter(rounds, deadline, i) }

  /** A round that issued a mutating command and then met an unavailable snapshot ends its wait: nothing is repeated. */
  lemma NothingIsRepeated(rounds: Rounds, deadline: int, i: nat)
    requires i < Length(rounds) && forall j :: 0 <= j < i ==> GoesOn(At(rounds, j), deadline)
    requires At(rounds, i).now < deadline
    requires Exec(At(rounds, i).body, Some(deadline)).outcome == Raised(SnapshotUnavailable)
    requires !Quiet(Exec(At(rounds, i).body, Some(deadline)).events, 0, |Exec(At(rounds, i).body, Some(deadline)).events|)
    ensures ExecRounds(rounds, deadline).outcome == Raised(SnapshotUnavailable)
    ensures ExecRounds(rounds, deadline).events == EventsUpTo(rounds, deadline, i)
  {
    GoesOnMeans(At(rounds, i), deadline);
    StopsAt(rounds, deadline, i);
  }

  /** The events of the rounds up to the i-th, and no others. */
  function EventsUpTo(rounds: Rounds, deadline: int, i: nat): seq<Event>
    requires i < Length(rounds)
  {
    ExecRound(rounds, deadline).events + if i == 0 then [] else EventsUpTo(rounds.more, deadline, i - 1)
  }

  lemma {:induction false} StopsAt(rounds: Rounds, deadline: int, i: nat)
    requires i < Length(rounds) && forall j :: 0 <= j < i ==> GoesOn(At(rounds, j), deadline)
    requires !GoesOn(At(rounds, i), deadline)
    ensures ExecRounds(rounds, deadline) ==
      Ran(ExecRound(At(rounds, i), deadline).outcome.value, EventsUpTo(rounds, deadline, i))
  {
    if i == 0 {
      var events := ExecRound(rounds, deadline).events;
      assert events + [] == events;
    } else {
      assert GoesOn(At(rounds, 0), deadline);
      forall j | 0 <= j < i - 1 ensures GoesOn(At(rounds.more, j), deadline) {
        assert At(rounds, j + 1) == At(rounds.more, j);
      }
      StopsAt(rounds.more, deadline, i - 1);
    }
  }

  // ---------------------------------------------------------------- single commands and waits

  /**
   * A command that is issued: only a snapshot within a wait has its time cut to what remains,
   * and only an unavailable snapshot raises what a round may pass over.
   */
  lemma CallMeans(operation: Operation, timeout: int, now: int, answer: Answer, context: Option<int>)
    requires operation == Snapshot && context.Some? ==> now < context.value
    ensures var ran := ExecAction(Call(operation, timeout, now, answer), context);
            && |ran.events| == 1 && ran.events[0].Issued? && ran.events[0].operation == operation
            && (operation != Snapshot || context == None ==> ran.events[0] == Issued(operation, timeout, None))
            && (operation == Snapshot && context.Some? ==>
                  && ran.events[0].remaining == Some(context.value - now)
                  && ran.events[0].timeout <= timeout && ran.events[0].timeout <= context.value - now
                  && (ran.events[0].timeout == timeout || ran.events[0].timeout == context.value - now))
            && (forall truthy :: ran.outcome == Value(truthy) <==> answer == Passed(truthy))
            && (ran.outcome == Raised(SnapshotUnavailable) <==> answer == Unavailable && operation == Snapshot)
            && (ran.outcome == Raised(Runtime) <==> answer == Failed || (answer == Unavailable && operation != Snapshot))
  {
  }

  /** Within a wait whose deadline has come no snapshot is requested. */
  lemma LateSnapshot(timeout: int, now: int, answer: Answer, deadline: int)
    requires now >= deadline
    ensures ExecAction(Call(Snapshot, timeout, now, answer), Some(deadline)) == Ran(Raised(TimedOut), [])
  {
  }

  /** A wait lasts until the earlier of its own deadline and that of the wait around it. */
  lemma WaitMeans(start: int, timeout: int, rounds: Rounds, context: Option<int>)
    ensures var ran := ExecAction(Wait(start, timeout, rounds), context);
            && ran.events != [] && ran.events[0].Began? && ran.events[0].parent == context
            && var deadline := ran.events[0].deadline;
               && deadline <= start + timeout && (context.Some? ==> deadline <= context.value)
               && (deadline == start + timeout || context == Some(deadline))
               && ran == Ran(ExecRounds(rounds, deadline).outcome, [Began(deadline, context)] + ExecRounds(rounds, deadline).events)
  {
  }

  /** What follows an action happens behind it, unless its exception went uncaught. */
  lemma ScriptMeans(action: Action, catches: bool, next: Script, context: Option<int>)
    ensures var first, rest, ran := ExecAction(action, context), Exec(next, context), Exec(Do(action, catches, next), context);
            && (first.outcome.Value? || (first.outcome.Raised? && catches) ==>
                  ran.outcome == rest.outcome && ran.events == first.events + rest.events)
            && (first.outcome.Unfinished? || (first.outcome.Raised? && !catches) ==> ran == first)
  {
  }

  /** A round begun in time shows its predicate's events, and what became of an unavailable snapshot or a timely value. */
  lemma RoundMeans(round: Rounds, deadline: int)
    requires round.Round? && round.now < deadline
    ensures var body, events := Exec(round.body, Some(deadline)), ExecRound(round, deadline).events;
            && [RoundBegan(round.now)] + body.events <= events
            && |events| <= 2 + |body.events|
            && (body.outcome == Raised(SnapshotUnavailable) <==>
                  events[1 + |body.events|..] == [Swallowed(1 + |body.events|)] ||
                  events[1 + |body.events|..] == [Reraised(1 + |body.events|)])
            && (ReturnsIn(round, deadline) <==> events[1 + |body.events|..] == [Returned(deadline, round.after)])
  {
    var body := Exec(round.body, Some(deadline));
    var verdict := Verdict(body, round.after, deadline);
    var begun := [RoundBegan(round.now)] + body.events;
    assert (begun + verdict)[1 + |body.events|..] == verdict;
  }
}
