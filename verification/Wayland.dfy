/**
 * The recogniser of a configured window and a submitted buffer in a Wayland trace
 * (qualification/section-2/check-wayland.py, lines 96-129).
 */
module Wayland {
  import opened Wrappers
  import opened Sequences

  /** One traced message, as the line pattern splits it. */
  datatype Message = Message(sent: bool, iface: string, identity: string, name: string, args: string)

  /** The messages the recogniser distinguishes, by object identity. */
  datatype Event =
    | GetXdgSurface(xdg: string, surface: string)
    | GetToplevel(xdg: string)
    | Configure(xdg: string, serial: string)
    | AckConfigure(xdg: string, serial: string)
    | Attach(surface: string, buffer: bool)
    | Commit(surface: string)
    | Other

  // ---------------------------------------------------------------- argument patterns

  predicate Digit(c: char) { '0' <= c <= '9' }

  function DigitCount(s: string): (n: nat)
    ensures n <= |s|
  {
    if s != "" && Digit(s[0]) then 1 + DigitCount(s[1..]) else 0
  }

  /** `\s` of a Python string pattern. */
  predicate Space(c: char) {
    || c == ' ' || '\t' <= c <= '\r' || '\U{1C}' <= c <= '\U{1F}' || c == '\U{85}' || c == '\U{A0}'
    || c == '\U{1680}' || '\U{2000}' <= c <= '\U{200A}' || c == '\U{2028}' || c == '\U{2029}'
    || c == '\U{202F}' || c == '\U{205F}' || c == '\U{3000}'
  }

  function SkipSpaces(s: string): string {
    if s != "" && Space(s[0]) then SkipSpaces(s[1..]) else s
  }

  function After(s: string, prefix: string): Option<string> {
    if prefix <= s then Some(s[|prefix|..]) else None
  }

  /** What follows `(?:new id )?`. */
  function Named(args: string): string {
    if After(args, "new id ").Some? then After(args, "new id ").value else args
  }

  /** `(?:new id )?xdg_surface@(\d+),\s*wl_surface@(\d+)` */
  function Mapping(args: string): Option<(string, string)> {
    var t :- After(Named(args), "xdg_surface@");
    var n := DigitCount(t);
    var u :- After(t[n..], ",");
    var v :- After(SkipSpaces(u), "wl_surface@");
    if n > 0 && v != "" && DigitCount(v) == |v| then Some((t[..n], v)) else None
  }

  /** `wl_buffer@[1-9][0-9]*[,)]`, matched at the start. */
  predicate NonNull(args: string) {
    match After(args, "wl_buffer@")
    case None => false
    case Some(t) =>
      var n := DigitCount(t);
      0 < n < |t| && t[0] != '0' && (t[n] == ',' || t[n] == ')')
  }

  function Classify(m: Message): Event {
    if m.sent && m.iface == "xdg_wm_base" && m.name == "get_xdg_surface" then
      match Mapping(m.args)
      case Some(pair) => GetXdgSurface(pair.0, pair.1)
      case None => Other
    else if m.iface == "xdg_surface" then
      if m.sent && m.name == "get_toplevel" then GetToplevel(m.identity)
      else if !m.sent && m.name == "configure" then Configure(m.identity, m.args)
      else if m.sent && m.name == "ack_configure" then AckConfigure(m.identity, m.args)
      else Other
    else if m.sent && m.iface == "wl_surface" then
      if m.name == "attach" then Attach(m.identity, NonNull(m.args))
      else if m.name == "commit" then Commit(m.identity)
      else Other
    else Other
  }

  function Events(messages: seq<Message>): (events: seq<Event>)
    ensures |events| == |messages| && forall i :: 0 <= i < |events| ==> events[i] == Classify(messages[i])
  {
    seq(|messages|, i requires 0 <= i < |messages| => Classify(messages[i]))
  }

  // ---------------------------------------------------------------- the inner loop

  datatype State = State(role: bool, serial: Option<string>, acknowledged: bool, attached: bool)

  const START := State(false, None, false, false)

  function Step(s: State, e: Event, xdg: string, surface: string): State {
    match e
    case GetToplevel(x) => if x == xdg then s.(role := true) else s
    case Configure(x, serial) => if x == xdg && s.role then State(true, Some(serial), false, false) else s
    case AckConfigure(x, serial) => if x == xdg && s.serial == Some(serial) then s.(acknowledged := true) else s
    case Attach(w, buffer) => if w == surface && s.acknowledged then s.(attached := buffer) else s
    case _ => s
  }

  /** The state after the events from one get_xdg_surface up to j. */
  function Scan(events: seq<Event>, g: nat, j: nat): State
    requires g < j <= |events| && events[g].GetXdgSurface?
  {
    if j == g + 1 then START
    else Step(Scan(events, g, j - 1), events[j - 1], events[g].xdg, events[g].surface)
  }

  /** Event j acknowledges the current serial. */
  predicate Configures(events: seq<Event>, g: nat, j: nat)
    requires g < j < |events| && events[g].GetXdgSurface?
  {
    events[j].AckConfigure? && events[j].xdg == events[g].xdg && Scan(events, g, j).serial == Some(events[j].serial)
  }

  /** Event j commits an attached buffer of an acknowledged surface. */
  predicate Submits(events: seq<Event>, g: nat, j: nat)
    requires g < j < |events| && events[g].GetXdgSurface?
  {
    events[j] == Commit(events[g].surface) && Scan(events, g, j).acknowledged && Scan(events, g, j).attached
  }

  predicate SomeConfigures(events: seq<Event>, g: nat, n: nat)
    requires g < n <= |events| && events[g].GetXdgSurface?
  {
    exists j :: g < j < n && Configures(events, g, j)
  }

  predicate SomeSubmits(events: seq<Event>, g: nat, n: nat)
    requires g < n <= |events| && events[g].GetXdgSurface?
  {
    exists j :: g < j < n && Submits(events, g, j)
  }

  predicate AnyConfigured(events: seq<Event>, k: nat)
    requires k <= |events|
  {
    exists g :: 0 <= g < k && events[g].GetXdgSurface? && SomeConfigures(events, g, |events|)
  }

  predicate AnySubmitted(events: seq<Event>, k: nat)
    requires k <= |events|
  {
    exists g :: 0 <= g < k && events[g].GetXdgSurface? && SomeSubmits(events, g, |events|)
  }

  method ProtocolChecks(messages: seq<Message>) returns (configured: bool, submitted: bool)
    ensures configured <==> AnyConfigured(Events(messages), |messages|)
    ensures submitted <==> AnySubmitted(Events(messages), |messages|)
    ensures configured <==> exists w, xdg, surface :: Handshake(messages, w, xdg, surface)
    ensures submitted <==> exists s, xdg, surface :: Submitted(messages, s, xdg, surface)
  {
    configured, submitted := CheckEvents(Events(messages));
    TraceConfigured(messages);
    TraceSubmitted(messages);
  }

  method CheckEvents(events: seq<Event>) returns (configured: bool, submitted: bool)
    ensures configured <==> AnyConfigured(events, |events|)
    ensures submitted <==> AnySubmitted(events, |events|)
  {
    configured, submitted := false, false;
    for index := 0 to |events|
      invariant configured <==> AnyConfigured(events, index)
      invariant submitted <==> AnySubmitted(events, index)
    {
      if events[index].GetXdgSurface? {
        var c, s := FollowSurface(events, index);
        configured, submitted := configured || c, submitted || s;
      }
    }
  }

  method FollowSurface(events: seq<Event>, index: nat) returns (configured: bool, submitted: bool)
    requires index < |events| && events[index].GetXdgSurface?
    ensures configured <==> SomeConfigures(events, index, |events|)
    ensures submitted <==> SomeSubmits(events, index, |events|)
  {
    configured, submitted := false, false;
    var xdg, surface := events[index].xdg, events[index].surface;
    var role, serial, acknowledged, attached := false, None, false, false;
    for j := index + 1 to |events|
      invariant State(role, serial, acknowledged, attached) == Scan(events, index, j)
      invariant configured <==> SomeConfigures(events, index, j)
      invariant submitted <==> SomeSubmits(events, index, j)
    {
      match events[j]
      case GetToplevel(x) =>
        if x == xdg {
          role := true;
        }
      case Configure(x, args) =>
        if x == xdg && role {
          serial, acknowledged, attached := Some(args), false, false;
        }
      case AckConfigure(x, args) =>
        if x == xdg && serial == Some(args) {
          assert Configures(events, index, j);
          configured, acknowledged := true, true;
        }
      case Attach(w, buffer) =>
        if w == surface && acknowledged {
          attached := buffer;
        }
      case Commit(w) =>
        if w == surface && acknowledged && attached {
          assert Submits(events, index, j);
          submitted := true;
        }
      case _ =>
    }
  }

  // ---------------------------------------------------------------- the trace alone

  /** Positions of one window's handshake, and of its first presented buffer. */
  datatype Window = Window(get: nat, toplevel: nat, configure: nat, ack: nat)

  datatype Submission = Submission(window: Window, attach: nat, commit: nat)

  predicate NoConfigure(events: seq<Event>, xdg: string, from: nat, to: nat) {
    forall k :: from < k < to && k < |events| ==> !(events[k].Configure? && events[k].xdg == xdg)
  }

  predicate NoNullAttach(events: seq<Event>, surface: string, from: nat, to: nat) {
    forall k :: from < k < to && k < |events| ==> events[k] != Attach(surface, false)
  }

  /** get_xdg_surface, get_toplevel, a received configure, and the ack of that latest serial, in order. */
  predicate Acknowledged(events: seq<Event>, w: Window) {
    && w.get < w.toplevel < w.configure < w.ack < |events|
    && events[w.get].GetXdgSurface?
    && var xdg := events[w.get].xdg;
       && events[w.toplevel] == GetToplevel(xdg)
       && events[w.configure].Configure? && events[w.configure].xdg == xdg
       && events[w.ack] == AckConfigure(xdg, events[w.configure].serial)
       && NoConfigure(events, xdg, w.configure, w.ack)
  }

  /** Then a non-null attach and a commit, with no configure since and no null attach between. */
  predicate Presented(events: seq<Event>, s: Submission) {
    && Acknowledged(events, s.window)
    && s.window.ack < s.attach < s.commit < |events|
    && var surface := events[s.window.get].surface;
       && events[s.attach] == Attach(surface, true) && events[s.commit] == Commit(surface)
       && NoConfigure(events, events[s.window.get].xdg, s.window.configure, s.commit)
       && NoNullAttach(events, surface, s.attach, s.commit)
  }

  // ---------------------------------------------------------------- the state, declaratively

  predicate HasRole(events: seq<Event>, g: nat, r: nat, j: nat)
    requires g < |events| && events[g].GetXdgSurface?
  {
    g < r < j && r < |events| && events[r] == GetToplevel(events[g].xdg)
  }

  /** c is the latest configure that counts before j. */
  predicate Latest(events: seq<Event>, g: nat, r: nat, c: nat, j: nat)
    requires g < |events| && events[g].GetXdgSurface?
  {
    && HasRole(events, g, r, c) && c < j && c < |events|
    && events[c].Configure? && events[c].xdg == events[g].xdg && NoConfigure(events, events[g].xdg, c, j)
  }

  lemma {:induction false} RoleSeen(events: seq<Event>, g: nat, j: nat)
    requires g < j <= |events| && events[g].GetXdgSurface?
    ensures Scan(events, g, j).role <==> exists r :: HasRole(events, g, r, j)
    decreases j
  {
    if j > g + 1 {
      var i := j - 1;
      RoleSeen(events, g, i);
      if r :| HasRole(events, g, r, i) {
        assert HasRole(events, g, r, j);
      } else if events[j - 1] == GetToplevel(events[g].xdg) {
        assert HasRole(events, g, j - 1, j);
      }
      forall r | HasRole(events, g, r, j) ensures r == j - 1 || HasRole(events, g, r, j - 1) {
      }
    }
  }

  /** A set serial is the latest configure's. */
  lemma {:induction false} SerialSeen(events: seq<Event>, g: nat, j: nat) returns (r: nat, c: nat)
    requires g < j <= |events| && events[g].GetXdgSurface? && Scan(events, g, j).serial.Some?
    ensures Latest(events, g, r, c, j) && Scan(events, g, j).serial == Some(events[c].serial)
    decreases j
  {
    var e := events[j - 1];
    RoleSeen(events, g, j - 1);
    if e.Configure? && e.xdg == events[g].xdg && Scan(events, g, j - 1).role {
      r :| HasRole(events, g, r, j - 1);
      c := j - 1;
    } else {
      r, c := SerialSeen(events, g, j - 1);
      if e.Configure? && e.xdg == events[g].xdg {
        assert HasRole(events, g, r, j - 1);
        assert false;
      }
    }
  }

  /** The latest configure sets the serial. */
  lemma {:induction false} SerialSet(events: seq<Event>, g: nat, r: nat, c: nat, j: nat)
    requires g < j <= |events| && events[g].GetXdgSurface? && Latest(events, g, r, c, j)
    ensures Scan(events, g, j).serial == Some(events[c].serial)
    decreases j
  {
    if c == j - 1 {
      RoleSeen(events, g, c);
    } else {
      SerialSet(events, g, r, c, j - 1);
    }
  }

  lemma {:induction false} AcknowledgedSeen(events: seq<Event>, g: nat, j: nat) returns (w: Window)
    requires g < j <= |events| && events[g].GetXdgSurface? && Scan(events, g, j).acknowledged
    ensures Acknowledged(events, w) && w.get == g && w.ack < j && NoConfigure(events, events[g].xdg, w.configure, j)
    decreases j
  {
    var e := events[j - 1];
    var before := Scan(events, g, j - 1);
    if before.acknowledged && !(e.Configure? && e.xdg == events[g].xdg) {
      w := AcknowledgedSeen(events, g, j - 1);
    } else if before.acknowledged {
      w := AcknowledgedSeen(events, g, j - 1);
      RoleSeen(events, g, j - 1);
      assert HasRole(events, g, w.toplevel, j - 1);
      assert false;
    } else {
      var r, c := SerialSeen(events, g, j - 1);
      w := Window(g, r, c, j - 1);
    }
  }

  lemma {:induction false} AcknowledgedSet(events: seq<Event>, w: Window, j: nat)
    requires Acknowledged(events, w) && w.ack < j <= |events|
    requires NoConfigure(events, events[w.get].xdg, w.configure, j)
    ensures Scan(events, w.get, j).acknowledged
    decreases j
  {
    if w.ack == j - 1 {
      assert Latest(events, w.get, w.toplevel, w.configure, w.ack);
      SerialSet(events, w.get, w.toplevel, w.configure, w.ack);
    } else {
      AcknowledgedSet(events, w, j - 1);
    }
  }

  lemma {:induction false} AttachedSeen(events: seq<Event>, g: nat, j: nat) returns (w: Window, t: nat)
    requires g < j <= |events| && events[g].GetXdgSurface? && Scan(events, g, j).attached
    ensures Acknowledged(events, w) && w.get == g && w.ack < t < j
    ensures events[t] == Attach(events[g].surface, true)
    ensures NoConfigure(events, events[g].xdg, w.configure, j) && NoNullAttach(events, events[g].surface, t, j)
    decreases j
  {
    var e := events[j - 1];
    var before := Scan(events, g, j - 1);
    if e == Attach(events[g].surface, true) && before.acknowledged {
      w := AcknowledgedSeen(events, g, j - 1);
      t := j - 1;
    } else {
      w, t := AttachedSeen(events, g, j - 1);
      AcknowledgedSet(events, w, j - 1);
      RoleSeen(events, g, j - 1);
      assert HasRole(events, g, w.toplevel, j - 1);
    }
  }

  lemma {:induction false} AttachedSet(events: seq<Event>, w: Window, t: nat, j: nat)
    requires Acknowledged(events, w) && w.ack < t < j <= |events|
    requires events[t] == Attach(events[w.get].surface, true)
    requires NoConfigure(events, events[w.get].xdg, w.configure, j) && NoNullAttach(events, events[w.get].surface, t, j)
    ensures Scan(events, w.get, j).attached
    decreases j
  {
    if t == j - 1 {
      AcknowledgedSet(events, w, t);
    } else {
      AttachedSet(events, w, t, j - 1);
    }
  }

  // ---------------------------------------------------------------- the theorems

  lemma ConfiguredMeans(events: seq<Event>)
    ensures AnyConfigured(events, |events|) <==> exists w :: Acknowledged(events, w)
  {
    if AnyConfigured(events, |events|) {
      var g :| 0 <= g < |events| && events[g].GetXdgSurface? && SomeConfigures(events, g, |events|);
      var j :| g < j < |events| && Configures(events, g, j);
      var r, c := SerialSeen(events, g, j);
      assert Acknowledged(events, Window(g, r, c, j));
    }
    forall w | Acknowledged(events, w) ensures AnyConfigured(events, |events|) {
      assert Latest(events, w.get, w.toplevel, w.configure, w.ack);
      SerialSet(events, w.get, w.toplevel, w.configure, w.ack);
      assert Configures(events, w.get, w.ack);
      assert SomeConfigures(events, w.get, |events|);
    }
  }

  /**
   * A submission is reported exactly when the trace contains, in order, get_xdg_surface,
   * get_toplevel, a received configure, its ack, a non-null attach and a commit, with no
   * further configure up to the commit and no null attach between attach and commit.
   */
  lemma SubmittedMeans(events: seq<Event>)
    ensures AnySubmitted(events, |events|) <==> exists s :: Presented(events, s)
  {
    if AnySubmitted(events, |events|) {
      var g :| 0 <= g < |events| && events[g].GetXdgSurface? && SomeSubmits(events, g, |events|);
      var j :| g < j < |events| && Submits(events, g, j);
      var w, t := AttachedSeen(events, g, j);
      assert Presented(events, Submission(w, t, j));
    }
    forall s | Presented(events, s) ensures AnySubmitted(events, |events|) {
      AttachedSet(events, s.window, s.attach, s.commit);
      AcknowledgedSet(events, s.window, s.commit);
      assert Submits(events, s.window.get, s.commit);
      assert SomeSubmits(events, s.window.get, |events|);
    }
  }

  lemma SubmittedImpliesConfigured(events: seq<Event>)
    ensures AnySubmitted(events, |events|) ==> AnyConfigured(events, |events|)
  {
    SubmittedMeans(events);
    ConfiguredMeans(events);
    if s :| Presented(events, s) {
      assert Acknowledged(events, s.window);
    }
  }

  /** Extending the trace never retracts either report. */
  lemma ReportsAreMonotone(events: seq<Event>, more: seq<Event>)
    ensures AnyConfigured(events, |events|) ==> AnyConfigured(events + more, |events + more|)
    ensures AnySubmitted(events, |events|) ==> AnySubmitted(events + more, |events + more|)
  {
    ConfiguredMeans(events);
    ConfiguredMeans(events + more);
    if w :| Acknowledged(events, w) {
      AcknowledgedExtends(events, more, w);
    }
    SubmittedExtends(events, more);
  }

  lemma SubmittedExtends(events: seq<Event>, more: seq<Event>)
    ensures AnySubmitted(events, |events|) ==> AnySubmitted(events + more, |events + more|)
  {
    SubmittedMeans(events);
    SubmittedMeans(events + more);
    if s :| Presented(events, s) {
      AcknowledgedExtends(events, more, s.window);
      assert Presented(events + more, s);
    }
  }

  lemma AcknowledgedExtends(events: seq<Event>, more: seq<Event>, w: Window)
    requires Acknowledged(events, w)
    ensures Acknowledged(events + more, w)
  {
  }

  // ---------------------------------------------------------------- what the patterns match

  predicate Digits(s: string) { s != "" && forall i :: 0 <= i < |s| ==> Digit(s[i]) }

  /** The spaces by their code points. */
  lemma SpaceCodes(c: char)
    ensures var n := c as int;
            Space(c) <==>
            9 <= n <= 13 || 28 <= n <= 32 || n == 133 || n == 160 || n == 5760 || 8192 <= n <= 8202
            || n == 8232 || n == 8233 || n == 8239 || n == 8287 || n == 12288
  {
  }

  lemma TenDigits(c: char)
    ensures Digit(c) <==> c in "0123456789"
  {
  }

  predicate Spaces(s: string) { forall i :: 0 <= i < |s| ==> Space(s[i]) }

  lemma {:induction false} DigitsCounted(d: string, rest: string)
    requires forall i :: 0 <= i < |d| ==> Digit(d[i])
    requires rest == "" || !Digit(rest[0])
    ensures DigitCount(d + rest) == |d|
  {
    if d == "" {
      assert d + rest == rest;
    } else {
      assert (d + rest)[1..] == d[1..] + rest;
      DigitsCounted(d[1..], rest);
    }
  }

  lemma {:induction false} CountedAreDigits(s: string)
    ensures forall i :: 0 <= i < DigitCount(s) ==> Digit(s[i])
    ensures DigitCount(s) < |s| ==> !Digit(s[DigitCount(s)])
  {
    if s != "" && Digit(s[0]) {
      CountedAreDigits(s[1..]);
      assert forall i :: 0 < i < |s| ==> s[i] == s[1..][i - 1];
    }
  }

  lemma {:induction false} SpacesSkipped(spaces: string, rest: string)
    requires Spaces(spaces) && (rest == "" || !Space(rest[0]))
    ensures SkipSpaces(spaces + rest) == rest
  {
    if spaces == "" {
      assert spaces + rest == rest;
    } else {
      assert (spaces + rest)[1..] == spaces[1..] + rest;
      SpacesSkipped(spaces[1..], rest);
    }
  }

  lemma SpacesCons(c: char, more: string)
    requires Space(c) && Spaces(more)
    ensures Spaces([c] + more)
  {
  }

  lemma {:induction false} SkippedAreSpaces(s: string) returns (spaces: string)
    ensures Spaces(spaces) && s == spaces + SkipSpaces(s)
  {
    if s != "" && Space(s[0]) {
      var more := SkippedAreSpaces(s[1..]);
      spaces := [s[0]] + more;
      SpacesCons(s[0], more);
      Associate([s[0]], more, SkipSpaces(s[1..]));
      assert s == [s[0]] + s[1..];
    } else {
      spaces := "";
    }
  }

  lemma AfterConcat(prefix: string, rest: string)
    ensures After(prefix + rest, prefix) == Some(rest)
  {
  }

  /** The arguments of a well-formed get_xdg_surface, with or without the words before the new object. */
  predicate MapsTo(args: string, words: string, x: string, spaces: string, w: string) {
    && (words == "" || words == "new id ") && Digits(x) && Spaces(spaces) && Digits(w)
    && args == words + ("xdg_surface@" + (x + ("," + (spaces + ("wl_surface@" + w)))))
  }

  lemma MapsToIsMapped(args: string, words: string, x: string, spaces: string, w: string)
    requires MapsTo(args, words, x, spaces, w)
    ensures Mapping(args) == Some((x, w))
  {
    var surface := "wl_surface@" + w;
    var tail := "," + (spaces + surface);
    var named := "xdg_surface@" + (x + tail);
    AfterWords(args, words, named);
    AfterConcat("xdg_surface@", x + tail);
    DigitsCounted(x, tail);
    assert (x + tail)[|x|..] == tail && (x + tail)[..|x|] == x;
    AfterConcat(",", spaces + surface);
    SpacesSkipped(spaces, surface);
    AfterConcat("wl_surface@", w);
    DigitsCounted(w, "");
    assert w + "" == w;
  }

  lemma AfterWords(args: string, words: string, named: string)
    requires args == words + named && named != "" && named[0] == 'x' && (words == "" || words == "new id ")
    ensures Named(args) == named
  {
    if words == "" {
      assert args[0] == 'x' && "new id "[0] == 'n';
    }
  }

  lemma AfterSplits(s: string, prefix: string)
    requires After(s, prefix).Some?
    ensures s == prefix + After(s, prefix).value
  {
  }

  lemma PairSplits(t: string) returns (spaces: string)
    requires After(t[DigitCount(t)..], ",").Some?
    requires After(SkipSpaces(After(t[DigitCount(t)..], ",").value), "wl_surface@").Some?
    ensures Spaces(spaces)
    ensures var w := After(SkipSpaces(After(t[DigitCount(t)..], ",").value), "wl_surface@").value;
            t == t[..DigitCount(t)] + ("," + (spaces + ("wl_surface@" + w)))
  {
    var n := DigitCount(t);
    var u := After(t[n..], ",").value;
    AfterSplits(t[n..], ",");
    assert t == t[..n] + t[n..];
    spaces := SkippedAreSpaces(u);
    AfterSplits(SkipSpaces(u), "wl_surface@");
  }

  lemma WordsBefore(args: string) returns (words: string)
    ensures (words == "" || words == "new id ") && args == words + Named(args)
  {
    words := if After(args, "new id ").Some? then "new id " else "";
  }

  lemma MappedMapsTo(args: string) returns (words: string, spaces: string)
    requires Mapping(args).Some?
    ensures MapsTo(args, words, Mapping(args).value.0, spaces, Mapping(args).value.1)
  {
    words := WordsBefore(args);
    var t := After(Named(args), "xdg_surface@").value;
    AfterSplits(Named(args), "xdg_surface@");
    CountedAreDigits(t);
    spaces := PairSplits(t);
    CountedAreDigits(Mapping(args).value.1);
  }

  /** Which arguments map which identities. */
  lemma MappingMeans(args: string, x: string, w: string)
    ensures Mapping(args) == Some((x, w)) <==> exists words, spaces :: MapsTo(args, words, x, spaces, w)
  {
    if Mapping(args) == Some((x, w)) {
      var words, spaces := MappedMapsTo(args);
      assert MapsTo(args, words, x, spaces, w);
    }
    forall words, spaces | MapsTo(args, words, x, spaces, w) ensures Mapping(args) == Some((x, w)) {
      MapsToIsMapped(args, words, x, spaces, w);
    }
  }

  /** A buffer identity without leading zero, then a comma or the closing parenthesis. */
  predicate NamesBuffer(args: string, digits: string, c: char, rest: string) {
    && Digits(digits) && digits[0] != '0' && (c == ',' || c == ')')
    && args == "wl_buffer@" + (digits + ([c] + rest))
  }

  lemma NonNullMeans(args: string)
    ensures NonNull(args) <==> exists digits, c, rest :: NamesBuffer(args, digits, c, rest)
  {
    if NonNull(args) {
      AfterSplits(args, "wl_buffer@");
      var t := After(args, "wl_buffer@").value;
      var n := DigitCount(t);
      CountedAreDigits(t);
      assert t == t[..n] + ([t[n]] + t[n + 1..]);
      assert NamesBuffer(args, t[..n], t[n], t[n + 1..]);
    }
    forall digits, c, rest | NamesBuffer(args, digits, c, rest) ensures NonNull(args) {
      AfterConcat("wl_buffer@", digits + ([c] + rest));
      DigitsCounted(digits, [c] + rest);
    }
  }

  // ---------------------------------------------------------------- the traced messages themselves

  predicate GetsSurface(m: Message, xdg: string, surface: string) {
    m.sent && m.iface == "xdg_wm_base" && m.name == "get_xdg_surface" && Mapping(m.args) == Some((xdg, surface))
  }

  predicate GetsToplevel(m: Message, xdg: string) {
    m.sent && m.iface == "xdg_surface" && m.identity == xdg && m.name == "get_toplevel"
  }

  predicate ReceivesConfigure(m: Message, xdg: string) {
    !m.sent && m.iface == "xdg_surface" && m.identity == xdg && m.name == "configure"
  }

  predicate SendsAck(m: Message, xdg: string) {
    m.sent && m.iface == "xdg_surface" && m.identity == xdg && m.name == "ack_configure"
  }

  predicate SendsAttach(m: Message, surface: string) {
    m.sent && m.iface == "wl_surface" && m.identity == surface && m.name == "attach"
  }

  predicate SendsCommit(m: Message, surface: string) {
    m.sent && m.iface == "wl_surface" && m.identity == surface && m.name == "commit"
  }

  lemma ClassifiesWindows(m: Message, xdg: string, surface: string)
    ensures Classify(m) == GetXdgSurface(xdg, surface) <==> GetsSurface(m, xdg, surface)
    ensures Classify(m) == GetToplevel(xdg) <==> GetsToplevel(m, xdg)
  {
  }

  lemma ClassifiesConfigures(m: Message, xdg: string)
    ensures Classify(m).Configure? && Classify(m).xdg == xdg <==> ReceivesConfigure(m, xdg)
    ensures ReceivesConfigure(m, xdg) ==> Classify(m).serial == m.args
    ensures forall serial :: Classify(m) == AckConfigure(xdg, serial) <==> SendsAck(m, xdg) && m.args == serial
  {
  }

  lemma ClassifiesSurfaces(m: Message, surface: string)
    ensures Classify(m) == Attach(surface, true) <==> SendsAttach(m, surface) && NonNull(m.args)
    ensures Classify(m) == Attach(surface, false) <==> SendsAttach(m, surface) && !NonNull(m.args)
    ensures Classify(m) == Commit(surface) <==> SendsCommit(m, surface)
  {
  }

  /** No configure of this window is received strictly between two positions. */
  predicate NoneReceived(messages: seq<Message>, xdg: string, from: nat, to: nat) {
    forall k :: from < k < to && k < |messages| ==> !ReceivesConfigure(messages[k], xdg)
  }

  /** No null buffer is attached strictly between two positions. */
  predicate NoneDetached(messages: seq<Message>, surface: string, from: nat, to: nat) {
    forall k :: from < k < to && k < |messages| ==> !(SendsAttach(messages[k], surface) && !NonNull(messages[k].args))
  }

  lemma BetweenMessages(messages: seq<Message>, xdg: string, from: nat, to: nat)
    ensures NoConfigure(Events(messages), xdg, from, to) <==> NoneReceived(messages, xdg, from, to)
    ensures NoNullAttach(Events(messages), xdg, from, to) <==> NoneDetached(messages, xdg, from, to)
  {
    forall k | 0 <= k < |messages|
      ensures Events(messages)[k].Configure? && Events(messages)[k].xdg == xdg <==> ReceivesConfigure(messages[k], xdg)
      ensures Events(messages)[k] == Attach(xdg, false) <==> SendsAttach(messages[k], xdg) && !NonNull(messages[k].args)
    {
      ClassifiesConfigures(messages[k], xdg);
      ClassifiesSurfaces(messages[k], xdg);
    }
  }

  /**
   * In order: get_xdg_surface and get_toplevel sent, a configure received and its serial
   * acknowledged, with no other configure between these two.
   */
  predicate Handshake(messages: seq<Message>, w: Window, xdg: string, surface: string) {
    && w.get < w.toplevel < w.configure < w.ack < |messages|
    && GetsSurface(messages[w.get], xdg, surface) && GetsToplevel(messages[w.toplevel], xdg)
    && ReceivesConfigure(messages[w.configure], xdg)
    && SendsAck(messages[w.ack], xdg) && messages[w.ack].args == messages[w.configure].args
    && NoneReceived(messages, xdg, w.configure, w.ack)
  }

  /** Then a buffer attached and committed, unconfigured and undetached meanwhile. */
  predicate Submitted(messages: seq<Message>, s: Submission, xdg: string, surface: string) {
    && Handshake(messages, s.window, xdg, surface)
    && s.window.ack < s.attach < s.commit < |messages|
    && SendsAttach(messages[s.attach], surface) && NonNull(messages[s.attach].args)
    && SendsCommit(messages[s.commit], surface)
    && NoneReceived(messages, xdg, s.window.configure, s.commit)
    && NoneDetached(messages, surface, s.attach, s.commit)
  }

  lemma HandshakeIs(messages: seq<Message>, w: Window, xdg: string, surface: string)
    ensures Handshake(messages, w, xdg, surface) <==>
            Acknowledged(Events(messages), w) && Events(messages)[w.get] == GetXdgSurface(xdg, surface)
  {
    if w.get < w.toplevel < w.configure < w.ack < |messages| {
      ClassifiesWindows(messages[w.get], xdg, surface);
      ClassifiesWindows(messages[w.toplevel], xdg, surface);
      ClassifiesConfigures(messages[w.configure], xdg);
      ClassifiesConfigures(messages[w.ack], xdg);
      BetweenMessages(messages, xdg, w.configure, w.ack);
    }
  }

  lemma SubmittedIs(messages: seq<Message>, s: Submission, xdg: string, surface: string)
    ensures Submitted(messages, s, xdg, surface) <==>
            Presented(Events(messages), s) && Events(messages)[s.window.get] == GetXdgSurface(xdg, surface)
  {
    HandshakeIs(messages, s.window, xdg, surface);
    if s.window.ack < s.attach < s.commit < |messages| {
      ClassifiesSurfaces(messages[s.attach], surface);
      ClassifiesSurfaces(messages[s.commit], surface);
      BetweenMessages(messages, xdg, s.window.configure, s.commit);
      BetweenMessages(messages, surface, s.attach, s.commit);
    }
  }

  /** A configured window is reported exactly when the traced messages hold such a handshake. */
  lemma TraceConfigured(messages: seq<Message>)
    ensures AnyConfigured(Events(messages), |messages|) <==>
            exists w, xdg, surface :: Handshake(messages, w, xdg, surface)
  {
    var events := Events(messages);
    ConfiguredMeans(events);
    if w :| Acknowledged(events, w) {
      HandshakeIs(messages, w, events[w.get].xdg, events[w.get].surface);
    }
    forall w, xdg, surface | Handshake(messages, w, xdg, surface) ensures Acknowledged(events, w) {
      HandshakeIs(messages, w, xdg, surface);
    }
  }

  /** A submitted buffer is reported exactly when the traced messages hold such a submission. */
  lemma TraceSubmitted(messages: seq<Message>)
    ensures AnySubmitted(Events(messages), |messages|) <==>
            exists s, xdg, surface :: Submitted(messages, s, xdg, surface)
  {
    var events := Events(messages);
    SubmittedMeans(events);
    if s :| Presented(events, s) {
      SubmittedIs(messages, s, events[s.window.get].xdg, events[s.window.get].surface);
    }
    forall s, xdg, surface | Submitted(messages, s, xdg, surface) ensures Presented(events, s) {
      SubmittedIs(messages, s, xdg, surface);
    }
  }
}
