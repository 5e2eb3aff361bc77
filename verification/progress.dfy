/** The two goroutines beside a create: the progress logger, whose first error line the
    waiter may return (handlers/create.go), and the republisher of transition messages
    (handlers/common.go). */
module Progress {
  import opened Options
  import opened Text

  const ERROR_MARK := "Error creating machine: "

  /** strings.Replace(s, sub, "", 1). */
  function WithoutFirst(s: string, sub: string): string {
    if sub <= s then s[|sub|..] else if s == "" then "" else [s[0]] + WithoutFirst(s[1..], sub)
  }

  // ----- the logger and the waiter

  datatype Line = Out(text: string) | Err(text: string)

  /** filterDockerMessage treats every line of stderr as an error, and of stdout those
      that carry the mark. */
  predicate IsError(l: Line) { l.Err? || Contains(l.text, ERROR_MARK) }

  function Report(handle: string -> string, l: Line): string { handle(WithoutFirst(l.text, ERROR_MARK)) }

  /** The reports of the error lines among the lines, in order. */
  function Reports(handle: string -> string, lines: seq<Line>): seq<string> {
    if lines == [] then []
    else
      var n := |lines| - 1;
      Reports(handle, lines[..n]) + if IsError(lines[n]) then [Report(handle, lines[n])] else []
  }

  datatype Phase = OnStdout | OnStderr | Finished
  datatype Result = ProcessError | Reported(text: string) | Succeeded
  datatype Waiter = Running | Choosing | Returned(result: Result)

  /** One create: what its process writes to its pipes, and the provider's HandleError. */
  datatype Create = Create(stdout: seq<string>, stderr: seq<string>, handle: string -> string)

  /** The shared state: how far the pipes have been read, what logProgress is doing and
      has read, errChan (one place), and CreateMachine at command.Wait and after. */
  datatype State = State(
    outRead: nat, errRead: nat, phase: Phase, sending: Option<string>, read: seq<Line>,
    channel: seq<string>, closed: bool, waiter: Waiter)

  const START := State(0, 0, OnStdout, None, [], [], false, Running)

  datatype Step =
    | ReadLine        // the scanner of the current pipe yields a line
    | EndOfPipe       // it ends; lines may be lost when Wait closes the pipe
    | Send            // errChan <- report, when there is room
    | Exit(ok: bool)  // command.Wait returns
    | Receive         // the select takes a report, or finds the channel closed
    | TimeOut         // the select takes the timer

  predicate Enabled(c: Create, s: State, step: Step) {
    match step
    case ReadLine =>
      && s.sending.None?
      && ((s.phase.OnStdout? && s.outRead < |c.stdout|) || (s.phase.OnStderr? && s.errRead < |c.stderr|))
    case EndOfPipe => s.sending.None? && !s.phase.Finished?
    case Send => s.sending.Some? && |s.channel| < 1
    case Exit(_) => s.waiter.Running?
    case Receive => s.waiter.Choosing? && (s.channel != [] || s.closed)
    case TimeOut => s.waiter.Choosing?
  }

  function Take(s: State, l: Line, handle: string -> string): State {
    s.(read := s.read + [l], sending := if IsError(l) then Some(Report(handle, l)) else None)
  }

  function NextLine(c: Create, s: State): Line
    requires Enabled(c, s, ReadLine)
  {
    if s.phase.OnStdout? then Out(c.stdout[s.outRead]) else Err(c.stderr[s.errRead])
  }

  function Next(c: Create, s: State, step: Step): State
    requires Enabled(c, s, step)
  {
    match step
    case ReadLine =>
      var t := Take(s, NextLine(c, s), c.handle);
      if s.phase.OnStdout? then t.(outRead := s.outRead + 1) else t.(errRead := s.errRead + 1)
    case EndOfPipe => if s.phase.OnStdout? then s.(phase := OnStderr) else s.(phase := Finished, closed := true)
    case Send => s.(channel := s.channel + [s.sending.value], sending := None)
    case Exit(ok) => s.(waiter := if ok then Returned(Succeeded) else Choosing)
    case Receive =>
      if s.channel == [] then s.(waiter := Returned(ProcessError))
      else s.(channel := s.channel[1..],
              waiter := Returned(if s.channel[0] != "" then Reported(s.channel[0]) else ProcessError))
    case TimeOut => s.(waiter := Returned(ProcessError))
  }

  /** An interleaving: every step enabled where it is taken. */
  ghost predicate Reaches(c: Create, steps: seq<Step>, s: State)
    decreases |steps|
  {
    if steps == [] then s == START
    else
      var n := |steps| - 1;
      exists before :: Reaches(c, steps[..n], before) && Enabled(c, before, steps[n]) && s == Next(c, before, steps[n])
  }

  function Outs(texts: seq<string>): seq<Line> { seq(|texts|, i requires 0 <= i < |texts| => Out(texts[i])) }
  function Errs(texts: seq<string>): seq<Line> { seq(|texts|, i requires 0 <= i < |texts| => Err(texts[i])) }

  /** The lines read are the beginning of stdout and then the beginning of stderr. */
  predicate ReadsInOrder(c: Create, s: State) {
    && s.outRead <= |c.stdout| && s.errRead <= |c.stderr|
    && s.read == Outs(c.stdout[..s.outRead]) + Errs(c.stderr[..s.errRead])
    && (s.phase.OnStdout? ==> s.errRead == 0)
  }

  function Pending(s: State): seq<string> { s.channel + if s.sending.Some? then [s.sending.value] else [] }

  /** Until the waiter has chosen, all reports so far are in the channel or about to be
      sent; a report it has returned was the first; the channel has one place. */
  predicate FirstFirst(c: Create, s: State) {
    var reports := Reports(c.handle, s.read);
    && ((s.waiter.Running? || s.waiter.Choosing?) ==> Pending(s) == reports)
    && (s.waiter.Returned? && s.waiter.result.Reported? ==> reports != [] && reports[0] == s.waiter.result.text)
    && |s.channel| <= 1
  }

  /** An error line, in so many words. */
  predicate SpeaksOfError(l: Line) { l.Err? || Contains(l.text, "Error creating machine: ") }

  lemma {:induction false} WithoutFirstExactly(s: string, a: string, sub: string, b: string)
    requires s == a + sub + b && forall i :: 0 <= i < |a| ==> !(sub <= s[i..])
    ensures WithoutFirst(s, sub) == a + b
  {
    if a == "" {
      assert s == sub + b && s[|sub|..] == b;
    } else {
      var t := s[1..];
      assert s[0..] == s && s[0] == a[0] && t == a[1..] + sub + b;
      forall i | 0 <= i < |a| - 1 ensures !(sub <= t[i..]) { assert t[i..] == s[i + 1..]; }
      WithoutFirstExactly(t, a[1..], sub, b);
      assert WithoutFirst(s, sub) == [s[0]] + WithoutFirst(t, sub);
      assert [a[0]] + (a[1..] + b) == a + b;
    }
  }

  lemma {:induction false} WithoutNone(s: string, sub: string)
    requires !Contains(s, sub)
    ensures WithoutFirst(s, sub) == s
  {
    assert s[0..] == s;
    if s != "" {
      forall i | 0 <= i <= |s| - 1 ensures !(sub <= s[1..][i..]) { assert s[1..][i..] == s[i + 1..]; }
      WithoutNone(s[1..], sub);
    }
  }

  /** What is reported of a line: the handler's view of it without the first mark, if it
      has one. */
  lemma ReportExactly(handle: string -> string, l: Line)
    ensures IsError(l) <==> SpeaksOfError(l)
    ensures !Contains(l.text, "Error creating machine: ") ==> Report(handle, l) == handle(l.text)
    ensures forall a, b: string ::
              && l.text == a + "Error creating machine: " + b
              && (forall i :: 0 <= i < |a| ==> !("Error creating machine: " <= l.text[i..]))
              ==> Report(handle, l) == handle(a + b)
  {
    if !Contains(l.text, "Error creating machine: ") {
      WithoutNone(l.text, "Error creating machine: ");
    }
    forall a, b: string |
      && l.text == a + "Error creating machine: " + b
      && (forall i :: 0 <= i < |a| ==> !("Error creating machine: " <= l.text[i..]))
      ensures Report(handle, l) == handle(a + b)
    {
      WithoutFirstExactly(l.text, a, "Error creating machine: ", b);
    }
  }

  /** The k-th line is the first error line. */
  predicate FirstErrorAt(lines: seq<Line>, k: nat) {
    k < |lines| && SpeaksOfError(lines[k]) && forall j :: 0 <= j < k ==> !SpeaksOfError(lines[j])
  }

  /** What the reports say of the lines: none without an error line, and the first is that
      of the first error line. */
  ghost predicate ReportsFirst(handle: string -> string, lines: seq<Line>) {
    var reports := Reports(handle, lines);
    && (reports == [] <==> forall j :: 0 <= j < |lines| ==> !SpeaksOfError(lines[j]))
    && forall k: nat :: FirstErrorAt(lines, k) ==> reports != [] && reports[0] == Report(handle, lines[k])
  }

  lemma ReportsSnoc(handle: string -> string, us: seq<Line>, l: Line)
    ensures Reports(handle, us + [l]) == Reports(handle, us) + if IsError(l) then [Report(handle, l)] else []
  {
    hide Report, IsError;
    assert (us + [l])[..|us|] == us;
  }

  lemma ReportsFirstNext(handle: string -> string, us: seq<Line>, l: Line)
    requires ReportsFirst(handle, us)
    ensures ReportsFirst(handle, us + [l])
  {
    hide Report, SpeaksOfError, IsError, Reports;
    var lines := us + [l];
    ReportExactly(handle, l);
    ReportsSnoc(handle, us, l);
    assert lines[|us|] == l;
    assert forall j :: 0 <= j < |us| ==> lines[j] == us[j];
    forall k: nat | FirstErrorAt(lines, k)
      ensures Reports(handle, lines) != [] && Reports(handle, lines)[0] == Report(handle, lines[k])
    {
      if k < |us| {
        assert FirstErrorAt(us, k);
      }
    }
  }

  lemma {:induction false} FirstReport(handle: string -> string, lines: seq<Line>)
    ensures ReportsFirst(handle, lines)
  {
    if lines != [] {
      hide ReportsFirst;
      FirstReport(handle, lines[..|lines| - 1]);
      ReportsFirstNext(handle, lines[..|lines| - 1], lines[|lines| - 1]);
      assert lines == lines[..|lines| - 1] + [lines[|lines| - 1]];
    }
  }

  lemma StepKeepsFirst(c: Create, s: State, step: Step)
    requires FirstFirst(c, s) && Enabled(c, s, step)
    ensures FirstFirst(c, Next(c, s, step))
  {
  }

  lemma StepKeepsOrder(c: Create, s: State, step: Step)
    requires ReadsInOrder(c, s) && Enabled(c, s, step)
    ensures ReadsInOrder(c, Next(c, s, step))
  {
  }

  /** In every interleaving of logger and waiter, a failed create returns the process
      error, or the report of the first error line among the lines read, which are a
      beginning of stdout followed by a beginning of stderr: never a later one. */
  lemma {:induction false} FirstErrorWins(c: Create, steps: seq<Step>, s: State)
    requires Reaches(c, steps, s)
    ensures ReadsInOrder(c, s) && FirstFirst(c, s)
    decreases |steps|
  {
    if steps != [] {
      var n := |steps| - 1;
      var before :| Reaches(c, steps[..n], before) && Enabled(c, before, steps[n]) && s == Next(c, before, steps[n]);
      FirstErrorWins(c, steps[..n], before);
      StepKeepsOrder(c, before, steps[n]);
      StepKeepsFirst(c, before, steps[n]);
    }
  }

  /** After the channel is closed nothing is on its way. */
  predicate ClosedLast(s: State) { s.closed ==> s.phase.Finished? && s.sending.None? }

  lemma {:induction false} ClosedIsLast(c: Create, steps: seq<Step>, s: State)
    requires Reaches(c, steps, s)
    ensures ClosedLast(s)
    decreases |steps|
  {
    if steps != [] {
      var n := |steps| - 1;
      var before :| Reaches(c, steps[..n], before) && Enabled(c, before, steps[n]) && s == Next(c, before, steps[n]);
      ClosedIsLast(c, steps[..n], before);
    }
  }

  /** What a create returns, in every interleaving: success when the process succeeds; the
      process error on a timeout, or when the lines read have no error line or an empty
      report of the first; and otherwise that report. */
  lemma ResultExactly(c: Create, steps: seq<Step>, s: State, step: Step)
    requires Reaches(c, steps, s) && Enabled(c, s, step)
    ensures step == Exit(true) ==> Next(c, s, step).waiter == Returned(Succeeded)
    ensures step == Exit(false) ==> Next(c, s, step).waiter == Choosing
    ensures step.TimeOut? ==> Next(c, s, step).waiter == Returned(ProcessError)
    ensures step.Receive? && (forall j :: 0 <= j < |s.read| ==> !SpeaksOfError(s.read[j])) ==>
              Next(c, s, step).waiter == Returned(ProcessError)
    ensures forall k: nat :: step.Receive? && FirstErrorAt(s.read, k) ==>
              Next(c, s, step).waiter ==
              var report := Report(c.handle, s.read[k]);
              Returned(if report == "" then ProcessError else Reported(report))
  {
    FirstErrorWins(c, steps, s);
    ClosedIsLast(c, steps, s);
    FirstReport(c.handle, s.read);
    hide Reports, Report, SpeaksOfError, Reaches;
  }

  /** Who can move: the waiter until it has returned, by its timer at least; the logger
      until it is finished or has a report that finds no room. */
  lemma StuckExactly(c: Create, s: State)
    ensures (forall step :: !Enabled(c, s, step)) <==>
            s.waiter.Returned? && (if s.sending.Some? then s.channel != [] else s.phase.Finished?)
  {
    assert Enabled(c, s, Exit(true)) <==> s.waiter.Running?;
    assert Enabled(c, s, TimeOut) <==> s.waiter.Choosing?;
    assert Enabled(c, s, Send) <==> s.sending.Some? && |s.channel| == 0;
    assert Enabled(c, s, EndOfPipe) <==> s.sending.None? && !s.phase.Finished?;
  }

  /** So the logger can be stuck for ever with its report: once create has succeeded nobody
      receives, and two lines on stderr are enough. */
  lemma LoggerIsStuck(first: string, second: string, handle: string -> string)
    ensures var c := Create([], [first, second], handle);
            exists steps, s :: Reaches(c, steps, s) && s.waiter == Returned(Succeeded) && !s.phase.Finished?
                               && forall step :: !Enabled(c, s, step)
  {
    var c := Create([], [first, second], handle);
    var steps, s := [], START;
    steps, s := Arrive(c, steps, s, EndOfPipe);
    steps, s := Arrive(c, steps, s, ReadLine);
    steps, s := Arrive(c, steps, s, Send);
    steps, s := Arrive(c, steps, s, ReadLine);
    steps, s := Arrive(c, steps, s, Exit(true));
    StuckExactly(c, s);
    hide Enabled;
  }

  lemma Arrive(c: Create, steps: seq<Step>, s: State, step: Step) returns (steps': seq<Step>, s': State)
    requires Reaches(c, steps, s) && Enabled(c, s, step)
    ensures s' == Next(c, s, step) && Reaches(c, steps', s')
  {
    steps', s' := steps + [step], Next(c, s, step);
    assert steps'[..|steps|] == steps && steps'[|steps|] == step;
  }

  // ----- the republisher

  /** What the select of the loop takes. */
  datatype Select = Message(text: string) | Closed | Tick

  /** republishTransitioningReply over any sequence of selections, up to the close. */
  method Republish(events: seq<Select>) returns (published: seq<string>)
    ensures published == Published(events, "")
  {
    published := [];
    var lastMsg := "";
    var i := 0;
    while i < |events|
      invariant 0 <= i <= |events|
      invariant Published(events, "") == published + Published(events[i..], lastMsg)
    {
      var e := events[i];
      assert events[i..][0] == e && events[i..][1..] == events[i + 1..];
      i := i + 1;
      if e.Closed? {
        return;
      }
      if e.Message? {
        lastMsg := e.text;
        Associative(published, [lastMsg], Published(events[i..], lastMsg));
        published := published + [lastMsg];
      } else if lastMsg != "" {
        Associative(published, [lastMsg], Published(events[i..], lastMsg));
        published := published + [lastMsg];
      } else {
        assert [] + Published(events[i..], lastMsg) == Published(events[i..], lastMsg);
      }
    }
  }

  function Published(events: seq<Select>, last: string): seq<string> {
    if events == [] then []
    else
      match events[0]
      case Closed => []
      case Message(m) => [m] + Published(events[1..], m)
      case Tick => (if last != "" then [last] else []) + Published(events[1..], last)
  }

  /** The messages received before the close. */
  function Received(events: seq<Select>): seq<string> {
    if events == [] || events[0].Closed? then []
    else (if events[0].Message? then [events[0].text] else []) + Received(events[1..])
  }

  predicate StartsWithCopies(s: seq<string>, n: nat, m: string) {
    n <= |s| && forall i :: 0 <= i < n ==> s[i] == m
  }

  /** Each message once or more, in order; the empty message exactly once. */
  predicate Stutters(received: seq<string>, published: seq<string>) {
    if received == [] then published == []
    else exists n: nat :: 1 <= n <= |published| && StartsWithCopies(published, n, received[0])
                          && (received[0] == "" ==> n == 1) && Stutters(received[1..], published[n..])
  }

  lemma OneMore(m: string, k: nat, received: seq<string>, published: seq<string>)
    requires StartsWithCopies(published, k, m) && (m == "" ==> k == 0) && Stutters(received, published[k..])
    ensures Stutters([m] + received, [m] + published)
  {
    var r, p := [m] + received, [m] + published;
    assert r[1..] == received && p[k + 1..] == published[k..];
    assert StartsWithCopies(p, k + 1, r[0]);
  }

  /** Republishing with a last message: some copies of it, then the stuttered rest. */
  lemma {:induction false} RepublishFrom(events: seq<Select>, last: string) returns (n: nat)
    ensures StartsWithCopies(Published(events, last), n, last) && (last == "" ==> n == 0)
    ensures Stutters(Received(events), Published(events, last)[n..])
  {
    n := 0;
    var published := Published(events, last);
    assert published[0..] == published;
    if events != [] && !events[0].Closed? {
      var rest := events[1..];
      if events[0].Message? {
        var k := RepublishFrom(rest, events[0].text);
        OneMore(events[0].text, k, Received(rest), Published(rest, events[0].text));
      } else {
        n := RepublishFrom(rest, last);
        assert Received(events) == Received(rest);
        if last != "" {
          assert published[n + 1..] == Published(rest, last)[n..];
          n := n + 1;
        } else {
          assert published == Published(rest, last);
        }
      }
    }
  }

  /** Over every interleaving of messages, ticks and close, what is published is what was
      received, with repetitions only. */
  lemma RepublishingStutters(events: seq<Select>)
    ensures Stutters(Received(events), Published(events, ""))
  {
    var n := RepublishFrom(events, "");
    assert Published(events, "")[0..] == Published(events, "");
  }

  predicate Open(events: seq<Select>) { forall e :: e in events ==> !e.Closed? }

  /** The message received last, if any. */
  function LastMessage(events: seq<Select>, last: string): string {
    if Received(events) == [] then last else Received(events)[|Received(events)| - 1]
  }

  lemma LastMessageNext(events: seq<Select>, last: string)
    requires events != [] && !events[0].Closed?
    ensures LastMessage(events, last) ==
            LastMessage(events[1..], if events[0].Message? then events[0].text else last)
  {
    var rest := Received(events[1..]);
    if events[0].Message? {
      assert Received(events) == [events[0].text] + rest;
    } else {
      assert Received(events) == [] + rest == rest;
    }
    hide Received;
  }

  lemma {:induction false} PublishedNext(events: seq<Select>, e: Select, last: string)
    requires Open(events) && !e.Closed?
    ensures Published(events + [e], last) == Published(events, last) +
            (match e
             case Message(m) => [m]
             case _ => if LastMessage(events, last) != "" then [LastMessage(events, last)] else [])
  {
    var all := events + [e];
    if events == [] {
      assert all == [e] && all[1..] == [];
    } else {
      assert events[0] in events && all[0] == events[0] && all[1..] == events[1..] + [e];
      LastMessageNext(events, last);
      hide LastMessage;
      PublishedNext(events[1..], e, if events[0].Message? then events[0].text else last);
    }
  }

  /** A message is published when it arrives, and the last one again on every tick. */
  lemma TicksRepublish(events: seq<Select>, m: string)
    requires Open(events)
    ensures Published(events + [Message(m)], "") == Published(events, "") + [m]
    ensures Published(events + [Tick], "") ==
            if Received(events) != [] && Received(events)[|Received(events)| - 1] != ""
            then Published(events, "") + [Received(events)[|Received(events)| - 1]]
            else Published(events, "")
  {
    PublishedNext(events, Message(m), "");
    PublishedNext(events, Tick, "");
  }

  /** Nothing is published once the close has been seen. */
  lemma {:induction false} NothingAfterClose(before: seq<Select>, after: seq<Select>, last: string)
    ensures Published(before + [Closed] + after, last) == Published(before, last)
  {
    var all := before + [Closed] + after;
    if before != [] {
      assert all[0] == before[0] && all[1..] == before[1..] + [Closed] + after;
      NothingAfterClose(before[1..], after, if before[0].Message? then before[0].text else last);
    }
  }
}
