/** The shared readiness ping (backend/api/readiness.go), as a transition
    system: callers, the goroutine of each ping, and the shutdown flag. */
module Readiness {
  import opened Options

  /** Where a ping's goroutine is; its answer is written before the flight is
      cleared under the mutex, and the callers are released last. */
  datatype Ping = Spawned | Pinging | Answered(ok: bool) | Cleared(ok: bool) | Released(ok: bool)

  /** A caller past the first look at the flag, one waiting on a ping, and one
      told an answer, of the ping it waited on if there was one. */
  datatype Caller = Admitted | Waiting(ping: nat) | Told(ready: bool, of: Option<nat>)

  datatype State = State(shuttingDown: bool, flight: Option<nat>, pings: seq<Ping>, callers: map<int, Caller>)

  datatype Step =
    | Arrive(c: int) | Join(c: int) | Return(c: int)
    | Start(p: nat) | Answer(p: nat, ok: bool) | Clear(p: nat) | Release(p: nat)
    | Shutdown

  predicate Enabled(s: State, step: Step) {
    match step
    case Arrive(c) => c !in s.callers
    case Join(c) => c in s.callers && s.callers[c].Admitted?
    case Return(c) =>
      && c in s.callers && s.callers[c].Waiting?
      && s.callers[c].ping < |s.pings| && s.pings[s.callers[c].ping].Released?
    case Start(p) => p < |s.pings| && s.pings[p].Spawned?
    case Answer(p, _) => p < |s.pings| && s.pings[p].Pinging?
    case Clear(p) => p < |s.pings| && s.pings[p].Answered?
    case Release(p) => p < |s.pings| && s.pings[p].Cleared?
    case Shutdown => true
  }

  function Apply(s: State, step: Step): State
    requires Enabled(s, step)
  {
    match step
    case Arrive(c) => s.(callers := s.callers[c := if s.shuttingDown then Told(false, None) else Admitted])
    case Join(c) =>
      if s.flight.None? then
        var p := |s.pings|;
        s.(flight := Some(p), pings := s.pings + [Spawned], callers := s.callers[c := Waiting(p)])
      else s.(callers := s.callers[c := Waiting(s.flight.value)])
    case Return(c) =>
      var p := s.callers[c].ping;
      s.(callers := s.callers[c := Told(s.pings[p].ok && !s.shuttingDown, Some(p))])
    case Start(p) => s.(pings := s.pings[p := Pinging])
    case Answer(p, ok) => s.(pings := s.pings[p := Answered(ok)])
    case Clear(p) => s.(pings := s.pings[p := Cleared(s.pings[p].ok)], flight := None)
    case Release(p) => s.(pings := s.pings[p := Released(s.pings[p].ok)])
    case Shutdown => s.(shuttingDown := true)
  }

  ghost predicate Runs(s: State, steps: seq<Step>, end: State)
    decreases |steps|
  {
    if steps == [] then end == s
    else Enabled(s, steps[0]) && Runs(Apply(s, steps[0]), steps[1..], end)
  }

  predicate InFlight(p: Ping) { p.Spawned? || p.Pinging? || p.Answered? }

  /** The pings not yet cleared are the one flight callers join, so never two. */
  ghost predicate SingleFlight(s: State) {
    && (s.flight.Some? ==> s.flight.value < |s.pings|)
    && forall p | 0 <= p < |s.pings| :: InFlight(s.pings[p]) <==> s.flight == Some(p)
  }

  /** Nobody is told an answer but that of the ping they waited on, once it is
      final; a "no" against a good ping is a shutdown's. */
  ghost predicate ToldTruly(s: State, c: Caller) {
    && (c.Waiting? ==> c.ping < |s.pings|)
    && (c.Told? && c.of.None? ==> !c.ready && s.shuttingDown)
    && (c.Told? && c.of.Some? ==>
          && c.of.value < |s.pings| && s.pings[c.of.value].Released?
          && (c.ready ==> s.pings[c.of.value].ok)
          && (!c.ready ==> !s.pings[c.of.value].ok || s.shuttingDown))
  }

  ghost predicate Sound(s: State) {
    SingleFlight(s) && forall c | c in s.callers :: ToldTruly(s, s.callers[c])
  }

  lemma StepIsSound(s: State, step: Step)
    requires Sound(s) && Enabled(s, step)
    ensures Sound(Apply(s, step))
  {
    var t := Apply(s, step);
    forall c | c in t.callers ensures ToldTruly(t, t.callers[c]) {
      assert c in s.callers ==> ToldTruly(s, s.callers[c]);
    }
  }

  /** Over every run, at most one ping is in flight and every answer is its ping's. */
  lemma {:induction false} EveryRunIsSound(s: State, steps: seq<Step>, end: State)
    requires Sound(s) && Runs(s, steps, end)
    ensures Sound(end)
    ensures forall p, q | 0 <= p < |end.pings| && 0 <= q < |end.pings| ::
      InFlight(end.pings[p]) && InFlight(end.pings[q]) ==> p == q
    ensures !end.shuttingDown ==>
      forall b, c | b in end.callers && c in end.callers && end.callers[b].Told? && end.callers[c].Told?
        && end.callers[b].of == end.callers[c].of :: end.callers[b] == end.callers[c]
    decreases |steps|
  {
    if steps != [] {
      StepIsSound(s, steps[0]);
      EveryRunIsSound(Apply(s, steps[0]), steps[1..], end);
    } else {
      forall b, c | b in end.callers && c in end.callers && end.callers[b].Told? && end.callers[c].Told?
        && end.callers[b].of == end.callers[c].of && !end.shuttingDown
        ensures end.callers[b] == end.callers[c]
      {
        assert ToldTruly(end, end.callers[b]) && ToldTruly(end, end.callers[c]);
      }
    }
  }

  /** Once the process shuts down, nobody not yet answered is told it is ready. */
  lemma {:induction false} ShutdownRefuses(s: State, steps: seq<Step>, end: State, c: int)
    requires s.shuttingDown && Runs(s, steps, end)
    requires c in s.callers ==> !s.callers[c].Told? || !s.callers[c].ready
    ensures end.shuttingDown && (c in end.callers && end.callers[c].Told? ==> !end.callers[c].ready)
    decreases |steps|
  {
    if steps != [] {
      ShutdownRefuses(Apply(s, steps[0]), steps[1..], end, c);
    }
  }

  /** Whoever comes once it shuts down is turned away at once, and with nobody
      let in before still to join, no further ping is started. */
  lemma {:induction false} ShutdownStartsNothing(s: State, steps: seq<Step>, end: State)
    requires s.shuttingDown && Runs(s, steps, end)
    requires forall c | c in s.callers :: !s.callers[c].Admitted?
    ensures |end.pings| == |s.pings| && end.shuttingDown
    ensures forall c | c in end.callers :: !end.callers[c].Admitted?
    ensures forall c | c in end.callers && c !in s.callers :: end.callers[c] == Told(false, None)
    decreases |steps|
  {
    if steps != [] {
      var t := Apply(s, steps[0]);
      ShutdownStartsNothing(t, steps[1..], end);
      forall c | c in end.callers && c !in s.callers ensures end.callers[c] == Told(false, None) {
        if c in t.callers {
          ToldStands(t, steps[1..], end, c);
        }
      }
    }
  }

  /** What a caller was told stays told. */
  lemma {:induction false} ToldStands(s: State, steps: seq<Step>, end: State, c: int)
    requires Runs(s, steps, end) && c in s.callers && s.callers[c].Told?
    ensures c in end.callers && end.callers[c] == s.callers[c]
    decreases |steps|
  {
    if steps != [] {
      ToldStands(Apply(s, steps[0]), steps[1..], end, c);
    }
  }

  // ---- every caller is answered ----

  /** How many steps of its ping and its own a waiting caller still needs. */
  function Ahead(s: State, c: int): nat
    requires c in s.callers && s.callers[c].Waiting? && s.callers[c].ping < |s.pings|
  {
    match s.pings[s.callers[c].ping]
    case Spawned => 5
    case Pinging => 4
    case Answered(_) => 3
    case Cleared(_) => 2
    case Released(_) => 1
  }

  /** The step a waiting caller waits for. */
  function Awaited(s: State, c: int, ok: bool): Step
    requires c in s.callers && s.callers[c].Waiting? && s.callers[c].ping < |s.pings|
  {
    var p := s.callers[c].ping;
    match s.pings[p]
    case Spawned => Start(p)
    case Pinging => Answer(p, ok)
    case Answered(_) => Clear(p)
    case Cleared(_) => Release(p)
    case Released(_) => Return(c)
  }

  /** A waiting caller is never stuck: the step it waits for can always be
      taken and brings it nearer its answer. */
  lemma AwaitedBringsNearer(s: State, c: int, ok: bool)
    requires Sound(s) && c in s.callers && s.callers[c].Waiting?
    ensures s.callers[c].ping < |s.pings| && Enabled(s, Awaited(s, c, ok))
    ensures var t := Apply(s, Awaited(s, c, ok));
      && c in t.callers
      && (t.callers[c].Told? ||
            (t.callers[c].Waiting? && t.callers[c].ping < |t.pings| && Ahead(t, c) == Ahead(s, c) - 1))
  {
    assert ToldTruly(s, s.callers[c]);
  }

  /** And no step, by anybody, takes it further away. */
  lemma NothingSetsBack(s: State, c: int, step: Step)
    requires Sound(s) && c in s.callers && s.callers[c].Waiting? && Enabled(s, step)
    ensures var t := Apply(s, step);
      && s.callers[c].ping < |s.pings| <= |t.pings| && c in t.callers
      && (t.callers[c].Told? || (t.callers[c] == s.callers[c] && Ahead(t, c) <= Ahead(s, c)))
  {
    assert ToldTruly(s, s.callers[c]);
  }

  /** Taking the awaited step each time, a caller is answered within five. */
  lemma {:induction false} AnsweredInFive(s: State, c: int, ok: bool) returns (steps: seq<Step>, end: State)
    requires Sound(s) && c in s.callers && s.callers[c].Waiting?
    ensures Runs(s, steps, end) && c in end.callers && end.callers[c].Told?
    ensures s.callers[c].ping < |s.pings| && |steps| == Ahead(s, c) <= 5
    decreases assert ToldTruly(s, s.callers[c]); Ahead(s, c)
  {
    assert ToldTruly(s, s.callers[c]);
    var step := Awaited(s, c, ok);
    AwaitedBringsNearer(s, c, ok);
    StepIsSound(s, step);
    var t := Apply(s, step);
    if t.callers[c].Told? {
      steps, end := [step], t;
      assert Runs(t, [], t) && steps[1..] == [];
    } else {
      var rest;
      rest, end := AnsweredInFive(t, c, ok);
      steps := [step] + rest;
      assert steps[1..] == rest;
    }
  }

  // ---- how fresh an answer is ----

  predicate Unanswered(p: Ping) { p.Spawned? || p.Pinging? }

  /** The ping is answered during the run. */
  predicate AnsweredIn(steps: seq<Step>, p: nat) {
    exists step | step in steps :: step.Answer? && step.p == p
  }

  /** A ping's answer comes within a run exactly when the ping had none before
      the run and has one after it. */
  lemma {:induction false} AnsweredOnce(s: State, steps: seq<Step>, end: State, p: nat)
    requires p < |s.pings| && Runs(s, steps, end)
    ensures p < |end.pings| && (Unanswered(end.pings[p]) ==> Unanswered(s.pings[p]))
    ensures AnsweredIn(steps, p) <==> Unanswered(s.pings[p]) && !Unanswered(end.pings[p])
    decreases |steps|
  {
    if steps != [] {
      AnsweredOnce(Apply(s, steps[0]), steps[1..], end, p);
      assert forall step :: step in steps <==> step == steps[0] || step in steps[1..];
      assert AnsweredIn(steps, p) <==> (steps[0].Answer? && steps[0].p == p) || AnsweredIn(steps[1..], p);
    }
  }

  predicate Concerned(s: State, c: int, p: nat) {
    c in s.callers && (s.callers[c] == Waiting(p) || (s.callers[c].Told? && s.callers[c].of == Some(p)))
  }

  lemma {:induction false} ToldOfItsPing(s: State, steps: seq<Step>, end: State, c: int)
    requires Runs(s, steps, end) && c in s.callers
    ensures forall p: nat | Concerned(s, c, p) :: Concerned(end, c, p)
    decreases |steps|
  {
    if steps != [] {
      ToldOfItsPing(Apply(s, steps[0]), steps[1..], end, c);
      assert forall p: nat | Concerned(s, c, p) :: Concerned(Apply(s, steps[0]), c, p);
    }
  }

  /** A caller is told an answer given after it joined exactly when it started
      the ping itself or found it still unanswered. */
  lemma FreshExactly(s: State, c: int, steps: seq<Step>, end: State)
    requires Sound(s) && Enabled(s, Join(c)) && Runs(Apply(s, Join(c)), steps, end)
    requires c in end.callers && end.callers[c].Told?
    ensures end.callers[c].of.Some?
    ensures AnsweredIn(steps, end.callers[c].of.value)
       <==> s.flight.None? || Unanswered(s.pings[s.flight.value])
  {
    var joined := Apply(s, Join(c));
    ToldOfItsPing(joined, steps, end, c);
    assert Concerned(joined, c, joined.callers[c].ping);
    StepIsSound(s, Join(c));
    EveryRunIsSound(joined, steps, end);
    assert ToldTruly(end, end.callers[c]);
    AnsweredOnce(joined, steps, end, end.callers[c].of.value);
  }

  const FIRST := State(false, None, [], map[])
  const PING_ANSWERED := State(false, Some(0), [Answered(true)], map[1 := Waiting(0)])

  lemma FirstCallersPing()
    ensures Runs(FIRST, [Arrive(1), Join(1), Start(0), Answer(0, true)], PING_ANSWERED)
  {
    var c := Apply(Apply(Apply(FIRST, Arrive(1)), Join(1)), Start(0));
    assert c.pings == [Pinging] && Apply(c, Answer(0, true)) == PING_ANSWERED;
    RunsFour(FIRST, Arrive(1), Join(1), Start(0), Answer(0, true));
  }

  /** A joined ping may have answered before the call: "ready" can be told to a
      caller who arrived after the database was last asked. */
  lemma AnswerMayPredateTheCall() returns (end: State)
    ensures Runs(FIRST, [Arrive(1), Join(1), Start(0), Answer(0, true)], PING_ANSWERED)
    ensures Runs(PING_ANSWERED, [Arrive(2), Join(2), Clear(0), Release(0), Return(2)], end)
    ensures 2 in end.callers && end.callers[2] == Told(true, Some(0))
  {
    FirstCallersPing();
    var s := PING_ANSWERED;
    var steps := [Arrive(2), Join(2), Clear(0), Release(0)];
    var d := Apply(Apply(s, Arrive(2)), Join(2));
    var e := Apply(Apply(d, Clear(0)), Release(0));
    assert e.pings == [Released(true)] && e.callers[2] == Waiting(0);
    RunsFour(s, Arrive(2), Join(2), Clear(0), Release(0));
    RunsThen(s, steps, e, Return(2));
    assert steps + [Return(2)] == [Arrive(2), Join(2), Clear(0), Release(0), Return(2)];
    end := Apply(e, Return(2));
  }

  lemma RunsFour(s: State, a: Step, b: Step, c: Step, d: Step)
    requires Enabled(s, a) && Enabled(Apply(s, a), b) && Enabled(Apply(Apply(s, a), b), c)
    requires Enabled(Apply(Apply(Apply(s, a), b), c), d)
    ensures Runs(s, [a, b, c, d], Apply(Apply(Apply(Apply(s, a), b), c), d))
  {
    var t := Apply(Apply(Apply(s, a), b), c);
    assert Runs(t, [d], Apply(t, d)) by { assert [d][1..] == []; }
    assert [c, d][1..] == [d] && [b, c, d][1..] == [c, d] && [a, b, c, d][1..] == [b, c, d];
    assert Runs(Apply(Apply(s, a), b), [c, d], Apply(t, d));
    assert Runs(Apply(s, a), [b, c, d], Apply(t, d));
  }

  lemma {:induction false} RunsThen(s: State, steps: seq<Step>, t: State, step: Step)
    requires Runs(s, steps, t) && Enabled(t, step)
    ensures Runs(s, steps + [step], Apply(t, step))
    decreases |steps|
  {
    if steps == [] {
      assert [step][1..] == [];
    } else {
      RunsThen(Apply(s, steps[0]), steps[1..], t, step);
      assert (steps + [step])[1..] == steps[1..] + [step];
    }
  }
}
