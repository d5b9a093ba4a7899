/** The commit order of one booking against its request budget: ConfirmBooking
    (backend/engine/booking.go) and the budget's middleware
    (backend/internal/budget/budget.go), as a transition system. */
module BookingCommit {
  import opened Options

  /** The answers a client can get, by status. */
  datatype Answer = Saved201 | Busy409 | Error500 | Expired503

  /** A host read's own end, or the budget cutting it or not starting it. */
  datatype Read = Readable | Unreadable | Cut

  /** Where the handler is; a handler that has decided still has to write. */
  datatype Phase =
    | Starting | Reading(seen: map<int, Read>) | Checked | Connected | Committed
    | Completing | Deciding(answer: Answer) | Finished

  /** expired, committed and wrote are the budget's shared flags; ended tells
      that the handler's context is done; response is what the client got. */
  datatype State = State(
    phase: Phase, expired: bool, committed: bool, wrote: bool, ended: bool,
    saved: bool, reported: bool, response: Option<Answer>)

  datatype Step =
    | ListHosts(ok: bool)
    | ReadHost(host: int, read: Read)
    | FinishReads
    | Connect(ok: bool)
    | Commit
    | Insert(kept: bool, reported: bool)
    | Complete(finished: bool)
    | Write
    | Budget(gone: bool)
    | End

  predicate Enabled(hosts: set<int>, s: State, step: Step) {
    match step
    case ListHosts(_) => s.phase.Starting?
    case ReadHost(h, read) =>
      s.phase.Reading? && h in hosts && h !in s.phase.seen
    // peritem.Run stops early only once an item was cut or the context ended
    case FinishReads =>
      && s.phase.Reading?
      && (s.phase.seen.Keys == hosts || s.ended || exists h | h in s.phase.seen :: s.phase.seen[h].Cut?)
    case Connect(_) => s.phase.Checked?
    case Commit => s.phase.Connected?
    // a reported insert was kept; a failed one may have been
    case Insert(kept, reported) => s.phase.Committed? && (reported ==> kept)
    // the completion unit finishes, or the context is done first
    case Complete(finished) => s.phase.Completing? && (finished || s.ended)
    case Write => s.phase.Deciding?
    case Budget(_) => !s.expired && !s.phase.Finished?
    case End => true
  }

  function AfterReads(hosts: set<int>, seen: map<int, Read>): Phase {
    if seen.Keys != hosts || exists h | h in seen :: seen[h].Cut? then Deciding(Expired503)
    else if exists h | h in seen :: seen[h].Unreadable? then Deciding(Busy409)
    else Checked
  }

  function Apply(hosts: set<int>, s: State, step: Step): State
    requires Enabled(hosts, s, step)
  {
    match step
    case ListHosts(ok) => s.(phase := if ok then Reading(map[]) else Deciding(Error500))
    case ReadHost(h, read) => s.(phase := Reading(s.phase.seen[h := read]))
    case FinishReads => s.(phase := AfterReads(hosts, s.phase.seen))
    case Connect(ok) =>
      s.(phase := if ok then Connected else Deciding(if s.ended then Expired503 else Error500))
    case Commit =>
      if s.expired then s.(phase := Deciding(Expired503))
      else s.(phase := Committed, committed := true)
    case Insert(kept, reported) =>
      s.(phase := if reported then Completing else Deciding(Error500), saved := kept, reported := reported)
    case Complete(_) => s.(phase := Deciding(Saved201))
    // the budget's writer drops what comes after its own answer
    case Write =>
      if s.expired then s.(phase := Finished)
      else s.(phase := Finished, wrote := true, response := Some(s.phase.answer))
    // the timer fires or the context ends: a handler that has written or
    // committed is waited for, any other is answered for
    case Budget(gone) =>
      if s.wrote then s
      else if s.committed then s.(ended := true)
      else s.(expired := true, ended := true, response := if gone then None else Some(Expired503))
    case End => s.(ended := true)
  }

  ghost predicate Runs(hosts: set<int>, s: State, steps: seq<Step>, end: State)
    decreases |steps|
  {
    if steps == [] then end == s
    else Enabled(hosts, s, steps[0]) && Runs(hosts, Apply(hosts, s, steps[0]), steps[1..], end)
  }

  const START := State(Starting, false, false, false, false, false, false, None)

  predicate PastCommit(p: Phase) { p.Committed? || p.Completing? }

  /** Who may answer what, at every moment. */
  ghost predicate Sound(s: State) {
    && !(s.expired && s.committed) && !(s.expired && s.wrote)
    && (s.saved || s.reported || PastCommit(s.phase) ==> s.committed)
    && (s.reported ==> s.saved)
    && (s.phase.Committed? ==> !s.saved) && (s.phase.Completing? ==> s.reported)
    && (s.committed ==> PastCommit(s.phase) || s.phase.Deciding? || s.phase.Finished?)
    && (s.phase.Deciding? ==> !s.wrote && Fitting(s, s.phase.answer))
    && (s.wrote ==> s.phase.Finished? && s.response.Some? && Fitting(s, s.response.value))
    && (!s.wrote ==> s.response == None || (s.expired && s.response == Some(Expired503)))
    && (s.phase.Finished? ==> s.wrote || s.expired)
  }

  /** An answer decided by the handler fits what was stored. */
  predicate Fitting(s: State, answer: Answer) {
    && (answer.Saved201? <==> s.reported)
    && (s.committed ==> answer.Saved201? || answer.Error500?)
  }

  lemma StepIsSound(hosts: set<int>, s: State, step: Step)
    requires Sound(s) && Enabled(hosts, s, step)
    ensures Sound(Apply(hosts, s, step))
  {
  }

  lemma {:induction false} RunIsSound(hosts: set<int>, s: State, steps: seq<Step>, end: State)
    requires Sound(s) && Runs(hosts, s, steps, end)
    ensures Sound(end)
    decreases |steps|
  {
    if steps != [] {
      StepIsSound(hosts, s, steps[0]);
      RunIsSound(hosts, Apply(hosts, s, steps[0]), steps[1..], end);
    }
  }

  /** However the budget and the handler interleave: the budget's 503 means
      nothing is stored, a 201 that the booking is, and a refused or unreadable
      slot stores nothing; a finished handler that got to the insert is the one
      that answers, by the insert's own result. */
  lemma AnswerTellsTheStore(hosts: set<int>, steps: seq<Step>, end: State)
    requires Runs(hosts, START, steps, end)
    ensures end.response == Some(Expired503) || end.response == Some(Busy409) ==> !end.saved
    ensures end.response == Some(Saved201) ==> end.saved
    ensures end.phase.Finished? && end.committed ==>
      end.response == Some(if end.reported then Saved201 else Error500)
  {
    RunIsSound(hosts, START, steps, end);
  }

  /** What the client was told stays told, and a request the budget answered
      for, or abandoned, never stores anything afterwards. */
  lemma {:induction false} AnswerStands(hosts: set<int>, s: State, steps: seq<Step>, end: State)
    requires Sound(s) && Runs(hosts, s, steps, end) && (s.response.Some? || s.expired)
    ensures end.response == s.response && end.saved == s.saved
    decreases |steps|
  {
    if steps != [] {
      StepIsSound(hosts, s, steps[0]);
      AnswerStands(hosts, Apply(hosts, s, steps[0]), steps[1..], end);
    }
  }

  /** Every host read so far is kept in the reads, and reading is the past of
      every later phase but a decision. */
  ghost predicate AllRead(hosts: set<int>, log: map<int, Read>, s: State) {
    && (s.phase.Starting? ==> log == map[]) && (s.phase.Reading? ==> s.phase.seen == log)
    && (s.phase.Checked? || s.phase.Connected? || s.committed ==>
          log.Keys == hosts && forall h | h in hosts :: log[h].Readable?)
  }

  /** The answers of the host reads a run makes. */
  function Log(log: map<int, Read>, steps: seq<Step>): map<int, Read>
    decreases |steps|
  {
    if steps == [] then log
    else Log(if steps[0].ReadHost? then log[steps[0].host := steps[0].read] else log, steps[1..])
  }

  lemma {:induction false} ReadsCome(hosts: set<int>, log: map<int, Read>, s: State, steps: seq<Step>, end: State)
    requires Sound(s) && AllRead(hosts, log, s) && Runs(hosts, s, steps, end)
    ensures AllRead(hosts, Log(log, steps), end) && Sound(end)
    decreases |steps|
  {
    if steps != [] {
      var step := steps[0];
      StepIsSound(hosts, s, step);
      var next := if step.ReadHost? then log[step.host := step.read] else log;
      if step.FinishReads? {
        assert s.phase.seen == log;
      }
      ReadsCome(hosts, next, Apply(hosts, s, step), steps[1..], end);
    }
  }

  /** Nothing is stored before every accepted host's calendar has been read. */
  lemma StoredAfterAllReads(hosts: set<int>, steps: seq<Step>, end: State)
    requires Runs(hosts, START, steps, end) && end.saved
    ensures var log := Log(map[], steps);
      log.Keys == hosts && forall h | h in hosts :: log[h].Readable?
  {
    ReadsCome(hosts, map[], START, steps, end);
  }

  ghost predicate SomeCut(log: map<int, Read>) { exists h | h in log :: log[h].Cut? }

  ghost predicate SomeUnreadable(log: map<int, Read>) { exists h | h in log :: log[h].Unreadable? }

  /** What the handler answers, if it has decided. */
  function Told(s: State): Option<Answer> {
    if s.phase.Deciding? then Some(s.phase.answer) else if s.wrote then s.response else None
  }

  /** The reads that came before decide the handler's answer. */
  ghost predicate ReadsTell(hosts: set<int>, log: map<int, Read>, s: State) {
    && AllRead(hosts, log, s)
    && (Told(s) == Some(Busy409) <==>
          Told(s).Some? && log.Keys == hosts && !SomeCut(log) && SomeUnreadable(log))
    && (Told(s).Some? && log != map[] && (log.Keys != hosts || SomeCut(log)) ==> Told(s) == Some(Expired503))
  }

  lemma StepTells(hosts: set<int>, log: map<int, Read>, s: State, step: Step)
    requires Sound(s) && ReadsTell(hosts, log, s) && Enabled(hosts, s, step)
    ensures ReadsTell(hosts, if step.ReadHost? then log[step.host := step.read] else log, Apply(hosts, s, step))
  {
    if step.FinishReads? {
      assert s.phase.seen == log;
    }
  }

  lemma {:induction false} ReadsAreTold(hosts: set<int>, log: map<int, Read>, s: State, steps: seq<Step>, end: State)
    requires Sound(s) && ReadsTell(hosts, log, s) && Runs(hosts, s, steps, end)
    ensures ReadsTell(hosts, Log(log, steps), end) && Sound(end)
    decreases |steps|
  {
    if steps != [] {
      var step := steps[0];
      StepIsSound(hosts, s, step);
      StepTells(hosts, log, s, step);
      var next := if step.ReadHost? then log[step.host := step.read] else log;
      ReadsAreTold(hosts, next, Apply(hosts, s, step), steps[1..], end);
    }
  }

  /** A handler left to finish answers 409 exactly when every host was read, none
      was cut and some could not be read; once any host was read, one that was
      cut or not read makes it the 503. */
  lemma UnreadableIsBusy(hosts: set<int>, steps: seq<Step>, end: State)
    requires Runs(hosts, START, steps, end) && end.phase.Finished? && !end.expired
    ensures var log := Log(map[], steps);
      && (end.response == Some(Busy409) <==>
            && log.Keys == hosts && (forall h | h in log :: !log[h].Cut?)
            && exists h | h in log :: log[h].Unreadable?)
      && (log != map[] && (log.Keys != hosts || exists h | h in log :: log[h].Cut?) ==>
            end.response == Some(Expired503))
  {
    ReadsAreTold(hosts, map[], START, steps, end);
  }

  /** The steps that end in the 500: the hosts cannot be listed, no connection is
      to be had, or the insert fails. */
  predicate Errs(step: Step) {
    step == ListHosts(false) || step == Connect(false) || (step.Insert? && !step.reported)
  }

  lemma {:induction false} ErrorsTold(hosts: set<int>, s: State, failed: bool, steps: seq<Step>, end: State)
    requires Sound(s) && !s.expired && !s.ended && Runs(hosts, s, steps, end)
    requires failed <==> Told(s) == Some(Error500)
    requires forall step | step in steps :: !step.End? && !step.Budget?
    ensures Sound(end) && !end.expired
    ensures Told(end) == Some(Error500) <==> failed || exists step | step in steps :: Errs(step)
    decreases |steps|
  {
    if steps != [] {
      var step := steps[0];
      assert step in steps && forall x :: x in steps <==> x == step || x in steps[1..];
      StepIsSound(hosts, s, step);
      ErrorsTold(hosts, Apply(hosts, s, step), failed || Errs(step), steps[1..], end);
    }
  }

  /** With no budget and no ended request in the way, a finished handler answers
      500 exactly when one of those happened. */
  lemma ErrorExactly(hosts: set<int>, steps: seq<Step>, end: State)
    requires Runs(hosts, START, steps, end) && end.phase.Finished?
    requires forall step | step in steps :: !step.End? && !step.Budget?
    ensures end.response == Some(Error500) <==>
      exists step | step in steps ::
        step == ListHosts(false) || step == Connect(false) || (step.Insert? && !step.reported)
  {
    ErrorsTold(hosts, START, false, steps, end);
  }

  lemma RunsFrom(hosts: set<int>, s: State, step: Step, rest: seq<Step>, end: State) returns (steps: seq<Step>)
    requires Enabled(hosts, s, step) && Runs(hosts, Apply(hosts, s, step), rest, end)
    ensures Runs(hosts, s, steps, end)
  {
    steps := [step] + rest;
    assert steps[1..] == rest;
  }

  function ReadingWith(seen: map<int, Read>): State { START.(phase := Reading(seen)) }

  lemma ReadsOne(hosts: set<int>, seen: map<int, Read>) returns (h: int)
    requires seen.Keys <= hosts && seen.Keys != hosts
    ensures h in hosts && h !in seen
    ensures Enabled(hosts, ReadingWith(seen), ReadHost(h, Readable))
    ensures Apply(hosts, ReadingWith(seen), ReadHost(h, Readable)) == ReadingWith(seen[h := Readable])
  {
    assert (forall x | x in hosts :: x in seen.Keys) ==> hosts == seen.Keys;
    h :| h in hosts && h !in seen.Keys;
  }

  lemma FinishesReads(hosts: set<int>, seen: map<int, Read>)
    requires seen.Keys == hosts && forall h | h in seen :: seen[h].Readable?
    ensures Enabled(hosts, ReadingWith(seen), FinishReads)
    ensures Apply(hosts, ReadingWith(seen), FinishReads) == START.(phase := Checked)
  {
  }

  /** Reading the remaining hosts, each of them readable, and going on. */
  lemma {:induction false} ReadTheRest(hosts: set<int>, seen: map<int, Read>, rest: seq<Step>, end: State)
    returns (steps: seq<Step>)
    requires seen.Keys <= hosts && forall h | h in seen :: seen[h].Readable?
    requires Runs(hosts, START.(phase := Checked), rest, end)
    ensures Runs(hosts, ReadingWith(seen), steps, end)
    decreases |hosts - seen.Keys|
  {
    if seen.Keys == hosts {
      FinishesReads(hosts, seen);
      steps := RunsFrom(hosts, ReadingWith(seen), FinishReads, rest, end);
    } else {
      var h := ReadsOne(hosts, seen);
      var more := seen[h := Readable];
      assert hosts - more.Keys == hosts - seen.Keys - {h};
      steps := ReadTheRest(hosts, more, rest, end);
      steps := RunsFrom(hosts, ReadingWith(seen), ReadHost(h, Readable), steps, end);
    }
  }

  /** The one answer that does not tell: whoever the hosts are, an insert that
      fails after the row was kept is the 500 of an insert that failed. */
  lemma FailedInsertMayBeKept(hosts: set<int>, kept: bool) returns (steps: seq<Step>, end: State)
    ensures Runs(hosts, START, steps, end)
    ensures end.response == Some(Error500) && end.saved == kept
  {
    var checked := START.(phase := Checked);
    var connected := Apply(hosts, checked, Connect(true));
    var committed := Apply(hosts, connected, Commit);
    var failed := Apply(hosts, committed, Insert(kept, false));
    end := Apply(hosts, failed, Write);
    steps := RunsFrom(hosts, failed, Write, [], end);
    steps := RunsFrom(hosts, committed, Insert(kept, false), steps, end);
    steps := RunsFrom(hosts, connected, Commit, steps, end);
    steps := RunsFrom(hosts, checked, Connect(true), steps, end);
    steps := ReadTheRest(hosts, map[], steps, end);
    steps := RunsFrom(hosts, START, ListHosts(true), steps, end);
  }
}
