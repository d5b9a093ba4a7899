/** The renewal of one owner's stored credential by many sources
    (backend/auth/credential_lifecycle.go over backend/auth/token_store.go and
    backend/storage/credentials.go), as a transition system: a source's steps
    interleave with other sources', a reconnect and a disconnect. */
module Renewal {
  import opened Options

  type Refresh = int

  datatype Token = Token(hasAccess: bool, refresh: Option<Refresh>, expiry: Option<int>)

  /** zeroExpiryIsExpired is Zoom's; without a configuration nothing renews. */
  datatype Config = Config(zeroExpiryIsExpired: bool, configured: bool)

  const EXPIRY_DELTA := 10

  /** usable, with oauth2's ten-second margin. */
  predicate Usable(cfg: Config, now: int, t: Option<Token>) {
    && t.Some? && t.value.hasAccess
    && !(cfg.zeroExpiryIsExpired && t.value.expiry.None?)
    && (t.value.expiry.Some? ==> now <= t.value.expiry.value - EXPIRY_DELTA)
  }

  /** A token good for ten more seconds: with access, with an expiry where one is
      asked for, and that expiry at least ten seconds away. */
  ghost predicate StillGood(cfg: Config, now: int, t: Token) {
    && t.hasAccess && (cfg.zeroExpiryIsExpired ==> t.expiry.Some?)
    && (t.expiry.Some? ==> now + 10 <= t.expiry.value)
  }

  lemma UsableExactly(cfg: Config, now: int, t: Option<Token>)
    ensures Usable(cfg, now, t) <==> t.Some? && StillGood(cfg, now, t.value)
  {
  }

  /** Where a source is inside Token(): outside, holding the owner's lock before
      the load, with a refresh token to present, with a renewed token to store,
      permanently refused, or about to record a loss it has re-checked. */
  datatype Phase =
    | Idle | Holding | Presenting(refresh: Refresh) | Renewed(token: Token)
    | Refused(refresh: Refresh) | Confirmed(refresh: Refresh, epoch: nat)

  /** spent: refresh tokens the provider rotated away; issued: every refresh
      token ever handed out; refused: permanently refused ones; epoch counts the
      steps that replace the stored refresh token from outside; entries counts
      connection_lost entries. */
  datatype State = State(
    now: int, row: Option<Token>, lost: bool, entries: nat,
    lock: Option<int>, cur: map<int, Option<Token>>, phase: map<int, Phase>,
    spent: set<Refresh>, issued: set<Refresh>, refused: set<Refresh>, epoch: nat)

  datatype LoadOutcome = Loaded | LoadFailed | Undecryptable

  datatype Answer =
    | Granted(expiry: Option<int>, rotated: Option<Refresh>)
    | PermanentRefusal
    | Temporary(spentAnyway: bool)

  datatype Step =
    | Create(i: int)
    | Acquire(i: int)
    | Load(i: int, outcome: LoadOutcome)
    | Present(i: int, answer: Answer)
    | Save(i: int, ok: bool)
    | Recheck(i: int, ok: bool)
    | Record(i: int, ok: bool, logged: bool)
    | Reconnect(token: Token)
    | Disconnect
    | Tick(seconds: nat)

  /** A refresh token handed out now was never handed out before. */
  predicate Fresh(s: State, r: Option<Refresh>) {
    r.Some? ==> r.value !in s.issued
  }

  predicate Enabled(cfg: Config, s: State, step: Step) {
    match step
    case Create(i) => i !in s.cur
    case Acquire(i) => i in s.cur && i in s.phase && s.phase[i].Idle? && s.lock.None? && !Usable(cfg, s.now, s.cur[i])
    case Load(i, _) => i in s.cur && i in s.phase && s.phase[i].Holding?
    case Present(i, answer) =>
      i in s.cur && i in s.phase && s.phase[i].Presenting? && (answer.Granted? ==> Fresh(s, answer.rotated))
    case Save(i, _) => i in s.cur && i in s.phase && s.phase[i].Renewed?
    case Recheck(i, _) => i in s.cur && i in s.phase && s.phase[i].Refused?
    case Record(i, _, _) => i in s.cur && i in s.phase && s.phase[i].Confirmed?
    case Reconnect(token) => Fresh(s, token.refresh)
    case Disconnect => true
    case Tick(_) => true
  }

  /** A disconnect, or a reconnect that brings a refresh token of its own. */
  predicate Replaces(step: Step) {
    step.Disconnect? || (step.Reconnect? && step.token.refresh.Some?)
  }

  /** Token() returns: back outside, the owner's lock released. */
  function Leave(s: State, i: int): State {
    s.(lock := None, phase := s.phase[i := Idle])
  }

  function Adding(all: set<Refresh>, r: Option<Refresh>): set<Refresh> {
    if r.Some? then all + {r.value} else all
  }

  /** After the load: the stored token replaces the cached one when there is
      one, and is returned when usable; else its refresh token is presented. */
  function AfterLoad(cfg: Config, s: State, i: int, outcome: LoadOutcome): State
    requires i in s.cur
  {
    if outcome.Undecryptable? then Leave(s, i)
    else
      var cur := if outcome.Loaded? && s.row.Some? then s.row else s.cur[i];
      var t := s.(cur := s.cur[i := cur]);
      if outcome.Loaded? && s.row.Some? && Usable(cfg, s.now, cur) then Leave(t, i)
      else if cur.None? || cur.value.refresh.None? || !cfg.configured then Leave(t, i)
      else t.(phase := t.phase[i := Presenting(cur.value.refresh.value)])
  }

  function AfterAnswer(s: State, i: int, refresh: Refresh, answer: Answer): State {
    match answer
    case Granted(expiry, rotated) =>
      var kept := if rotated.Some? then rotated else Some(refresh);
      s.(phase := s.phase[i := Renewed(Token(true, kept, expiry))],
         spent := if rotated.Some? then s.spent + {refresh} else s.spent,
         issued := Adding(s.issued, rotated))
    case PermanentRefusal =>
      s.(phase := s.phase[i := Refused(refresh)], refused := s.refused + {refresh})
    case Temporary(spentAnyway) =>
      Leave(if spentAnyway then s.(spent := s.spent + {refresh}) else s, i)
  }

  function Apply(cfg: Config, s: State, step: Step): State
    requires Enabled(cfg, s, step)
  {
    match step
    case Create(i) => s.(cur := s.cur[i := s.row], phase := s.phase[i := Idle])
    case Acquire(i) => s.(lock := Some(i), phase := s.phase[i := Holding])
    case Load(i, outcome) => AfterLoad(cfg, s, i, outcome)
    case Present(i, answer) => AfterAnswer(s, i, s.phase[i].refresh, answer)
    case Save(i, ok) =>
      var token := s.phase[i].token;
      // UpdateUserToken only ever updates a row that is there
      Leave(s.(row := if ok && s.row.Some? then Some(token) else s.row, cur := s.cur[i := Some(token)]), i)
    case Recheck(i, ok) =>
      var refresh := s.phase[i].refresh;
      if ok && s.row.Some? && s.row.value.refresh == Some(refresh) then
        s.(phase := s.phase[i := Confirmed(refresh, s.epoch)])
      else Leave(s, i)
    case Record(i, ok, logged) =>
      // the entry is best effort, after the mark
      Leave(if ok && !s.lost then s.(lost := true, entries := s.entries + if logged then 1 else 0) else s, i)
    case Reconnect(token) =>
      // a connect without a refresh token keeps the stored one
      var kept := if token.refresh.None? && s.row.Some? then s.row.value.refresh else token.refresh;
      s.(row := Some(token.(refresh := kept)), lost := false, issued := Adding(s.issued, token.refresh),
         epoch := s.epoch + if Replaces(step) then 1 else 0)
    case Disconnect => s.(row := None, lost := false, epoch := s.epoch + 1)
    case Tick(seconds) => s.(now := s.now + seconds)
  }

  ghost predicate Runs(cfg: Config, s: State, steps: seq<Step>, end: State)
    decreases |steps|
  {
    if steps == [] then end == s
    else Enabled(cfg, s, steps[0]) && Runs(cfg, Apply(cfg, s, steps[0]), steps[1..], end)
  }

  // ---- what every run keeps ----

  predicate RefreshIn(t: Option<Token>, tokens: set<Refresh>) {
    t.Some? && t.value.refresh.Some? && t.value.refresh.value in tokens
  }

  predicate Known(t: Option<Token>, tokens: set<Refresh>) {
    t.Some? && t.value.refresh.Some? ==> t.value.refresh.value in tokens
  }

  function Carried(p: Phase): Option<Refresh> {
    match p
    case Presenting(r) => Some(r)
    case Renewed(t) => t.refresh
    case Refused(r) => Some(r)
    case Confirmed(r, _) => Some(r)
    case _ => None
  }

  /** Renewals are serialised: only the lock's holder is inside Token(). */
  ghost predicate Serialised(s: State) {
    && s.cur.Keys == s.phase.Keys
    && (s.lock.Some? ==> s.lock.value in s.phase)
    && forall i | i in s.phase :: !s.phase[i].Idle? <==> s.lock == Some(i)
  }

  /** No refresh token comes from nowhere. */
  ghost predicate TokensKnown(s: State) {
    && s.spent <= s.issued && Known(s.row, s.issued)
    && (forall i | i in s.cur :: Known(s.cur[i], s.issued))
    && (forall i | i in s.phase && Carried(s.phase[i]).Some? :: Carried(s.phase[i]).value in s.issued)
  }

  /** A loss about to be recorded is of a permanently refused token, and that
      token is still the stored one exactly when it was not replaced since. */
  predicate LossReady(s: State, p: Phase) {
    && (p.Refused? ==> p.refresh in s.refused)
    && (p.Confirmed? ==> p.refresh in s.refused && p.epoch <= s.epoch)
    && (p.Confirmed? ==> (p.epoch == s.epoch <==> s.row.Some? && s.row.value.refresh == Some(p.refresh)))
  }

  ghost predicate Sound(s: State) {
    Serialised(s) && TokensKnown(s) && forall i | i in s.phase :: LossReady(s, s.phase[i])
  }

  lemma StepSerialises(cfg: Config, s: State, step: Step)
    requires Serialised(s) && Enabled(cfg, s, step)
    ensures Serialised(Apply(cfg, s, step))
  {
  }

  lemma LoadKnows(cfg: Config, s: State, i: int, outcome: LoadOutcome)
    requires TokensKnown(s) && Enabled(cfg, s, Load(i, outcome))
    ensures TokensKnown(Apply(cfg, s, Load(i, outcome)))
  {
  }

  lemma PresentKnows(cfg: Config, s: State, i: int, answer: Answer)
    requires TokensKnown(s) && Enabled(cfg, s, Present(i, answer))
    ensures TokensKnown(Apply(cfg, s, Present(i, answer)))
  {
    assert Carried(s.phase[i]).value in s.issued;
  }

  lemma SaveKnows(cfg: Config, s: State, i: int, ok: bool)
    requires TokensKnown(s) && Enabled(cfg, s, Save(i, ok))
    ensures TokensKnown(Apply(cfg, s, Save(i, ok)))
  {
    assert Carried(s.phase[i]).Some? ==> Carried(s.phase[i]).value in s.issued;
  }

  lemma StepKnows(cfg: Config, s: State, step: Step)
    requires TokensKnown(s) && Enabled(cfg, s, step)
    ensures TokensKnown(Apply(cfg, s, step))
  {
    match step
    case Load(i, outcome) => LoadKnows(cfg, s, i, outcome);
    case Present(i, answer) => PresentKnows(cfg, s, i, answer);
    case Save(i, ok) => SaveKnows(cfg, s, i, ok);
    case _ =>
  }

  lemma StepKeepsLossReady(cfg: Config, s: State, step: Step)
    requires Sound(s) && Enabled(cfg, s, step)
    ensures var t := Apply(cfg, s, step); forall i | i in t.phase :: LossReady(t, t.phase[i])
  {
    var t := Apply(cfg, s, step);
    forall i | i in t.phase ensures LossReady(t, t.phase[i]) {
      assert i in s.phase ==> LossReady(s, s.phase[i]);
    }
  }

  lemma StepIsSound(cfg: Config, s: State, step: Step)
    requires Sound(s) && Enabled(cfg, s, step)
    ensures Sound(Apply(cfg, s, step))
  {
    StepSerialises(cfg, s, step);
    StepKnows(cfg, s, step);
    StepKeepsLossReady(cfg, s, step);
  }

  lemma {:induction false} EveryRunIsSound(cfg: Config, s: State, steps: seq<Step>, end: State)
    requires Sound(s) && Runs(cfg, s, steps, end)
    ensures Sound(end)
    ensures forall i, j | i in end.phase && j in end.phase :: !end.phase[i].Idle? && !end.phase[j].Idle? ==> i == j
    decreases |steps|
  {
    if steps != [] {
      StepIsSound(cfg, s, steps[0]);
      EveryRunIsSound(cfg, Apply(cfg, s, steps[0]), steps[1..], end);
    }
  }

  /** The start: no source yet, and nothing spent is stored. */
  ghost predicate Initial(s: State) {
    && s.cur == map[] && s.phase == map[] && s.lock.None? && s.spent == {} && s.refused == {}
    && Known(s.row, s.issued)
  }

  // ---- a refresh token is presented while it is good ----

  /** What takes the guarantee away: the row disappearing, a load or save that
      fails, or a rotation whose answer is lost. */
  predicate Faulty(step: Step) {
    match step
    case Disconnect => true
    case Load(_, outcome) => outcome.LoadFailed?
    case Save(_, ok) => !ok
    case Present(_, answer) => answer.Temporary? && answer.spentAnyway
    case _ => false
  }

  /** Some step of the run presents a refresh token already rotated away. */
  ghost predicate Replays(cfg: Config, s: State, steps: seq<Step>)
    decreases |steps|
  {
    && steps != [] && Enabled(cfg, s, steps[0])
    && ((steps[0].Present? && s.phase[steps[0].i].refresh in s.spent)
        || Replays(cfg, Apply(cfg, s, steps[0]), steps[1..]))
  }

  predicate Good(t: Option<Token>, spent: set<Refresh>) {
    t.Some? && !RefreshIn(t, spent)
  }

  /** Stored, and what the lock's holder carries, is not spent; while the holder
      has a renewed token to store, the stored one may be. */
  ghost predicate Unspent(s: State) {
    && s.row.Some?
    && (s.lock.None? ==> Good(s.row, s.spent))
    && (forall i | i in s.phase && s.lock == Some(i) :: !s.phase[i].Renewed? ==> Good(s.row, s.spent))
    && (forall i | i in s.phase && Carried(s.phase[i]).Some? :: s.phase[i].Presenting? || s.phase[i].Renewed? ==>
          Carried(s.phase[i]).value !in s.spent)
  }

  lemma PresentStaysUnspent(cfg: Config, s: State, i: int, answer: Answer)
    requires Sound(s) && Unspent(s) && Enabled(cfg, s, Present(i, answer)) && !Faulty(Present(i, answer))
    ensures Unspent(Apply(cfg, s, Present(i, answer)))
  {
    assert s.lock == Some(i) && s.phase[i].refresh !in s.spent;
  }

  lemma LoadStaysUnspent(cfg: Config, s: State, i: int, outcome: LoadOutcome)
    requires Sound(s) && Unspent(s) && Enabled(cfg, s, Load(i, outcome)) && !Faulty(Load(i, outcome))
    ensures Unspent(Apply(cfg, s, Load(i, outcome)))
  {
    assert s.lock == Some(i) && Good(s.row, s.spent);
  }

  lemma StepStaysUnspent(cfg: Config, s: State, step: Step)
    requires Sound(s) && Unspent(s) && Enabled(cfg, s, step) && !Faulty(step)
    ensures Unspent(Apply(cfg, s, step))
  {
    match step
    case Present(i, answer) => PresentStaysUnspent(cfg, s, i, answer);
    case Load(i, outcome) => LoadStaysUnspent(cfg, s, i, outcome);
    case _ =>
  }

  /** Over every run without such a fault, however many sources interleave with
      reconnects, no refresh token is presented after it was rotated away. */
  lemma {:induction false} NoReplay(cfg: Config, s: State, steps: seq<Step>, end: State)
    requires Sound(s) && Unspent(s) && Runs(cfg, s, steps, end)
    requires forall step | step in steps :: !Faulty(step)
    ensures !Replays(cfg, s, steps) && Unspent(end)
    decreases |steps|
  {
    if steps != [] {
      var t := Apply(cfg, s, steps[0]);
      assert steps[0] in steps;
      StepIsSound(cfg, s, steps[0]);
      StepStaysUnspent(cfg, s, steps[0]);
      NoReplay(cfg, t, steps[1..], end);
    }
  }

  lemma StartIsUnspent(s: State)
    requires Initial(s) && s.row.Some?
    ensures Sound(s) && Unspent(s)
  {
  }

  const PLAIN := Config(false, true)
  const EXPIRED := Token(true, Some(0), Some(0))
  const RENEWED := Token(true, Some(1), Some(3700))
  const CONNECTED := State(100, Some(EXPIRED), false, 0, None,
                           map[1 := Some(EXPIRED), 2 := Some(EXPIRED)], map[1 := Idle, 2 := Idle], {}, {0}, {}, 0)

  /** Two sources were made from refresh token 0. Source 1 has renewed it to 1,
      or is about to store or be answered; source 2 still caches token 0. */
  function StateBefore(fault: Step): State {
    match fault
    case Save(_, _) =>
      CONNECTED.(lock := Some(1), phase := map[1 := Renewed(RENEWED), 2 := Idle], spent := {0}, issued := {0, 1})
    case Present(_, _) =>
      CONNECTED.(lock := Some(1), phase := map[1 := Presenting(0), 2 := Idle])
    case _ =>
      CONNECTED.(row := Some(RENEWED), cur := map[1 := Some(RENEWED), 2 := Some(EXPIRED)], spent := {0},
                 issued := {0, 1})
  }

  /** The fault, and source 2 renewing. */
  function RunWith(fault: Step): seq<Step> {
    (if fault.Load? then [] else [fault]) +
    [Acquire(2), if fault.Load? then fault else Load(2, Loaded), Present(2, PermanentRefusal)]
  }

  lemma ReplayLater(cfg: Config, s: State, steps: seq<Step>)
    requires steps != [] && Enabled(cfg, s, steps[0]) && Replays(cfg, Apply(cfg, s, steps[0]), steps[1..])
    ensures Replays(cfg, s, steps)
  {
  }

  lemma SecondReplays(s: State, load: LoadOutcome)
    requires s.now == 100 && s.lock.None? && 0 in s.spent
    requires 2 in s.cur && s.cur[2] == Some(EXPIRED) && 2 in s.phase && s.phase[2].Idle?
    requires load == LoadFailed || (load == Loaded && (s.row == None || s.row == Some(EXPIRED)))
    ensures Replays(PLAIN, s, [Acquire(2), Load(2, load), Present(2, PermanentRefusal)])
  {
    var steps := [Acquire(2), Load(2, load), Present(2, PermanentRefusal)];
    var s1 := Apply(PLAIN, s, steps[0]);
    var s2 := Apply(PLAIN, s1, steps[1]);
    assert s2.phase[2] == Presenting(0);
    assert steps[1..][1..] == [steps[2]];
    assert Replays(PLAIN, s2, [steps[2]]);
    ReplayLater(PLAIN, s1, steps[1..]);
  }

  lemma FaultStartIsCovered(fault: Step)
    ensures Sound(StateBefore(fault)) && Unspent(StateBefore(fault))
  {
  }

  lemma OnlyFault(fault: Step)
    requires fault in {Disconnect, Load(2, LoadFailed), Save(1, false), Present(1, Temporary(true))}
    ensures forall step | step in RunWith(fault) :: Faulty(step) <==> step == fault
  {
  }

  /** Each of the four faults alone is enough: from a state the guarantee covers,
      a run whose only fault it is presents token 0 again. */
  lemma EachFaultReplays(fault: Step)
    requires fault in {Disconnect, Load(2, LoadFailed), Save(1, false), Present(1, Temporary(true))}
    ensures Sound(StateBefore(fault)) && Unspent(StateBefore(fault))
    ensures forall step | step in RunWith(fault) :: Faulty(step) <==> step == fault
    ensures Replays(PLAIN, StateBefore(fault), RunWith(fault))
  {
    FaultStartIsCovered(fault);
    OnlyFault(fault);
    var s, steps := StateBefore(fault), RunWith(fault);
    if fault.Load? {
      SecondReplays(s, LoadFailed);
    } else {
      SecondReplays(Apply(PLAIN, s, fault), Loaded);
      assert steps[1..] == [Acquire(2), Load(2, Loaded), Present(2, PermanentRefusal)];
    }
  }

  // ---- losses ----

  /** The step turns "not lost" into "lost". */
  ghost predicate StartsLoss(cfg: Config, s: State, step: Step)
    requires Enabled(cfg, s, step)
  {
    !s.lost && Apply(cfg, s, step).lost
  }

  /** How many steps of the run do. */
  ghost function LossesStarted(cfg: Config, s: State, steps: seq<Step>): nat
    decreases |steps|
  {
    if steps == [] || !Enabled(cfg, s, steps[0]) then 0
    else (if StartsLoss(cfg, s, steps[0]) then 1 else 0) + LossesStarted(cfg, Apply(cfg, s, steps[0]), steps[1..])
  }

  /** And how many of them fail to write their entry. */
  ghost function LossesUnlogged(cfg: Config, s: State, steps: seq<Step>): nat
    decreases |steps|
  {
    if steps == [] || !Enabled(cfg, s, steps[0]) then 0
    else
      (if StartsLoss(cfg, s, steps[0]) && !(steps[0].Record? && steps[0].logged) then 1 else 0) +
      LossesUnlogged(cfg, Apply(cfg, s, steps[0]), steps[1..])
  }

  /** A step that starts a loss follows a permanent refusal; what was refused is
      still stored exactly when it was not replaced since the re-check. */
  ghost predicate Justified(cfg: Config, s: State, step: Step)
    requires Enabled(cfg, s, step)
  {
    StartsLoss(cfg, s, step) ==>
      && step.Record?
      && var p := s.phase[step.i];
         && p.refresh in s.refused
         && (p.epoch == s.epoch <==> s.row.Some? && s.row.value.refresh == Some(p.refresh))
  }

  ghost predicate LossesJustified(cfg: Config, s: State, steps: seq<Step>)
    decreases |steps|
  {
    if steps == [] || !Enabled(cfg, s, steps[0]) then true
    else Justified(cfg, s, steps[0]) && LossesJustified(cfg, Apply(cfg, s, steps[0]), steps[1..])
  }

  lemma StepAccounts(cfg: Config, s: State, step: Step)
    requires Sound(s) && Enabled(cfg, s, step)
    ensures Justified(cfg, s, step)
    ensures Apply(cfg, s, step).entries == s.entries +
      if StartsLoss(cfg, s, step) && step.Record? && step.logged then 1 else 0
  {
    if step.Record? {
      assert LossReady(s, s.phase[step.i]);
    }
  }

  lemma {:induction false} AllLogged(cfg: Config, s: State, steps: seq<Step>, end: State)
    requires Sound(s) && Runs(cfg, s, steps, end)
    requires forall step | step in steps :: step.Record? ==> step.logged
    ensures LossesUnlogged(cfg, s, steps) == 0
    decreases |steps|
  {
    if steps != [] {
      assert steps[0] in steps && forall step | step in steps[1..] :: step in steps;
      StepIsSound(cfg, s, steps[0]);
      StepAccounts(cfg, s, steps[0]);
      AllLogged(cfg, Apply(cfg, s, steps[0]), steps[1..], end);
    }
  }

  /** Over every run, faulty or not: one connection_lost entry per loss, less
      those that could not be written, and no loss without its refusal. */
  lemma {:induction false} LossAccounting(cfg: Config, s: State, steps: seq<Step>, end: State)
    requires Sound(s) && Runs(cfg, s, steps, end)
    ensures end.entries + LossesUnlogged(cfg, s, steps) == s.entries + LossesStarted(cfg, s, steps)
    ensures (forall step | step in steps :: step.Record? ==> step.logged) ==>
      end.entries == s.entries + LossesStarted(cfg, s, steps)
    ensures LossesJustified(cfg, s, steps)
    decreases |steps|
  {
    if forall step | step in steps :: step.Record? ==> step.logged {
      AllLogged(cfg, s, steps, end);
    }
    if steps != [] {
      StepIsSound(cfg, s, steps[0]);
      StepAccounts(cfg, s, steps[0]);
      LossAccounting(cfg, Apply(cfg, s, steps[0]), steps[1..], end);
    }
  }

  /** How often the run replaces the stored refresh token from outside. */
  function Replacements(steps: seq<Step>): nat {
    if steps == [] then 0 else (if Replaces(steps[0]) then 1 else 0) + Replacements(steps[1..])
  }

  lemma {:induction false} SomeReplaces(steps: seq<Step>)
    ensures Replacements(steps) == 0 <==> forall step | step in steps :: !Replaces(step)
  {
    if steps != [] {
      SomeReplaces(steps[1..]);
      assert forall step :: step in steps <==> step == steps[0] || step in steps[1..];
    }
  }

  lemma {:induction false} WaitsToRecord(cfg: Config, s: State, i: int, steps: seq<Step>, end: State)
    requires Sound(s) && i in s.phase && s.phase[i].Confirmed? && Runs(cfg, s, steps, end)
    requires forall step | step in steps :: !(step.Record? && step.i == i)
    ensures Sound(end) && i in end.phase && end.phase[i] == s.phase[i]
    ensures end.epoch == s.epoch + Replacements(steps)
    decreases |steps|
  {
    if steps != [] {
      assert steps[0] in steps;
      StepIsSound(cfg, s, steps[0]);
      WaitsToRecord(cfg, Apply(cfg, s, steps[0]), i, steps[1..], end);
    }
  }

  /** A loss is recorded of the credential still stored exactly when no
      disconnect and no reconnect with a new refresh token slipped in between
      the re-check and the record, whatever else did. */
  lemma LossOfStoredExactly(cfg: Config, s: State, i: int, steps: seq<Step>, end: State)
    requires Sound(s) && i in s.cur && i in s.phase && s.phase[i].Refused?
    requires Apply(cfg, s, Recheck(i, true)).phase[i].Confirmed?
    requires Runs(cfg, Apply(cfg, s, Recheck(i, true)), steps, end)
    requires forall step | step in steps :: !(step.Record? && step.i == i)
    ensures Enabled(cfg, end, Record(i, true, true)) && end.phase[i].refresh == s.phase[i].refresh
    ensures (end.row.Some? && end.row.value.refresh == Some(s.phase[i].refresh))
       <==> forall step | step in steps :: !Replaces(step)
  {
    var checked := Apply(cfg, s, Recheck(i, true));
    StepIsSound(cfg, s, Recheck(i, true));
    WaitsToRecord(cfg, checked, i, steps, end);
    SomeReplaces(steps);
    assert LossReady(end, end.phase[i]);
  }

  const NEW := Token(true, Some(9), Some(3700))

  /** Source 1 has just been refused refresh token 0 for good. */
  const REFUSED := CONNECTED.(lock := Some(1), phase := map[1 := Refused(0), 2 := Idle], refused := {0})

  lemma RefusedIsSound()
    ensures Sound(REFUSED)
  {
  }

  /** It has re-checked that refresh token 0 is still stored; then a reconnect. */
  const RECHECKED := REFUSED.(phase := map[1 := Confirmed(0, 0), 2 := Idle])
  const RECONNECTED := RECHECKED.(row := Some(NEW), issued := {0, 9}, epoch := 1)

  lemma SlipsIn()
    ensures Enabled(PLAIN, REFUSED, Recheck(1, true)) && Apply(PLAIN, REFUSED, Recheck(1, true)) == RECHECKED
    ensures Enabled(PLAIN, RECHECKED, Reconnect(NEW)) && Apply(PLAIN, RECHECKED, Reconnect(NEW)) == RECONNECTED
  {
  }

  /** The record is a separate step, so a reconnect can slip in and the new
      credential is marked lost: re-check, reconnect with token 9, record. */
  lemma RecordAfterReconnect()
    ensures Sound(REFUSED)
    ensures var end := Leave(RECONNECTED.(lost := true, entries := 1), 1);
      && Runs(PLAIN, REFUSED, [Recheck(1, true), Reconnect(NEW), Record(1, true, true)], end)
      && Usable(PLAIN, end.now, end.row) && end.lost
  {
    RefusedIsSound();
    SlipsIn();
    var end := Apply(PLAIN, RECONNECTED, Record(1, true, true));
    RunsFrom(PLAIN, RECONNECTED, [Record(1, true, true)], end);
    RunsFrom(PLAIN, RECHECKED, [Reconnect(NEW), Record(1, true, true)], end);
    RunsFrom(PLAIN, REFUSED, [Recheck(1, true), Reconnect(NEW), Record(1, true, true)], end);
  }

  lemma RunsFrom(cfg: Config, s: State, steps: seq<Step>, end: State)
    requires steps != [] && Enabled(cfg, s, steps[0])
    requires Runs(cfg, Apply(cfg, s, steps[0]), steps[1..], end)
    ensures Runs(cfg, s, steps, end)
  {
  }

  lemma {:induction false} MarkKeeps(cfg: Config, s: State, steps: seq<Step>, end: State)
    requires Runs(cfg, s, steps, end)
    ensures (forall step | step in steps :: !(step.Record? && step.ok)) && !s.lost ==> !end.lost
    ensures (forall step | step in steps :: !step.Reconnect? && !step.Disconnect?) && s.lost ==> end.lost
    decreases |steps|
  {
    if steps != [] {
      assert steps[0] in steps && forall step | step in steps[1..] :: step in steps;
      MarkKeeps(cfg, Apply(cfg, s, steps[0]), steps[1..], end);
    }
  }

  /** A recorded loss stands until somebody connects or disconnects; after that
      the credential is not lost until a further record succeeds. A connect
      stores its own token, with the old refresh token if it brings none. */
  lemma MarkStands(cfg: Config, s: State, step: Step, steps: seq<Step>, end: State)
    requires Enabled(cfg, s, step) && Runs(cfg, Apply(cfg, s, step), steps, end)
    ensures step.Record? && step.ok && (forall x | x in steps :: !x.Reconnect? && !x.Disconnect?) ==> end.lost
    ensures (step.Reconnect? || step.Disconnect?) && (forall x | x in steps :: !(x.Record? && x.ok)) ==> !end.lost
    ensures step.Disconnect? ==> Apply(cfg, s, step).row == None
    ensures step.Reconnect? ==>
      var row := Apply(cfg, s, step).row;
      && row.Some? && row.value.hasAccess == step.token.hasAccess && row.value.expiry == step.token.expiry
      && (step.token.refresh.Some? ==> row.value.refresh == step.token.refresh)
      && (step.token.refresh.None? ==> row.value.refresh == if s.row.Some? then s.row.value.refresh else None)
  {
    MarkKeeps(cfg, Apply(cfg, s, step), steps, end);
  }

  // ---- a reconnect sticks ----

  /** The refresh tokens renewed out of a chain by one step. */
  function Grown(s: State, step: Step, chain: set<Refresh>): set<Refresh> {
    if step.Present? && step.i in s.phase && s.phase[step.i].Presenting? && s.phase[step.i].refresh in chain
       && step.answer.Granted?
    then Adding(chain, step.answer.rotated)
    else chain
  }

  predicate StoredIn(s: State, chain: set<Refresh>) { RefreshIn(s.row, chain) }

  /** Until somebody connects or disconnects again, the stored refresh token is
      of the chain. */
  ghost predicate StaysOn(cfg: Config, s: State, steps: seq<Step>, chain: set<Refresh>)
    decreases |steps|
  {
    && StoredIn(s, chain)
    && (steps == [] || !Enabled(cfg, s, steps[0]) || steps[0].Disconnect? || steps[0].Reconnect?
        || StaysOn(cfg, Apply(cfg, s, steps[0]), steps[1..], Grown(s, steps[0], chain)))
  }

  /** What the lock's holder presents or is about to store is of the chain too. */
  ghost predicate OnChain(s: State, chain: set<Refresh>) {
    && StoredIn(s, chain)
    && forall i | i in s.phase ::
      && (s.phase[i].Presenting? ==> s.phase[i].refresh in chain)
      && (s.phase[i].Renewed? ==> RefreshIn(Some(s.phase[i].token), chain))
  }

  lemma StepStaysOn(cfg: Config, s: State, step: Step, chain: set<Refresh>)
    requires OnChain(s, chain) && Enabled(cfg, s, step) && !(step.Load? && step.outcome.LoadFailed?)
    requires !step.Disconnect? && !step.Reconnect?
    ensures OnChain(Apply(cfg, s, step), Grown(s, step, chain))
  {
  }

  lemma {:induction false} ChainHolds(cfg: Config, s: State, steps: seq<Step>, chain: set<Refresh>)
    requires OnChain(s, chain)
    requires forall step | step in steps :: !(step.Load? && step.outcome.LoadFailed?)
    ensures StaysOn(cfg, s, steps, chain)
    decreases |steps|
  {
    if steps != [] && Enabled(cfg, s, steps[0]) && !steps[0].Disconnect? && !steps[0].Reconnect? {
      assert steps[0] in steps;
      StepStaysOn(cfg, s, steps[0], chain);
      ChainHolds(cfg, Apply(cfg, s, steps[0]), steps[1..], Grown(s, steps[0], chain));
    }
  }

  /** Nobody is presenting a refresh token or holding a renewed one to store. */
  predicate NoneUnderWay(s: State) {
    forall i | i in s.phase :: !s.phase[i].Presenting? && !s.phase[i].Renewed?
  }

  /** A reconnect made while no renewal is under way sticks: over every run in
      which loads succeed, what is stored comes from the new connection. */
  lemma ReconnectSticks(cfg: Config, s: State, token: Token, steps: seq<Step>)
    requires Sound(s) && token.refresh.Some? && Enabled(cfg, s, Reconnect(token)) && NoneUnderWay(s)
    requires forall step | step in steps :: !(step.Load? && step.outcome.LoadFailed?)
    ensures StaysOn(cfg, Apply(cfg, s, Reconnect(token)), steps, {token.refresh.value})
  {
    ChainHolds(cfg, Apply(cfg, s, Reconnect(token)), steps, {token.refresh.value});
  }

  /** While loads succeed, only then: a renewal under way can be answered and
      stored, and the old connection's token replaces the new one. */
  lemma ReconnectOverwritten(cfg: Config, s: State, token: Token, i: int) returns (steps: seq<Step>)
    requires Sound(s) && token.refresh.Some? && Enabled(cfg, s, Reconnect(token))
    requires i in s.phase && (s.phase[i].Presenting? || s.phase[i].Renewed?)
    ensures forall step | step in steps :: !Faulty(step)
    ensures !StaysOn(cfg, Apply(cfg, s, Reconnect(token)), steps, {token.refresh.value})
  {
    var t, chain := Apply(cfg, s, Reconnect(token)), {token.refresh.value};
    assert Carried(s.phase[i]).Some? ==> Carried(s.phase[i]).value in s.issued;
    if s.phase[i].Renewed? {
      steps := [Save(i, true)];
      SavedOffChain(cfg, t, i, chain);
    } else {
      var answer := Granted(None, None);
      steps := [Present(i, answer), Save(i, true)];
      var u := Apply(cfg, t, Present(i, answer));
      SavedOffChain(cfg, u, i, chain);
      assert steps[1..] == [Save(i, true)];
      assert Grown(t, steps[0], chain) == chain;
    }
  }

  /** With a failed load a quiet reconnect is overwritten too: a source that
      still caches the old connection's token renews that one. */
  lemma FailedLoadOverwrites(cfg: Config, s: State, token: Token, i: int) returns (steps: seq<Step>)
    requires Sound(s) && token.refresh.Some? && Enabled(cfg, s, Reconnect(token)) && s.lock.None? && cfg.configured
    requires i in s.cur && s.cur[i].Some? && s.cur[i].value.refresh.Some? && !Usable(cfg, s.now, s.cur[i])
    ensures forall step | step in steps :: Faulty(step) ==> step == Load(i, LoadFailed)
    ensures !StaysOn(cfg, Apply(cfg, s, Reconnect(token)), steps, {token.refresh.value})
  {
    var chain, stale := {token.refresh.value}, s.cur[i].value.refresh.value;
    var load, present, save := Load(i, LoadFailed), Present(i, Granted(None, None)), Save(i, true);
    steps := [Acquire(i), load, present, save];
    OnlyTheLoadFails(i);
    var t := Apply(cfg, s, Reconnect(token));
    assert stale in s.issued && stale != token.refresh.value;
    var u := Apply(cfg, t, Acquire(i));
    OldTokenAsked(cfg, u, i, stale);
    var asking := Apply(cfg, u, load);
    var v := Apply(cfg, asking, present);
    SavedOffChain(cfg, v, i, chain);
    OffFrom(cfg, asking, [present, save], chain);
    OffFrom(cfg, u, [load, present, save], chain);
    OffFrom(cfg, t, steps, chain);
  }

  lemma OnlyTheLoadFails(i: int)
    ensures forall step | step in [Acquire(i), Load(i, LoadFailed), Present(i, Granted(None, None)), Save(i, true)] ::
      Faulty(step) ==> step == Load(i, LoadFailed)
  {
  }

  lemma OldTokenAsked(cfg: Config, s: State, i: int, stale: Refresh)
    requires cfg.configured && i in s.cur && i in s.phase && s.phase[i].Holding?
    requires s.cur[i].Some? && s.cur[i].value.refresh == Some(stale)
    ensures var t := Apply(cfg, s, Load(i, LoadFailed));
      t.row == s.row && i in t.cur && i in t.phase && t.phase[i] == Presenting(stale)
  {
  }

  lemma OffFrom(cfg: Config, s: State, steps: seq<Step>, chain: set<Refresh>)
    requires steps != [] && Enabled(cfg, s, steps[0]) && !steps[0].Disconnect? && !steps[0].Reconnect?
    requires !StaysOn(cfg, Apply(cfg, s, steps[0]), steps[1..], Grown(s, steps[0], chain))
    ensures !StaysOn(cfg, s, steps, chain)
  {
  }

  lemma SavedOffChain(cfg: Config, s: State, i: int, chain: set<Refresh>)
    requires i in s.cur && i in s.phase && s.phase[i].Renewed? && s.row.Some?
    requires !RefreshIn(Some(s.phase[i].token), chain)
    ensures !StaysOn(cfg, s, [Save(i, true)], chain)
  {
    var after := Apply(cfg, s, Save(i, true));
    assert !StaysOn(cfg, after, [], chain);
    assert [Save(i, true)][1..] == [];
  }

  // ---- removed stays removed ----

  /** Whatever renewals are in flight, only a reconnect brings a removed
      credential back; until then no loss of it can be re-checked either. */
  lemma {:induction false} RemovedStaysRemoved(cfg: Config, s: State, steps: seq<Step>, end: State)
    requires s.row.None? && Runs(cfg, s, steps, end)
    requires forall step | step in steps :: !step.Reconnect?
    ensures end.row.None?
    decreases |steps|
  {
    if steps != [] {
      assert steps[0] in steps;
      RemovedStaysRemoved(cfg, Apply(cfg, s, steps[0]), steps[1..], end);
    }
  }
}
