/** renewingSource.Token as the code runs it, step by step on the cached token
    and the stored row, proved to be a run of the protocol in Renewal. */
module RenewingSource {
  import opened Options
  import opened Renewal

  /** The owner's stored credential, its recorded loss and the entries written. */
  class CredentialRow {
    var row: Option<Token>
    var lost: bool
    var entries: nat

    constructor (row: Option<Token>)
      ensures this.row == row && !lost && entries == 0
    {
      this.row, lost, entries := row, false, 0;
    }

    /** RecordLoss: marks the loss, and writes one entry when this starts it;
        the mark can fail, and so can the entry after it. */
    method RecordLoss(ok: bool, logged: bool)
      modifies this
      ensures row == old(row)
      ensures lost == (old(lost) || ok)
      ensures entries == old(entries) + if ok && !old(lost) && logged then 1 else 0
    {
      var started := ok && !lost;
      if ok {
        lost := true;
      }
      if started && logged {
        entries := entries + 1;
      }
    }
  }

  /** The world's answers during one call. */
  datatype Answers = Answers(
    load: LoadOutcome, provider: Answer, saveOk: bool, recheckOk: bool, recordOk: bool, logOk: bool)

  datatype Result =
    | Got(token: Token) | ConnectionLost(recorded: bool) | CannotDecrypt | NotConfigured | TemporaryFailure

  /** What a call finds: the cached token and the stored one. */
  datatype Found = Found(cfg: Config, now: int, cur: Option<Token>, row: Option<Token>) {

    predicate CacheUsable() { Usable(cfg, now, cur) }

    predicate StoredUsable(load: LoadOutcome) { load.Loaded? && Usable(cfg, now, row) }

    /** The token to renew: the stored one, else the cached one. */
    function Latest(load: LoadOutcome): Option<Token> { if load.Loaded? && row.Some? then row else cur }

    predicate HasRefresh(load: LoadOutcome) { Latest(load).Some? && Latest(load).value.refresh.Some? }

    /** No token is at hand and the stored one could be read or is not there. */
    predicate Looks(load: LoadOutcome) { !CacheUsable() && !load.Undecryptable? && !StoredUsable(load) }

    /** The answer of a call behind the lock that does not ask the provider. */
    function Unasked(load: LoadOutcome): Result {
      if load.Undecryptable? then CannotDecrypt
      else if StoredUsable(load) then Got(row.value)
      else if HasRefresh(load) then NotConfigured else ConnectionLost(false)
    }

    /** The provider is asked, with this refresh token. */
    predicate Asks(load: LoadOutcome) { Looks(load) && HasRefresh(load) && cfg.configured }

    predicate Renews(world: Answers) { Asks(world.load) && world.provider.Granted? }

    function Renewed(world: Answers): Token
      requires Renews(world)
    {
      var granted := world.provider;
      Token(true, if granted.rotated.Some? then granted.rotated else Latest(world.load).value.refresh, granted.expiry)
    }

    /** Refused for good, and the refused token is still the stored one. */
    predicate Loses(world: Answers) {
      && Asks(world.load) && world.provider.PermanentRefusal?
      && world.recheckOk && row.Some? && row.value.refresh == Latest(world.load).value.refresh
    }

    /** The answer of the call, case by case. */
    predicate Answered(world: Answers, r: Result) {
      && (r.Got? <==> CacheUsable() || (!CacheUsable() && StoredUsable(world.load)) || Renews(world))
      && (r.CannotDecrypt? <==> !CacheUsable() && world.load.Undecryptable?)
      && (r.NotConfigured? <==> Looks(world.load) && HasRefresh(world.load) && !cfg.configured)
      && (r.TemporaryFailure? <==> Asks(world.load) && world.provider.Temporary?)
      && (r == ConnectionLost(true) <==> Loses(world))
      && (r == ConnectionLost(false) <==>
            || (Looks(world.load) && !HasRefresh(world.load))
            || (Asks(world.load) && world.provider.PermanentRefusal? && !Loses(world)))
    }

    /** A token handed out was granted in this call or is good for ten seconds;
        and a good one is handed out: the cached one with nothing touched, else
        the stored one, loaded and not renewed. */
    ghost predicate HandedOut(i: int, world: Answers, r: Result, after: Option<Token>, stored: Option<Token>) {
      && (r.Got? ==>
            || StillGood(cfg, now, r.token)
            || (world.provider.Granted? && Present(i, world.provider) in Taken(i, world)
                && r.token.hasAccess && r.token.expiry == world.provider.expiry))
      && (cur.Some? && StillGood(cfg, now, cur.value) ==>
            r == Got(cur.value) && Taken(i, world) == [] && after == cur && stored == row)
      && (!(cur.Some? && StillGood(cfg, now, cur.value))
          && world.load == Loaded && row.Some? && StillGood(cfg, now, row.value) ==>
            r == Got(row.value) && Taken(i, world) == [Acquire(i), Load(i, Loaded)] && after == row && stored == row)
    }

    /** The cache afterwards. */
    function Cached(world: Answers): Option<Token> {
      if Renews(world) then Some(Renewed(world))
      else if CacheUsable() || world.load.Undecryptable? then cur
      else Latest(world.load)
    }

    /** The stored row afterwards: only a renewal writes it, and only over a row. */
    function Stored(world: Answers): Option<Token> {
      if Renews(world) && world.saveOk && row.Some? then Some(Renewed(world)) else row
    }

    /** The steps of the protocol the call takes, in order. */
    function Taken(i: int, world: Answers): seq<Step> {
      if CacheUsable() then []
      else
        [Acquire(i), Load(i, world.load)] +
        if Asks(world.load) then Asked(i, world, Loses(world)) else []
    }
  }

  /** What is found in its own fields: a token is at hand when it is good for ten
      more seconds; without one, the provider is asked when the stored token, or
      the cached one where none could be read, has a refresh token; the loss is one
      only of what is still stored; the cache follows what was loaded or granted,
      and the row only what was granted. */
  lemma AsksExactly(f: Found, world: Answers)
    ensures f.CacheUsable() <==> f.cur.Some? && StillGood(f.cfg, f.now, f.cur.value)
    ensures f.StoredUsable(world.load) <==>
      world.load == Loaded && f.row.Some? && StillGood(f.cfg, f.now, f.row.value)
    ensures var latest := if world.load == Loaded && f.row.Some? then f.row else f.cur;
      && (f.Looks(world.load) <==>
            && !(f.cur.Some? && StillGood(f.cfg, f.now, f.cur.value)) && world.load != Undecryptable
            && !(world.load == Loaded && f.row.Some? && StillGood(f.cfg, f.now, f.row.value)))
      && (f.Asks(world.load) <==>
            f.Looks(world.load) && latest.Some? && latest.value.refresh.Some? && f.cfg.configured)
      && (f.Renews(world) <==> f.Asks(world.load) && world.provider.Granted?)
      && (f.Renews(world) ==>
            && f.Renewed(world).hasAccess && f.Renewed(world).expiry == world.provider.expiry
            && f.Renewed(world).refresh ==
              if world.provider.rotated.Some? then world.provider.rotated else latest.value.refresh)
      && (f.Loses(world) <==>
            && f.Asks(world.load) && world.provider == PermanentRefusal && world.recheckOk
            && f.row.Some? && f.row.value.refresh == latest.value.refresh)
      && f.Cached(world) == (if f.Renews(world) then Some(f.Renewed(world))
                             else if f.CacheUsable() || world.load == Undecryptable then f.cur else latest)
      && f.Stored(world) ==
        (if f.Renews(world) && world.saveOk && f.row.Some? then Some(f.Renewed(world)) else f.row)
  {
    UsableExactly(f.cfg, f.now, f.cur);
    UsableExactly(f.cfg, f.now, f.row);
  }

  lemma GoodIsHandedOut(f: Found, i: int, world: Answers, r: Result)
    requires f.Answered(world, r) && (r.Got? ==> f.Cached(world) == Some(r.token))
    ensures f.HandedOut(i, world, r, f.Cached(world), f.Stored(world))
  {
    AsksExactly(f, world);
    if f.Asks(world.load) {
      assert Asked(i, world, f.Loses(world))[0] == Present(i, world.provider);
      assert f.Taken(i, world)[2] == Present(i, world.provider);
    } else {
      assert [Acquire(i), Load(i, world.load)] + [] == [Acquire(i), Load(i, world.load)];
    }
  }

  /** The steps from the provider's call on. */
  function Asked(i: int, world: Answers, loses: bool): seq<Step> {
    [Present(i, world.provider)] +
    match world.provider
    case Granted(_, _) => [Save(i, world.saveOk)]
    case PermanentRefusal => [Recheck(i, world.recheckOk)] +
      if loses then [Record(i, world.recordOk, world.logOk)] else []
    case Temporary(_) => []
  }

  class Source {
    const cfg: Config
    const store: CredentialRow
    var cur: Option<Token>

    constructor (cfg: Config, store: CredentialRow, cur: Option<Token>)
      ensures this.cfg == cfg && this.store == store && this.cur == cur
    {
      this.cfg, this.store, this.cur := cfg, store, cur;
    }

    function Finds(now: int): Found
      reads this, store
    {
      Found(cfg, now, cur, store.row)
    }

    /** The protocol state s has this source as i in phase p, and the same store. */
    ghost predicate At(s: State, i: int, p: Phase)
      reads this, store
    {
      && i in s.cur && s.cur[i] == cur && i in s.phase && s.phase[i] == p && (p.Idle? ==> s.lock.None?)
      && s.row == store.row && s.lost == store.lost && s.entries == store.entries
    }

    /** Token. An uninterrupted call takes exactly these steps of the protocol,
        and leaves cache, row, mark and entries as they do. */
    method Call(ghost s: State, i: int, now: int, world: Answers) returns (r: Result, ghost end: State)
      requires At(s, i, Idle) && s.now == now
      requires world.provider.Granted? ==> Fresh(s, world.provider.rotated)
      modifies this, store
      ensures old(Finds(now)).Answered(world, r) && (r.Got? ==> cur == Some(r.token))
      ensures cur == old(Finds(now)).Cached(world) && store.row == old(Finds(now)).Stored(world)
      ensures store.lost == (old(store.lost) || (old(Finds(now)).Loses(world) && world.recordOk))
      ensures store.entries == old(store.entries) +
        if old(Finds(now)).Loses(world) && world.recordOk && !old(store.lost) && world.logOk then 1 else 0
      ensures Runs(cfg, s, old(Finds(now)).Taken(i, world), end) && At(end, i, Idle)
      ensures old(Finds(now)).HandedOut(i, world, r, cur, store.row)
    {
      ghost var found := Finds(now);
      if Usable(cfg, now, cur) {
        r, end := Got(cur.value), s;
      } else {
        var refresh;
        refresh, r, end := LookUp(s, i, now, world);
        if refresh.Some? {
          ghost var asked := end;
          r, end := Renew(asked, i, refresh.value, world);
          RunConcat(cfg, s, [Acquire(i), Load(i, world.load)], asked, Asked(i, world, found.Loses(world)), end);
        }
        assert refresh.None? ==> [Acquire(i), Load(i, world.load)] + [] == [Acquire(i), Load(i, world.load)];
      }
      GoodIsHandedOut(found, i, world, r);
    }

    /** The part of Token behind the owner's lock, up to the provider: the
        refresh token to ask it with, or the answer without asking. */
    method LookUp(ghost s: State, i: int, now: int, world: Answers)
      returns (refresh: Option<Refresh>, r: Result, ghost end: State)
      requires At(s, i, Idle) && s.now == now && !Usable(cfg, now, cur)
      modifies this`cur
      ensures var f := old(Finds(now));
        && cur == (if world.load.Undecryptable? then f.cur else f.Latest(world.load))
        && (refresh.Some? <==> f.Asks(world.load)) && (refresh.Some? ==> refresh == f.Latest(world.load).value.refresh)
        && (refresh.None? ==> r == f.Unasked(world.load))
      ensures Runs(cfg, s, [Acquire(i), Load(i, world.load)], end) && end.issued == s.issued
      ensures At(end, i, if refresh.Some? then Presenting(refresh.value) else Idle)
    {
      ghost var found := Finds(now);
      end := LooksUp(s, i, found, world.load);
      refresh := None;
      if world.load.Undecryptable? {
        return None, CannotDecrypt, end;
      }
      if world.load.Loaded? && store.row.Some? {
        cur := store.row;
        if Usable(cfg, now, cur) {
          return None, Got(cur.value), end;
        }
      }
      if cur.None? || cur.value.refresh.None? {
        return None, ConnectionLost(false), end;
      }
      if !cfg.configured {
        return None, NotConfigured, end;
      }
      return cur.value.refresh, NotConfigured, end;
    }

    /** The part of Token from the provider's call on. */
    method Renew(ghost s: State, i: int, refresh: Refresh, world: Answers) returns (r: Result, ghost end: State)
      requires At(s, i, Presenting(refresh))
      requires world.provider.Granted? ==> Fresh(s, world.provider.rotated)
      modifies this, store
      ensures var loses := world.provider.PermanentRefusal? && world.recheckOk && RefreshIn(old(store.row), {refresh});
        && Runs(cfg, s, Asked(i, world, loses), end) && At(end, i, Idle)
        && store.lost == (old(store.lost) || (loses && world.recordOk))
        && store.entries == old(store.entries) +
             (if loses && world.recordOk && !old(store.lost) && world.logOk then 1 else 0)
        && r == match world.provider {
          case Granted(expiry, rotated) => Got(Token(true, if rotated.Some? then rotated else Some(refresh), expiry))
          case PermanentRefusal => ConnectionLost(loses)
          case Temporary(_) => TemporaryFailure
        }
      ensures cur == if r.Got? then Some(r.token) else old(cur)
      ensures store.row == if r.Got? && world.saveOk && old(store.row).Some? then Some(r.token) else old(store.row)
    {
      match world.provider
      case Temporary(_) =>
        end := AsksInVain(cfg, s, i, refresh, world);
        return TemporaryFailure, end;
      case PermanentRefusal =>
        end := IsRefused(cfg, s, i, refresh, world);
        if world.recheckOk && store.row.Some? && store.row.value.refresh == Some(refresh) {
          store.RecordLoss(world.recordOk, world.logOk);
          return ConnectionLost(true), end;
        }
        return ConnectionLost(false), end;
      case Granted(expiry, rotated) =>
        end := IsGranted(cfg, s, i, refresh, world);
        var renewed := Token(true, rotated, expiry);
        if renewed.refresh.None? {
          renewed := renewed.(refresh := Some(refresh));
        }
        if world.saveOk && store.row.Some? {
          store.row := Some(renewed);
        }
        cur := Some(renewed);
        return Got(renewed), end;
    }
  }

  // ---- the protocol's side of a call ----

  /** Source i is back outside, with this cache and this store. */
  ghost predicate Back(s: State, i: int, cur: Option<Token>, row: Option<Token>, lost: bool, entries: nat) {
    && i in s.cur && s.cur[i] == cur && i in s.phase && s.phase[i].Idle? && s.lock.None?
    && s.row == row && s.lost == lost && s.entries == entries
  }

  /** Taking the lock and loading. */
  lemma LooksUp(s: State, i: int, f: Found, load: LoadOutcome) returns (end: State)
    requires i in s.cur && s.cur[i] == f.cur && i in s.phase && s.phase[i].Idle? && s.lock.None?
    requires s.row == f.row && s.now == f.now && !f.CacheUsable()
    ensures Runs(f.cfg, s, [Acquire(i), Load(i, load)], end) && end.issued == s.issued
    ensures i in end.cur && i in end.phase && end.row == s.row && end.lost == s.lost && end.entries == s.entries
    ensures end.cur[i] == if load.Undecryptable? then f.cur else f.Latest(load)
    ensures f.Asks(load) ==> end.phase[i] == Presenting(f.Latest(load).value.refresh.value)
    ensures !f.Asks(load) ==> end.phase[i].Idle? && end.lock.None?
  {
    end := Apply(f.cfg, Apply(f.cfg, s, Acquire(i)), Load(i, load));
    TwoSteps(f.cfg, s, Acquire(i), Load(i, load));
  }

  lemma AsksInVain(cfg: Config, s: State, i: int, refresh: Refresh, world: Answers) returns (end: State)
    requires i in s.cur && i in s.phase && s.phase[i] == Presenting(refresh) && world.provider.Temporary?
    ensures Runs(cfg, s, Asked(i, world, false), end)
    ensures Back(end, i, s.cur[i], s.row, s.lost, s.entries)
  {
    end := Apply(cfg, s, Present(i, world.provider));
    OneStep(cfg, s, Present(i, world.provider));
  }

  lemma IsGranted(cfg: Config, s: State, i: int, refresh: Refresh, world: Answers) returns (end: State)
    requires i in s.cur && i in s.phase && s.phase[i] == Presenting(refresh)
    requires world.provider.Granted? && Fresh(s, world.provider.rotated)
    ensures Runs(cfg, s, Asked(i, world, false), end)
    ensures var p := world.provider;
      var renewed := Some(Token(true, if p.rotated.Some? then p.rotated else Some(refresh), p.expiry));
      Back(end, i, renewed, if world.saveOk && s.row.Some? then renewed else s.row, s.lost, s.entries)
  {
    var asking, save := Present(i, world.provider), Save(i, world.saveOk);
    end := Apply(cfg, Apply(cfg, s, asking), save);
    TwoSteps(cfg, s, asking, save);
    assert [asking] + [save] == [asking, save];
  }

  lemma IsRefused(cfg: Config, s: State, i: int, refresh: Refresh, world: Answers) returns (end: State)
    requires i in s.cur && i in s.phase && s.phase[i] == Presenting(refresh) && world.provider.PermanentRefusal?
    ensures var loses := world.recheckOk && RefreshIn(s.row, {refresh});
      && Runs(cfg, s, Asked(i, world, loses), end)
      && Back(end, i, s.cur[i], s.row, s.lost || (loses && world.recordOk),
              s.entries + if loses && world.recordOk && !s.lost && world.logOk then 1 else 0)
  {
    var asking, recheck := Present(i, world.provider), Recheck(i, world.recheckOk);
    var s2 := Apply(cfg, Apply(cfg, s, asking), recheck);
    TwoSteps(cfg, s, asking, recheck);
    end := s2;
    if world.recheckOk && RefreshIn(s.row, {refresh}) {
      var record := Record(i, world.recordOk, world.logOk);
      end := Apply(cfg, s2, record);
      OneStep(cfg, s2, record);
      RunConcat(cfg, s, [asking, recheck], s2, [record], end);
      assert [asking] + ([recheck] + [record]) == [asking, recheck] + [record];
    } else {
      assert [asking] + ([recheck] + []) == [asking, recheck];
    }
  }

  lemma OneStep(cfg: Config, s: State, step: Step)
    requires Enabled(cfg, s, step)
    ensures Runs(cfg, s, [step], Apply(cfg, s, step))
  {
    var t := Apply(cfg, s, step);
    assert Runs(cfg, t, [], t);
  }

  lemma TwoSteps(cfg: Config, s: State, first: Step, second: Step)
    requires Enabled(cfg, s, first) && Enabled(cfg, Apply(cfg, s, first), second)
    ensures Runs(cfg, s, [first, second], Apply(cfg, Apply(cfg, s, first), second))
  {
    OneStep(cfg, Apply(cfg, s, first), second);
    assert [first, second][1..] == [second];
  }

  lemma {:induction false} RunConcat(cfg: Config, s: State, steps: seq<Step>, mid: State, more: seq<Step>, end: State)
    requires Runs(cfg, s, steps, mid) && Runs(cfg, mid, more, end)
    ensures Runs(cfg, s, steps + more, end)
    decreases |steps|
  {
    if steps == [] {
      assert steps + more == more;
    } else {
      RunConcat(cfg, Apply(cfg, s, steps[0]), steps[1..], mid, more, end);
      assert (steps + more)[1..] == steps[1..] + more;
    }
  }
}
