/** Meeting suggestions (backend/engine/smart_schedule.go). */
module SmartSchedule {
  import opened Options
  import opened Sorting
  import opened Intervals

  datatype Slot = Slot(at: Interval, score: int)

  const STEP := 1800
  const HOUR := 3600

  function ByScore(s: Slot): int { -s.score }

  function ByStart(s: Slot): int { s.at.start }

  /** p goes before s: no lower a score and, of slots that came in time, the
      earlier one of equal scores. */
  predicate Outranks(p: Slot, s: Slot, inTime: bool) {
    p.score >= s.score && (inTime && p.score == s.score ==> p.at.start < s.at.start)
  }

  ghost predicate Ranked(slots: seq<Slot>, inTime: bool) {
    forall i, j | 0 <= i < j < |slots| :: Outranks(slots[i], slots[j], inTime)
  }

  predicate Close(a: Slot, b: Slot, minGap: int) {
    -minGap < a.at.start - b.at.start < minGap
  }

  ghost predicate Spread(slots: seq<Slot>, minGap: int) {
    forall i, j | 0 <= i < j < |slots| :: !Close(slots[j], slots[i], minGap)
  }

  /** Why s was not picked: a picked slot before it is too close, or n slots
      before it were picked. */
  ghost predicate PassedOver(picked: seq<Slot>, s: Slot, n: nat, minGap: int, inTime: bool) {
    || Crowded(picked, s, minGap, inTime)
    || (|picked| == n && forall p | p in picked :: Outranks(p, s, inTime))
  }

  ghost predicate Crowded(picked: seq<Slot>, s: Slot, minGap: int, inTime: bool) {
    exists p | p in picked :: Close(s, p, minGap) && Outranks(p, s, inTime)
  }

  lemma CrowdedStays(picked: seq<Slot>, more: Slot, s: Slot, minGap: int, inTime: bool)
    requires Crowded(picked, s, minGap, inTime)
    ensures Crowded(picked + [more], s, minGap, inTime)
  {
    var p :| p in picked && Close(s, p, minGap) && Outranks(p, s, inTime);
    assert p in picked + [more];
  }

  /** Every slot looked at was picked or is too close to a better pick. */
  ghost predicate Settled(seen: seq<Slot>, picked: seq<Slot>, minGap: int, inTime: bool) {
    forall s | s in seen :: s in picked || Crowded(picked, s, minGap, inTime)
  }

  lemma SettledPick(seen: seq<Slot>, picked: seq<Slot>, s: Slot, minGap: int, inTime: bool)
    requires Settled(seen, picked, minGap, inTime)
    ensures Settled(seen + [s], picked + [s], minGap, inTime)
  {
    forall x | x in seen + [s] && x !in picked + [s] ensures Crowded(picked + [s], x, minGap, inTime) {
      CrowdedStays(picked, s, x, minGap, inTime);
    }
  }

  lemma SettledSkip(seen: seq<Slot>, picked: seq<Slot>, s: Slot, minGap: int, inTime: bool)
    requires Settled(seen, picked, minGap, inTime) && Crowded(picked, s, minGap, inTime)
    ensures Settled(seen + [s], picked, minGap, inTime)
  {
  }

  /** With n picks of the slots looked at, the rest are passed over. */
  lemma RestPassedOver(slots: seq<Slot>, i: nat, picked: seq<Slot>, n: nat, minGap: int, inTime: bool)
    requires Ranked(slots, inTime) && i < |slots| && |picked| == n
    requires Settled(slots[..i], picked, minGap, inTime) && forall s | s in picked :: s in slots[..i]
    ensures forall s | s in slots :: s in picked || PassedOver(picked, s, n, minGap, inTime)
  {
    BestFirst(slots, i, inTime);
    forall s | s in slots && s !in picked ensures PassedOver(picked, s, n, minGap, inTime) {
      if s in slots[..i] {
        assert Crowded(picked, s, minGap, inTime);
      }
    }
  }

  lemma RankedPick(picked: seq<Slot>, s: Slot, inTime: bool)
    requires Ranked(picked, inTime) && forall p | p in picked :: Outranks(p, s, inTime)
    ensures Ranked(picked + [s], inTime)
  {
    assert forall i | 0 <= i < |picked| :: picked[i] in picked;
  }

  /** pickTopUnique, on ranked slots. */
  method PickTopUnique(slots: seq<Slot>, n: nat, minGap: int, ghost inTime: bool) returns (result: seq<Slot>)
    requires Ranked(slots, inTime)
    ensures |result| <= n && Spread(result, minGap) && Ranked(result, inTime)
    ensures forall s | s in result :: s in slots
    ensures forall s | s in slots :: s in result || PassedOver(result, s, n, minGap, inTime)
    ensures n > 0 && slots != [] ==> result != [] && result[0] == slots[0]
  {
    result := [];
    for i := 0 to |slots|
      invariant |result| <= n && Spread(result, minGap) && Ranked(result, inTime)
      invariant forall s | s in result :: s in slots[..i]
      invariant Settled(slots[..i], result, minGap, inTime)
      invariant i == 0 ==> result == []
      invariant n > 0 && i > 0 ==> result != [] && result[0] == slots[0]
    {
      var s := slots[i];
      if |result| >= n {
        RestPassedOver(slots, i, result, n, minGap, inTime);
        return;
      }
      assert slots[..i+1] == slots[..i] + [s];
      var tooClose := AnyClose(s, result, minGap);
      BestFirst(slots, i, inTime);
      assert s in slots[i..];
      if tooClose {
        SettledSkip(slots[..i], result, s, minGap, inTime);
      } else {
        SettledPick(slots[..i], result, s, minGap, inTime);
        RankedPick(result, s, inTime);
        result := result + [s];
      }
    }
    assert slots[..|slots|] == slots;
  }

  /** An earlier slot outranks a later one. */
  lemma BestFirst(slots: seq<Slot>, i: nat, inTime: bool)
    requires Ranked(slots, inTime) && i < |slots|
    ensures forall p, s | p in slots[..i] && s in slots[i..] :: Outranks(p, s, inTime)
    ensures forall s | s in slots :: s in slots[..i] || s in slots[i..]
  {
    assert slots == slots[..i] + slots[i..];
    forall p, s | p in slots[..i] && s in slots[i..] ensures Outranks(p, s, inTime) {
      var j :| 0 <= j < i && slots[j] == p;
      var k :| i <= k < |slots| && slots[k] == s;
      assert Outranks(slots[j], slots[k], inTime);
    }
  }

  method AnyClose(s: Slot, picked: seq<Slot>, minGap: int) returns (close: bool)
    ensures close <==> exists p | p in picked :: Close(s, p, minGap)
  {
    for i := 0 to |picked|
      invariant forall k | 0 <= k < i :: !Close(s, picked[k], minGap)
    {
      var diff := s.at.start - picked[i].at.start;
      if diff < 0 {
        diff := -diff;
      }
      if diff < minGap {
        assert picked[i] in picked;
        return true;
      }
    }
    return false;
  }

  // ---- candidates ----

  /** The caller's rules for a start: the work window and lunch of its day (None
      when there is none), whether hours may be exceeded, and the score. */
  datatype Rules = Rules(work: int -> Option<Interval>, lunch: int -> Option<Interval>, outOfHours: bool,
                         score: Interval -> int)

  predicate Permitted(rules: Rules, iv: Interval) {
    && (rules.outOfHours || (rules.work(iv.start).Some? && Inside(iv, rules.work(iv.start).value)))
    && (rules.lunch(iv.start).Some? ==> !Overlap(iv, rules.lunch(iv.start).value))
  }

  predicate StepOf(f: Interval, length: int, iv: Interval) {
    f.start <= iv.start && (iv.start - f.start) % STEP == 0 && iv.end == iv.start + length && iv.end <= f.end
  }

  /** A permitted half-hour step of a free block, with its score. */
  ghost predicate Candidate(free: seq<Interval>, length: int, rules: Rules, s: Slot) {
    Permitted(rules, s.at) && s.score == rules.score(s.at) && exists f | f in free :: StepOf(f, length, s.at)
  }

  method CandidatesIn(f: Interval, length: int, rules: Rules) returns (slots: seq<Slot>)
    ensures forall s :: s in slots <==> Candidate([f], length, rules, s)
    ensures Rising(ByStart, slots)
  {
    slots := [];
    assert f in [f];
    var t := f.start;
    while t + length <= f.end
      invariant t >= f.start && (t - f.start) % STEP == 0
      invariant Rising(ByStart, slots)
      invariant forall s :: s in slots <==> Candidate([f], length, rules, s) && s.at.start < t
      decreases f.end - t - length
    {
      var end := t + length;
      var work := rules.work(t);
      var outsideWork := work.None? || t < work.value.start || end > work.value.end;
      if outsideWork && !rules.outOfHours {
        t := t + STEP;
        continue;
      }
      var lunch := rules.lunch(t);
      if lunch.Some? && t < lunch.value.end && end > lunch.value.start {
        t := t + STEP;
        continue;
      }
      slots := slots + [Slot(Interval(t, end), rules.score(Interval(t, end)))];
      t := t + STEP;
    }
  }

  /** Suggest: at most three slots an hour apart, each a permitted step clear of
      all busy time, the best first and, busy time being sane, the earlier one of
      equals; a candidate is left out only for being too close to a suggested one
      before it, or when three before it are found. */
  method Suggest(busy: seq<Interval>, range: Interval, minutes: int, rules: Rules) returns (top: seq<Slot>)
    ensures |top| <= 3 && Ranked(top, Sane(busy, range, minutes))
    ensures forall i, j | 0 <= i < j < |top| ::
      top[i].at.start + 3600 <= top[j].at.start || top[j].at.start + 3600 <= top[i].at.start
    ensures forall s | s in top :: Candidate(Subtract(range, Merge(busy)), minutes * 60, rules, s)
    ensures forall s | Candidate(Subtract(range, Merge(busy)), minutes * 60, rules, s) && s !in top ::
      || (|top| == 3 && forall p | p in top :: Outranks(p, s, Sane(busy, range, minutes)))
      || exists p | p in top ::
           -3600 < s.at.start - p.at.start < 3600 && Outranks(p, s, Sane(busy, range, minutes))
    ensures forall s | Candidate(Subtract(range, Merge(busy)), minutes * 60, rules, s) ::
      top != [] && (s == top[0] || Outranks(top[0], s, Sane(busy, range, minutes)))
  {
    var merged := Merged(busy);
    var free := SubtractIntervals(range, merged);
    ghost var sane := Sane(busy, range, minutes);
    if sane {
      MergeIsCanonical(busy, 0);
      SubtractPieces(range, merged);
    }
    var slots := AllCandidates(free, minutes * 60, rules);
    var sorted := SortedByScore(slots, sane);
    top := PickTopUnique(sorted, 3, HOUR, sane);
    FirstIsBest(sorted, sane);
    assert forall s | s in slots && s !in top :: PassedOver(top, s, 3, 3600, sane);
  }

  /** sortSlotsByScore. */
  method SortedByScore(slots: seq<Slot>, ghost inTime: bool) returns (sorted: seq<Slot>)
    requires inTime ==> Rising(ByStart, slots)
    ensures Ranked(sorted, inTime) && forall s :: s in sorted <==> s in slots
  {
    var a := new Slot[|slots|](i requires 0 <= i < |slots| => slots[i]);
    assert a[..] == slots;
    InsertionSort(a, ByScore);
    SortMembers(ByScore, slots);
    SortIsRanked(slots, inTime);
    return a[..];
  }

  lemma FirstIsBest(sorted: seq<Slot>, inTime: bool)
    requires Ranked(sorted, inTime)
    ensures forall s | s in sorted :: s == sorted[0] || Outranks(sorted[0], s, inTime)
  {
    forall s | s in sorted ensures s == sorted[0] || Outranks(sorted[0], s, inTime) {
      var k :| 0 <= k < |sorted| && sorted[k] == s;
      assert k > 0 ==> Outranks(sorted[0], sorted[k], inTime);
    }
  }

  /** Busy time that does not end before it starts, for a meeting of some length. */
  ghost predicate Sane(busy: seq<Interval>, range: Interval, minutes: int) {
    WellFormed(busy) && range.start < range.end && minutes > 0
  }

  lemma SortIsRanked(slots: seq<Slot>, inTime: bool)
    requires inTime ==> Rising(ByStart, slots)
    ensures Ranked(Sort(ByScore, slots), inTime)
  {
    SortInTurn(ByScore, ByStart, slots, inTime);
    var sorted := Sort(ByScore, slots);
    forall i, j | 0 <= i < j < |sorted| ensures Outranks(sorted[i], sorted[j], inTime) {
      assert Ahead(ByScore, ByStart, sorted[i], sorted[j], inTime);
    }
  }

  method AllCandidates(free: seq<Interval>, length: int, rules: Rules) returns (slots: seq<Slot>)
    ensures forall s :: s in slots <==> Candidate(free, length, rules, s)
    ensures length > 0 && Pieces(free) ==> Rising(ByStart, slots)
  {
    slots := [];
    for i := 0 to |free|
      invariant forall s :: s in slots <==> Candidate(free[..i], length, rules, s)
      invariant length > 0 && Pieces(free) ==> Rising(ByStart, slots)
    {
      assert free[..i+1] == free[..i] + [free[i]];
      var more := CandidatesIn(free[i], length, rules);
      forall s
        ensures Candidate(free[..i+1], length, rules, s) <==>
          Candidate(free[..i], length, rules, s) || Candidate([free[i]], length, rules, s)
      {
        CandidateSplit(free[..i], free[i], length, rules, s);
      }
      if length > 0 && Pieces(free) {
        StaysRising(slots, more, free, i, length, rules);
      }
      slots := slots + more;
    }
    assert free[..|free|] == free;
  }

  /** The candidates of the next piece come after those of the pieces before. */
  lemma StaysRising(slots: seq<Slot>, more: seq<Slot>, free: seq<Interval>, i: nat, length: int, rules: Rules)
    requires length > 0 && Pieces(free) && i < |free| && Rising(ByStart, slots) && Rising(ByStart, more)
    requires forall s :: s in slots <==> Candidate(free[..i], length, rules, s)
    requires forall s :: s in more <==> Candidate([free[i]], length, rules, s)
    ensures Rising(ByStart, slots + more)
  {
    forall s, t | s in slots && t in more ensures s.at.start < t.at.start {
      var f :| f in free[..i] && StepOf(f, length, s.at);
      var k :| 0 <= k < i && free[k] == f;
      assert free[k].end <= free[i].start;
    }
    var all := slots + more;
    forall k, l | 0 <= k < l < |all| ensures ByStart(all[k]) < ByStart(all[l]) {
      if k < |slots| <= l {
        assert all[k] in slots && all[l] in more;
      } else if l < |slots| {
        assert ByStart(slots[k]) < ByStart(slots[l]);
      } else {
        assert ByStart(more[k-|slots|]) < ByStart(more[l-|slots|]);
      }
    }
  }

  lemma CandidateSplit(free: seq<Interval>, f: Interval, length: int, rules: Rules, s: Slot)
    ensures Candidate(free + [f], length, rules, s) <==>
      Candidate(free, length, rules, s) || Candidate([f], length, rules, s)
  {
    assert f in [f] && f in free + [f];
  }

  /** The rules in their own terms: inside that day's work hours unless they may
      be exceeded, and clear of that day's lunch. */
  ghost predicate Allowed(rules: Rules, iv: Interval) {
    && (rules.outOfHours ||
          (rules.work(iv.start).Some? && rules.work(iv.start).value.start <= iv.start
           && iv.end <= rules.work(iv.start).value.end))
    && (rules.lunch(iv.start).Some? ==>
          iv.end <= rules.lunch(iv.start).value.start || rules.lunch(iv.start).value.end <= iv.start)
  }

  /** A candidate in the request's own terms: whole half hours after the start of
      a gap in the busy time that lasts until its end, of the asked length,
      allowed and with its own score. */
  lemma CandidateExactly(busy: seq<Interval>, range: Interval, minutes: int, rules: Rules, s: Slot)
    requires Sane(busy, range, minutes)
    ensures Candidate(Subtract(range, Merge(busy)), minutes * 60, rules, s) <==>
      && s.at.end == s.at.start + minutes * 60 && Allowed(rules, s.at) && s.score == rules.score(s.at)
      && exists origin :: HalfHours(origin, s.at.start) && FreeFrom(range, busy, origin, s.at.end)
  {
    var free := Subtract(range, Merge(busy));
    if f :| f in free && StepOf(f, minutes * 60, s.at) {
      assert PieceFrom(free, f.start, s.at.end);
      PieceStartsExactly(range, busy, f.start, s.at.end);
      assert HalfHours(f.start, s.at.start);
    }
    if origin :| HalfHours(origin, s.at.start) && FreeFrom(range, busy, origin, s.at.end) {
      if s.at.end == s.at.start + minutes * 60 {
        PieceStartsExactly(range, busy, origin, s.at.end);
        var f :| f in free && f.start == origin && s.at.end <= f.end;
        assert StepOf(f, minutes * 60, s.at);
      }
    }
  }

  predicate HalfHours(origin: int, start: int) { origin <= start && (start - origin) % 1800 == 0 }

  /** A suggestion for a meeting of some length overlaps nothing busy and stays
      in the range asked for. */
  lemma CandidateIsClear(busy: seq<Interval>, range: Interval, length: int, rules: Rules, s: Slot)
    requires length > 0 && Candidate(Subtract(range, Merge(busy)), length, rules, s)
    ensures s.at.end - s.at.start == length && Inside(s.at, range) && !OverlapsAny(s.at, busy)
  {
    var f :| f in Subtract(range, Merge(busy)) && StepOf(f, length, s.at);
    assert Inside(s.at, f);
    FreeExactly(range, busy, s.at);
  }
}
