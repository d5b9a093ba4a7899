/** Meeting compression: the moves suggested for one day
    (backend/engine/compression.go), with its slices as values. */
module Compression {
  import opened Options
  import opened Intervals

  datatype Meeting = Meeting(id: string, times: Option<Interval>, organizerSelf: bool, transparent: bool,
                             hasAttendees: bool)

  /** A meeting placed on the day. */
  datatype Placed = Placed(meeting: Meeting, at: Interval)

  datatype Proposal = Proposal(id: string, current: Interval, proposed: Interval, gain: int)

  predicate Near(m: Meeting, work: Interval) {
    m.times.Some? && !(m.times.value.end < work.start) && !(m.times.value.start > work.end)
  }

  predicate Moveable(m: Meeting) { m.organizerSelf && !m.transparent }

  function Classify(events: seq<Meeting>, work: Interval, moveable: bool): seq<Placed> {
    if events == [] then []
    else
      var m := events[|events|-1];
      Classify(events[..|events|-1], work, moveable) +
      if Near(m, work) && Moveable(m) == moveable then [Placed(m, m.times.value)] else []
  }

  /** classifyEvents. */
  method ClassifyEvents(events: seq<Meeting>, work: Interval) returns (moveable: seq<Placed>, fixed: seq<Placed>)
    ensures moveable == Classify(events, work, true) && fixed == Classify(events, work, false)
  {
    moveable, fixed := [], [];
    for i := 0 to |events|
      invariant moveable == Classify(events[..i], work, true) && fixed == Classify(events[..i], work, false)
    {
      var m := events[i];
      assert events[..i+1][..i] == events[..i];
      if m.times.None? || m.times.value.end < work.start || m.times.value.start > work.end {
        continue;
      }
      if m.organizerSelf && !m.transparent {
        moveable := moveable + [Placed(m, m.times.value)];
      } else {
        fixed := fixed + [Placed(m, m.times.value)];
      }
    }
    assert events[..|events|] == events;
  }

  lemma {:induction false} Classified(events: seq<Meeting>, work: Interval, moveable: bool, p: Placed)
    ensures p in Classify(events, work, moveable) <==>
      p.meeting in events && Near(p.meeting, work) && Moveable(p.meeting) == moveable && p.at == p.meeting.times.value
  {
    if events != [] {
      assert events == events[..|events|-1] + [events[|events|-1]];
      Classified(events[..|events|-1], work, moveable, p);
    }
  }

  /** In the order of the events. */
  lemma {:induction false} ClassifiedInOrder(events: seq<Meeting>, work: Interval, moveable: bool, i: nat, j: nat)
    returns (k: nat, l: nat)
    requires i < j < |Classify(events, work, moveable)|
    ensures k < l < |events|
    ensures Classify(events, work, moveable)[i].meeting == events[k]
    ensures Classify(events, work, moveable)[j].meeting == events[l]
  {
    var init := events[..|events|-1];
    if j < |Classify(init, work, moveable)| {
      k, l := ClassifiedInOrder(init, work, moveable, i, j);
    } else {
      assert Classify(events, work, moveable)[i] in Classify(init, work, moveable);
      Classified(init, work, moveable, Classify(events, work, moveable)[i]);
      k :| 0 <= k < |init| && init[k] == Classify(init, work, moveable)[i].meeting;
      l := |events| - 1;
    }
  }

  function Times(placed: seq<Placed>): seq<Interval> {
    seq(|placed|, i requires 0 <= i < |placed| => placed[i].at)
  }

  function TimesExcept(placed: seq<Placed>, id: string): seq<Interval> {
    if placed == [] then []
    else TimesExcept(placed[..|placed|-1], id) +
         if placed[|placed|-1].meeting.id != id then [placed[|placed|-1].at] else []
  }

  lemma {:induction false} TimesExceptHolds(placed: seq<Placed>, id: string, iv: Interval)
    ensures iv in TimesExcept(placed, id) <==> exists p | p in placed :: p.meeting.id != id && p.at == iv
  {
    if placed != [] {
      assert placed == placed[..|placed|-1] + [placed[|placed|-1]];
      TimesExceptHolds(placed[..|placed|-1], id, iv);
    }
  }

  /** The day a proposal is judged on. */
  datatype Day = Day(work: Interval, lunch: Option<Interval>, moveable: seq<Placed>, fixed: seq<Placed>)

  function Lunch(day: Day): seq<Interval> { if day.lunch.Some? then [day.lunch.value] else [] }

  function BusyNow(day: Day): seq<Interval> { Times(day.moveable + day.fixed) + Lunch(day) }

  /** Everything but the meetings with this id, lunch included. */
  function Others(day: Day, id: string): seq<Interval> {
    TimesExcept(day.moveable, id) + (Times(day.fixed) + Lunch(day))
  }

  function Moved(mv: Placed, start: int): Interval { Interval(start, start + Length(mv.at)) }

  ghost function Gain(day: Day, mv: Placed, start: int): int {
    Minutes(LargestGap(day.work, Others(day, mv.meeting.id) + [Moved(mv, start)]) - LargestGap(day.work, BusyNow(day)))
  }

  /** What the calendar answers: whether attendees are free, and whether a
      candidate at a meeting's own start is the very same Go value, location
      included, as that start (by the candidate's place in the list). */
  datatype Calendar = Calendar(attendeesFree: (Meeting, Interval) -> bool, sameValue: (Meeting, nat) -> bool)

  /** A start worth proposing. */
  ghost predicate Worth(day: Day, mv: Placed, cal: Calendar, start: int) {
    && start + Length(mv.at) <= day.work.end
    && !OverlapsAny(Moved(mv, start), Others(day, mv.meeting.id))
    && (mv.meeting.hasAttendees ==> cal.attendeesFree(mv.meeting, Moved(mv, start)))
    && Gain(day, mv, start) > 30
  }

  /** The starts next to the others: right after one, or ending where one begins
      unless that is before work. */
  predicate Adjacent(others: seq<Interval>, work: Interval, length: int, start: int) {
    || start == work.start
    || exists o | o in others :: start == o.end || (start == o.start - length && start >= work.start)
  }

  /** Them in the order they are tried. */
  function Positions(others: seq<Interval>, work: Interval, length: int): seq<int> {
    if others == [] then [work.start]
    else
      var o := others[|others|-1];
      Positions(others[..|others|-1], work, length) + [o.end] +
      if o.start - length >= work.start then [o.start - length] else []
  }

  lemma {:induction false} PositionsAdjacent(others: seq<Interval>, work: Interval, length: int, start: int)
    ensures start in Positions(others, work, length) <==> Adjacent(others, work, length, start)
  {
    if others != [] {
      var init, o := others[..|others|-1], others[|others|-1];
      assert others == init + [o];
      PositionsAdjacent(init, work, length, start);
    }
  }

  /** Where the k-th interval's positions are: its end, then the place before it
      unless that is before work. */
  lemma {:induction false} PositionsAt(others: seq<Interval>, work: Interval, length: int, k: nat)
    requires k < |others|
    ensures var all, at := Positions(others, work, length), |Positions(others[..k], work, length)|;
      && 1 <= at < |all| && all[0] == work.start && all[at] == others[k].end
      && |Positions(others[..k+1], work, length)| <= |all|
      && |Positions(others[..k+1], work, length)| == at + (if others[k].start - length >= work.start then 2 else 1)
      && (others[k].start - length >= work.start ==> all[at+1] == others[k].start - length)
  {
    var n := |others| - 1;
    assert others[..k+1][..k] == others[..k];
    if k < n {
      PositionsAt(others[..n], work, length, k);
      assert others[..n][..k] == others[..k] && others[..n][..k+1] == others[..k+1];
    } else {
      assert others[..k+1] == others;
      PositionsStart(others[..n], work, length);
    }
  }

  lemma {:induction false} PositionsStart(others: seq<Interval>, work: Interval, length: int)
    ensures |Positions(others, work, length)| >= 1 && Positions(others, work, length)[0] == work.start
  {
    if others != [] { PositionsStart(others[..|others|-1], work, length); }
  }

  lemma {:induction false} PositionsGrow(others: seq<Interval>, work: Interval, length: int, j: nat, k: nat)
    requires j <= k <= |others|
    ensures |Positions(others[..j], work, length)| <= |Positions(others[..k], work, length)|
  {
    if j < k {
      PositionsGrow(others, work, length, j, k - 1);
      assert others[..k][..k-1] == others[..k-1];
    }
  }

  /** The order tried: the start of work first, then interval by interval the
      place right after it and, where there is room, right before it. */
  lemma PositionsInOrder(others: seq<Interval>, work: Interval, length: int, j: nat, k: nat) returns (a: nat, b: nat)
    requires j < k < |others|
    ensures var all := Positions(others, work, length);
      && 0 < a < b < |all| && all[0] == work.start && all[a] == others[j].end && all[b] == others[k].end
      && (others[j].start - length >= work.start ==> a + 1 < b && all[a+1] == others[j].start - length)
      && (others[k].start - length >= work.start ==> b + 1 < |all| && all[b+1] == others[k].start - length)
  {
    a, b := |Positions(others[..j], work, length)|, |Positions(others[..k], work, length)|;
    PositionsAt(others, work, length, j);
    PositionsAt(others, work, length, k);
    PositionsGrow(others, work, length, j + 1, k);
  }

  /** generateAdjacentPositions. */
  method AdjacentPositions(others: seq<Interval>, fixed: seq<Interval>, work: Interval, length: int)
    returns (positions: seq<int>)
    ensures positions == Positions(others + fixed, work, length)
    ensures forall start :: start in positions <==> Adjacent(others + fixed, work, length, start)
  {
    positions := [work.start];
    var all := others + fixed;
    for i := 0 to |all|
      invariant positions == Positions(all[..i], work, length)
    {
      assert all[..i+1][..i] == all[..i];
      positions := positions + [all[i].end];
      var t := all[i].start - length;
      if t >= work.start {
        positions := positions + [t];
      }
    }
    assert all[..|all|] == all;
    forall start {
      PositionsAdjacent(all, work, length, start);
    }
  }

  function Candidates(day: Day, mv: Placed): seq<int> {
    Positions(Others(day, mv.meeting.id), day.work, Length(mv.at))
  }

  /** The i-th candidate is worth proposing and is not passed over as the
      meeting's own start. */
  ghost predicate Accepts(day: Day, mv: Placed, cal: Calendar, i: nat) {
    && i < |Candidates(day, mv)|
    && !(Candidates(day, mv)[i] == mv.at.start && cal.sameValue(mv.meeting, i))
    && Worth(day, mv, cal, Candidates(day, mv)[i])
  }

  ghost predicate FirstAccepted(day: Day, mv: Placed, cal: Calendar, i: nat) {
    Accepts(day, mv, cal, i) && forall k: nat | k < i :: !Accepts(day, mv, cal, k)
  }

  /** One start: its gain when it is worth proposing. */
  method TryStart(day: Day, mv: Placed, others: seq<Interval>, currentLargest: int, cal: Calendar, start: int)
    returns (gain: Option<int>)
    requires currentLargest == LargestGap(day.work, BusyNow(day)) && others == Others(day, mv.meeting.id)
    ensures gain.Some? <==> Worth(day, mv, cal, start)
    ensures gain.Some? ==> gain.value == Gain(day, mv, start)
  {
    var proposed := Interval(start, start + Length(mv.at));
    if proposed.end > day.work.end {
      return None;
    }
    var hit := OverlapScan(proposed, others);
    if hit {
      return None;
    }
    if mv.meeting.hasAttendees && !cal.attendeesFree(mv.meeting, proposed) {
      return None;
    }
    assert proposed == Moved(mv, start);
    var newLargest := FindLargestGap(day.work, others + [proposed]);
    var g := Minutes(newLargest - currentLargest);
    return if g > 30 then Some(g) else None;
  }

  ghost function ProposalAt(day: Day, mv: Placed, start: int): Proposal {
    Proposal(mv.meeting.id, mv.at, Moved(mv, start), Gain(day, mv, start))
  }

  /** The proposal for a meeting: its first acceptable candidate, if there is one. */
  ghost function Suggestion(day: Day, mv: Placed, cal: Calendar): Option<Proposal> {
    if i: nat :| FirstAccepted(day, mv, cal, i) then Some(ProposalAt(day, mv, Candidates(day, mv)[i])) else None
  }

  lemma SuggestionAt(day: Day, mv: Placed, cal: Calendar, i: nat)
    requires FirstAccepted(day, mv, cal, i)
    ensures Suggestion(day, mv, cal) == Some(ProposalAt(day, mv, Candidates(day, mv)[i]))
  {
    assert forall k: nat | FirstAccepted(day, mv, cal, k) :: k == i by {
      forall k: nat | FirstAccepted(day, mv, cal, k) ensures k == i {
        assert !(k < i) && !(i < k);
      }
    }
  }

  /** A meeting with an acceptable candidate gets a proposal. */
  lemma {:induction false} SuggestedWhenAccepted(day: Day, mv: Placed, cal: Calendar, i: nat)
    requires Accepts(day, mv, cal, i)
    ensures Suggestion(day, mv, cal).Some?
  {
    if k: nat :| k < i && Accepts(day, mv, cal, k) {
      SuggestedWhenAccepted(day, mv, cal, k);
    } else {
      SuggestionAt(day, mv, cal, i);
    }
  }

  /** One meeting's turn. */
  method SuggestMove(day: Day, mv: Placed, currentLargest: int, cal: Calendar) returns (r: Option<Proposal>)
    requires currentLargest == LargestGap(day.work, BusyNow(day))
    ensures r == Suggestion(day, mv, cal)
  {
    var otherFixed := Times(day.fixed);
    var otherMoveable := TimesExcept(day.moveable, mv.meeting.id);
    if day.lunch.Some? {
      otherFixed := otherFixed + [day.lunch.value];
    }
    var others := otherMoveable + otherFixed;
    assert others == Others(day, mv.meeting.id);
    var candidates := AdjacentPositions(otherMoveable, otherFixed, day.work, Length(mv.at));
    for i := 0 to |candidates|
      invariant forall k: nat | k < i :: !Accepts(day, mv, cal, k)
    {
      var start := candidates[i];
      if start == mv.at.start && cal.sameValue(mv.meeting, i) {
        continue;
      }
      var gain := TryStart(day, mv, others, currentLargest, cal, start);
      if gain.Some? {
        SuggestionAt(day, mv, cal, i);
        return Some(Proposal(mv.meeting.id, mv.at, Moved(mv, start), gain.value));
      }
    }
    return None;
  }

  /** The proposals of some moveable meetings, in their order. */
  ghost function Suggestions(day: Day, moveable: seq<Placed>, cal: Calendar): seq<Proposal> {
    if moveable == [] then []
    else
      var r := Suggestion(day, moveable[|moveable|-1], cal);
      Suggestions(day, moveable[..|moveable|-1], cal) + if r.Some? then [r.value] else []
  }

  lemma {:induction false} SuggestionsHold(day: Day, moveable: seq<Placed>, cal: Calendar, p: Proposal)
    ensures p in Suggestions(day, moveable, cal) <==> exists mv | mv in moveable :: Suggestion(day, mv, cal) == Some(p)
  {
    if moveable != [] {
      assert moveable == moveable[..|moveable|-1] + [moveable[|moveable|-1]];
      SuggestionsHold(day, moveable[..|moveable|-1], cal, p);
    }
  }

  lemma SuggestionFrom(day: Day, moveable: seq<Placed>, cal: Calendar, i: nat) returns (k: nat)
    requires i < |Suggestions(day, moveable, cal)|
    ensures k < |moveable| && Suggestion(day, moveable[k], cal) == Some(Suggestions(day, moveable, cal)[i])
  {
    var p := Suggestions(day, moveable, cal)[i];
    SuggestionsHold(day, moveable, cal, p);
    var mv :| mv in moveable && Suggestion(day, mv, cal) == Some(p);
    k :| 0 <= k < |moveable| && moveable[k] == mv;
  }

  /** Proposals come in the order of their meetings. */
  lemma {:induction false} SuggestionsInOrder(day: Day, moveable: seq<Placed>, cal: Calendar, i: nat, j: nat)
    returns (k: nat, l: nat)
    requires i < j < |Suggestions(day, moveable, cal)|
    ensures k < l < |moveable|
    ensures Suggestion(day, moveable[k], cal) == Some(Suggestions(day, moveable, cal)[i])
    ensures Suggestion(day, moveable[l], cal) == Some(Suggestions(day, moveable, cal)[j])
  {
    var init := moveable[..|moveable|-1];
    var before := Suggestions(day, init, cal);
    if j < |before| {
      assert Suggestions(day, moveable, cal)[i] == before[i] && Suggestions(day, moveable, cal)[j] == before[j];
      k, l := SuggestionsInOrder(day, init, cal, i, j);
      assert init[k] == moveable[k] && init[l] == moveable[l];
    } else {
      assert Suggestions(day, moveable, cal)[i] == before[i];
      k := SuggestionFrom(day, init, cal, i);
      assert init[k] == moveable[k];
      l := |moveable| - 1;
    }
  }

  /** A meeting has a proposal exactly when some adjacent start is acceptable. */
  lemma SuggestedExactly(day: Day, mv: Placed, cal: Calendar)
    ensures Suggestion(day, mv, cal).Some? <==> exists i: nat :: Accepts(day, mv, cal, i)
  {
    if i: nat :| Accepts(day, mv, cal, i) {
      SuggestedWhenAccepted(day, mv, cal, i);
    }
  }

  /** No meeting with an acceptable move is left out. */
  lemma EveryMoveProposed(day: Day, cal: Calendar, mv: Placed, i: nat)
    requires mv in day.moveable && Accepts(day, mv, cal, i)
    ensures Suggestion(day, mv, cal).Some? && Suggestion(day, mv, cal).value in Suggestions(day, day.moveable, cal)
  {
    SuggestedExactly(day, mv, cal);
    SuggestionsHold(day, day.moveable, cal, Suggestion(day, mv, cal).value);
  }

  /** Intervals that block the same leave the same largest gap. */
  lemma SameGap(whole: Interval, a: seq<Interval>, b: seq<Interval>)
    requires forall iv :: iv in a <==> iv in b
    ensures LargestGap(whole, a) == LargestGap(whole, b)
  {
    assert forall iv :: OverlapsAny(iv, a) <==> OverlapsAny(iv, b);
    LargestGapUnique(whole, a, LargestGap(whole, a), LargestGap(whole, b));
  }

  /** The moveable meetings with this id are all at this place. */
  ghost predicate AloneWithId(day: Day, id: string, at: Interval) {
    forall p | p in day.moveable && p.meeting.id == id :: p.at == at
  }

  /** A meeting's own start gains nothing, so it is never proposed even when its
      Go value differs, unless another moveable meeting shares its id. */
  lemma OwnStartGainsNothing(day: Day, mv: Placed)
    requires mv in day.moveable && AloneWithId(day, mv.meeting.id, mv.at)
    ensures Gain(day, mv, mv.at.start) == 0
  {
    var id, again := mv.meeting.id, Others(day, mv.meeting.id) + [mv.at];
    assert Moved(mv, mv.at.start) == mv.at;
    forall iv ensures iv in again <==> iv in BusyNow(day) {
      TimesExceptHolds(day.moveable, id, iv);
      TimesHolds(day.moveable, iv);
      TimesHolds(day.fixed, iv);
      assert Times(day.moveable + day.fixed) == Times(day.moveable) + Times(day.fixed);
    }
    SameGap(day.work, again, BusyNow(day));
  }

  lemma TimesHolds(placed: seq<Placed>, iv: Interval)
    ensures iv in Times(placed) <==> exists p | p in placed :: p.at == iv
  {
    if p :| p in placed && p.at == iv {
      InTimes(placed, p);
    }
    if iv in Times(placed) {
      var i :| 0 <= i < |placed| && Times(placed)[i] == iv;
      assert placed[i] in placed;
    }
  }

  predicate LunchBeforeWork(lunch: Option<Interval>, work: Interval) {
    lunch.Some? && lunch.value.end < work.start
  }

  function TotalGain(proposals: seq<Proposal>): int {
    if proposals == [] then 0 else TotalGain(proposals[..|proposals|-1]) + proposals[|proposals|-1].gain
  }

  lemma GainAppends(proposals: seq<Proposal>, p: Proposal)
    ensures TotalGain(proposals + [p]) == TotalGain(proposals) + p.gain
  {
    assert (proposals + [p])[..|proposals|] == proposals;
  }

  /** The total is the sum: of two lists one after the other, of one proposal. */
  lemma {:induction false} GainsAdd(a: seq<Proposal>, b: seq<Proposal>, p: Proposal)
    ensures TotalGain(a + b) == TotalGain(a) + TotalGain(b) && TotalGain([p]) == p.gain
  {
    assert [p][..0] == [];
    if b == [] {
      assert a + b == a;
    } else {
      GainsAdd(a, b[..|b|-1], p);
      GainAppends(a + b[..|b|-1], b[|b|-1]);
      assert a + b == (a + b[..|b|-1]) + [b[|b|-1]];
    }
  }

  function DayOf(events: seq<Meeting>, work: Interval, lunch: Option<Interval>): Day {
    Day(work, lunch, Classify(events, work, true), Classify(events, work, false))
  }

  /** The new place keeps the length, inside work hours. */
  predicate WellPlaced(work: Interval, lunch: Option<Interval>, p: Proposal) {
    && Length(p.proposed) == Length(p.current)
    && (!LunchBeforeWork(lunch, work) ==> Inside(p.proposed, work))
  }

  /** It overlaps neither lunch nor any other meeting of the day. */
  ghost predicate ClearOfOthers(events: seq<Meeting>, work: Interval, lunch: Option<Interval>, p: Proposal) {
    && (lunch.Some? ==> !Overlap(p.proposed, lunch.value))
    && forall o | o in events && Near(o, work) && (o.id != p.id || !Moveable(o)) :: !Overlap(p.proposed, o.times.value)
  }

  /** The day's largest free gap grows by more than thirty minutes. */
  ghost predicate GapGrows(day: Day, p: Proposal) {
    var before, after := LargestGap(day.work, BusyNow(day)), LargestGap(day.work, Others(day, p.id) + [p.proposed]);
    p.gain == Minutes(after - before) && after - before >= 31 * 60
  }

  /** What one proposal, applied alone, promises. */
  ghost predicate Sound(events: seq<Meeting>, work: Interval, lunch: Option<Interval>, cal: Calendar, p: Proposal) {
    && WellPlaced(work, lunch, p) && ClearOfOthers(events, work, lunch, p) && GapGrows(DayOf(events, work, lunch), p)
    && (AloneWithId(DayOf(events, work, lunch), p.id, p.current) ==> p.proposed.start != p.current.start)
    && exists m | m in events ::
      Near(m, work) && Moveable(m) && m.id == p.id && m.times.value == p.current &&
      (m.hasAttendees ==> cal.attendeesFree(m, p.proposed))
  }

  lemma OthersInclude(events: seq<Meeting>, work: Interval, lunch: Option<Interval>, id: string, o: Meeting)
    requires o in events && Near(o, work) && (o.id != id || !Moveable(o))
    ensures o.times.value in Others(DayOf(events, work, lunch), id)
  {
    var day, placed := DayOf(events, work, lunch), Placed(o, o.times.value);
    Classified(events, work, Moveable(o), placed);
    TimesExceptHolds(day.moveable, id, o.times.value);
    InTimes(day.fixed, placed);
  }

  lemma OthersClear(events: seq<Meeting>, work: Interval, lunch: Option<Interval>, p: Proposal)
    requires !OverlapsAny(p.proposed, Others(DayOf(events, work, lunch), p.id))
    ensures ClearOfOthers(events, work, lunch, p)
  {
    var day := DayOf(events, work, lunch);
    forall o | o in events && Near(o, work) && (o.id != p.id || !Moveable(o))
      ensures !Overlap(p.proposed, o.times.value)
    {
      OthersInclude(events, work, lunch, p.id, o);
    }
    if lunch.Some? {
      assert lunch.value in Lunch(day) && lunch.value in Others(day, p.id);
    }
  }

  lemma CandidateInWork(events: seq<Meeting>, work: Interval, lunch: Option<Interval>, mv: Placed, start: int)
    requires !LunchBeforeWork(lunch, work) && start in Candidates(DayOf(events, work, lunch), mv)
    ensures start >= work.start
  {
    var day := DayOf(events, work, lunch);
    var others := Others(day, mv.meeting.id);
    PositionsAdjacent(others, work, Length(mv.at), start);
    if o :| o in others && start == o.end {
      OthersNear(events, work, lunch, day, mv.meeting.id, o);
    }
  }

  lemma SuggestedIsSound(events: seq<Meeting>, work: Interval, lunch: Option<Interval>, cal: Calendar, mv: Placed)
    requires mv in Classify(events, work, true) && Suggestion(DayOf(events, work, lunch), mv, cal).Some?
    ensures Sound(events, work, lunch, cal, Suggestion(DayOf(events, work, lunch), mv, cal).value)
  {
    var day := DayOf(events, work, lunch);
    var i: nat :| FirstAccepted(day, mv, cal, i);
    SuggestionAt(day, mv, cal, i);
    WorthIsSound(events, work, lunch, cal, mv, Candidates(day, mv)[i]);
  }

  lemma GainGrows(day: Day, mv: Placed, start: int)
    requires Gain(day, mv, start) > 30
    ensures GapGrows(day, ProposalAt(day, mv, start))
  {
  }

  lemma WorthIsSound(events: seq<Meeting>, work: Interval, lunch: Option<Interval>, cal: Calendar, mv: Placed,
                     start: int)
    requires mv in Classify(events, work, true) && start in Candidates(DayOf(events, work, lunch), mv)
    requires Worth(DayOf(events, work, lunch), mv, cal, start)
    ensures Sound(events, work, lunch, cal, ProposalAt(DayOf(events, work, lunch), mv, start))
  {
    var day := DayOf(events, work, lunch);
    var p := ProposalAt(day, mv, start);
    Classified(events, work, true, mv);
    assert Near(mv.meeting, work) && Moveable(mv.meeting) && mv.meeting.times.value == p.current;
    OthersClear(events, work, lunch, p);
    GainGrows(day, mv, start);
    if !LunchBeforeWork(lunch, work) {
      CandidateInWork(events, work, lunch, mv, start);
    }
    if AloneWithId(day, p.id, p.current) {
      OwnStartGainsNothing(day, mv);
    }
  }

  lemma SuggestionsAreSound(events: seq<Meeting>, work: Interval, lunch: Option<Interval>, cal: Calendar)
    ensures forall p | p in Suggestions(DayOf(events, work, lunch), Classify(events, work, true), cal) ::
      Sound(events, work, lunch, cal, p)
  {
    var day, moveable := DayOf(events, work, lunch), Classify(events, work, true);
    forall p | p in Suggestions(day, moveable, cal) ensures Sound(events, work, lunch, cal, p) {
      SuggestionsHold(day, moveable, cal, p);
      var mv :| mv in moveable && Suggestion(day, mv, cal) == Some(p);
      SuggestedIsSound(events, work, lunch, cal, mv);
    }
  }

  lemma InTimes(placed: seq<Placed>, p: Placed)
    ensures p in placed ==> p.at in Times(placed)
  {
    if p in placed {
      var i :| 0 <= i < |placed| && placed[i] == p;
      assert Times(placed)[i] == p.at;
    }
  }

  lemma OthersNear(events: seq<Meeting>, work: Interval, lunch: Option<Interval>, day: Day, id: string, o: Interval)
    requires day == Day(work, lunch, Classify(events, work, true), Classify(events, work, false))
    requires o in Others(day, id) && !LunchBeforeWork(lunch, work)
    ensures o.end >= work.start
  {
    TimesExceptHolds(day.moveable, id, o);
    if o in TimesExcept(day.moveable, id) {
      var p :| p in day.moveable && p.at == o;
      Classified(events, work, true, p);
    } else if o in Times(day.fixed) {
      var i :| 0 <= i < |day.fixed| && day.fixed[i].at == o;
      Classified(events, work, false, day.fixed[i]);
    }
  }

  // ---- the proposals in the events' own fields ----

  /** A meeting of the day: its times can be read and touch the work hours. */
  predicate OfTheDay(m: Meeting, work: Interval) {
    m.times.Some? && work.start <= m.times.value.end && m.times.value.start <= work.end
  }

  /** Something a move of the meetings with this id must stay clear of: another
      meeting of the day, one the user does not organise, a transparent one, or lunch. */
  ghost predicate InTheWay(events: seq<Meeting>, work: Interval, lunch: Option<Interval>, id: string, iv: Interval) {
    || lunch == Some(iv)
    || exists m | m in events && OfTheDay(m, work) ::
         m.times.value == iv && (m.id != id || !m.organizerSelf || m.transparent)
  }

  /** The day's meetings and lunch. */
  ghost predicate OnTheDay(events: seq<Meeting>, work: Interval, lunch: Option<Interval>, iv: Interval) {
    lunch == Some(iv) || exists m | m in events && OfTheDay(m, work) :: m.times.value == iv
  }

  lemma OthersExactly(events: seq<Meeting>, work: Interval, lunch: Option<Interval>, id: string, iv: Interval)
    ensures iv in Others(DayOf(events, work, lunch), id) <==> InTheWay(events, work, lunch, id, iv)
  {
    var day := DayOf(events, work, lunch);
    TimesExceptHolds(day.moveable, id, iv);
    TimesHolds(day.fixed, iv);
    forall p { Classified(events, work, true, p); }
    forall p { Classified(events, work, false, p); }
    if InTheWay(events, work, lunch, id, iv) && lunch != Some(iv) {
      var m :| m in events && OfTheDay(m, work)
        && m.times.value == iv && (m.id != id || !m.organizerSelf || m.transparent);
      var placed := Placed(m, iv);
      assert placed in if Moveable(m) then day.moveable else day.fixed;
    }
  }

  lemma BusyNowExactly(events: seq<Meeting>, work: Interval, lunch: Option<Interval>, iv: Interval)
    ensures iv in BusyNow(DayOf(events, work, lunch)) <==> OnTheDay(events, work, lunch, iv)
  {
    var day := DayOf(events, work, lunch);
    TimesHolds(day.moveable + day.fixed, iv);
    forall p { Classified(events, work, true, p); }
    forall p { Classified(events, work, false, p); }
    if m :| m in events && OfTheDay(m, work) && m.times.value == iv {
      var placed := Placed(m, iv);
      assert placed in day.moveable + day.fixed;
    }
  }

  /** The busy lists before a move and after it, whatever their order. */
  ghost predicate BeforeAndAfter(events: seq<Meeting>, work: Interval, lunch: Option<Interval>, id: string,
                                 proposed: Interval, before: seq<Interval>, after: seq<Interval>)
  {
    && (forall iv :: iv in before <==> OnTheDay(events, work, lunch, iv))
    && (forall iv :: iv in after <==> iv == proposed || InTheWay(events, work, lunch, id, iv))
  }

  lemma GapsExactly(events: seq<Meeting>, work: Interval, lunch: Option<Interval>, id: string, proposed: Interval,
                    before: seq<Interval>, after: seq<Interval>)
    requires BeforeAndAfter(events, work, lunch, id, proposed, before, after)
    ensures LargestGap(work, BusyNow(DayOf(events, work, lunch))) == LargestGap(work, before)
    ensures LargestGap(work, Others(DayOf(events, work, lunch), id) + [proposed]) == LargestGap(work, after)
  {
    var day := DayOf(events, work, lunch);
    forall iv ensures iv in BusyNow(day) <==> iv in before {
      BusyNowExactly(events, work, lunch, iv);
    }
    forall iv ensures iv in Others(day, id) + [proposed] <==> iv in after {
      OthersExactly(events, work, lunch, id, iv);
    }
    SameGap(work, BusyNow(day), before);
    SameGap(work, Others(day, id) + [proposed], after);
  }

  /** What a proposal says, in the events' own fields: it moves a meeting the
      user organises that is not transparent, keeps its length, stays in work
      hours unless lunch ends before them, is clear of all that is in the way,
      suits the attendees, and makes the largest gap longer by its gain, over
      thirty minutes. */
  lemma SoundMeans(events: seq<Meeting>, work: Interval, lunch: Option<Interval>, cal: Calendar, p: Proposal,
                   before: seq<Interval>, after: seq<Interval>)
    requires Sound(events, work, lunch, cal, p)
    requires BeforeAndAfter(events, work, lunch, p.id, p.proposed, before, after)
    ensures exists m | m in events && OfTheDay(m, work) ::
      m.organizerSelf && !m.transparent && m.id == p.id && m.times.value == p.current &&
      (m.hasAttendees ==> cal.attendeesFree(m, p.proposed))
    ensures p.proposed.end - p.proposed.start == p.current.end - p.current.start
    ensures lunch.None? || lunch.value.end >= work.start ==>
      work.start <= p.proposed.start && p.proposed.end <= work.end
    ensures forall iv | InTheWay(events, work, lunch, p.id, iv) ::
      p.proposed.end <= iv.start || iv.end <= p.proposed.start
    ensures p.gain == Minutes(LargestGap(work, after) - LargestGap(work, before))
    ensures LargestGap(work, after) >= LargestGap(work, before) + 1860
  {
    GapsExactly(events, work, lunch, p.id, p.proposed, before, after);
    ClearMeans(events, work, lunch, p);
    var m :| m in events && Near(m, work) && Moveable(m) && m.id == p.id && m.times.value == p.current &&
      (m.hasAttendees ==> cal.attendeesFree(m, p.proposed));
    assert OfTheDay(m, work);
  }

  lemma ClearMeans(events: seq<Meeting>, work: Interval, lunch: Option<Interval>, p: Proposal)
    requires ClearOfOthers(events, work, lunch, p)
    ensures forall iv | InTheWay(events, work, lunch, p.id, iv) ::
      p.proposed.end <= iv.start || iv.end <= p.proposed.start
  {
    forall iv | InTheWay(events, work, lunch, p.id, iv)
      ensures p.proposed.end <= iv.start || iv.end <= p.proposed.start
    {
      if lunch != Some(iv) {
        var m :| m in events && OfTheDay(m, work) && m.times.value == iv
          && (m.id != p.id || !m.organizerSelf || m.transparent);
        assert Near(m, work) && (m.id != p.id || !Moveable(m));
      }
    }
  }

  /** A start for a meeting of the user's that is next to something in the way or
      the start of work, clear of all that, inside work hours, free for the
      attendees, and that makes the largest gap longer by over thirty minutes. */
  ghost predicate WorthMoving(events: seq<Meeting>, work: Interval, lunch: Option<Interval>, cal: Calendar,
                              m: Meeting, start: int, before: seq<Interval>, after: seq<Interval>)
  {
    && m in events && OfTheDay(m, work) && m.organizerSelf && !m.transparent && start != m.times.value.start
    && var length := m.times.value.end - m.times.value.start;
       var proposed := Interval(start, start + length);
    && NextTo(events, work, lunch, m.id, length, start) && start + length <= work.end
    && (forall iv | InTheWay(events, work, lunch, m.id, iv) :: proposed.end <= iv.start || iv.end <= proposed.start)
    && (m.hasAttendees ==> cal.attendeesFree(m, proposed))
    && BeforeAndAfter(events, work, lunch, m.id, proposed, before, after)
    && LargestGap(work, after) >= LargestGap(work, before) + 1860
  }

  ghost predicate NextTo(events: seq<Meeting>, work: Interval, lunch: Option<Interval>, id: string, length: int,
                         start: int)
  {
    || start == work.start
    || exists iv | InTheWay(events, work, lunch, id, iv) ::
         start == iv.end || (start == iv.start - length && start >= work.start)
  }

  lemma NextToIsCandidate(events: seq<Meeting>, work: Interval, lunch: Option<Interval>, mv: Placed, start: int)
    ensures start in Candidates(DayOf(events, work, lunch), mv) <==>
      NextTo(events, work, lunch, mv.meeting.id, Length(mv.at), start)
  {
    var others := Others(DayOf(events, work, lunch), mv.meeting.id);
    forall iv ensures iv in others <==> InTheWay(events, work, lunch, mv.meeting.id, iv) {
      OthersExactly(events, work, lunch, mv.meeting.id, iv);
    }
    PositionsAdjacent(others, work, Length(mv.at), start);
  }

  lemma ClearOfAll(events: seq<Meeting>, work: Interval, lunch: Option<Interval>, id: string, proposed: Interval)
    ensures OverlapsAny(proposed, Others(DayOf(events, work, lunch), id)) <==>
      exists iv | InTheWay(events, work, lunch, id, iv) :: !(proposed.end <= iv.start || iv.end <= proposed.start)
  {
    var others := Others(DayOf(events, work, lunch), id);
    forall iv ensures iv in others <==> InTheWay(events, work, lunch, id, iv) {
      OthersExactly(events, work, lunch, id, iv);
    }
  }

  lemma GainOfMove(events: seq<Meeting>, work: Interval, lunch: Option<Interval>, mv: Placed, start: int,
                   before: seq<Interval>, after: seq<Interval>)
    requires BeforeAndAfter(events, work, lunch, mv.meeting.id, Moved(mv, start), before, after)
    requires LargestGap(work, after) >= LargestGap(work, before) + 1860
    ensures Gain(DayOf(events, work, lunch), mv, start) > 30
  {
    GapsExactly(events, work, lunch, mv.meeting.id, Moved(mv, start), before, after);
  }

  lemma ClearMove(events: seq<Meeting>, work: Interval, lunch: Option<Interval>, id: string, proposed: Interval)
    requires forall iv | InTheWay(events, work, lunch, id, iv) ::
      proposed.end <= iv.start || iv.end <= proposed.start
    ensures !OverlapsAny(proposed, Others(DayOf(events, work, lunch), id))
  {
    ClearOfAll(events, work, lunch, id, proposed);
  }

  lemma MoveIsWorth(events: seq<Meeting>, work: Interval, lunch: Option<Interval>, cal: Calendar, m: Meeting,
                    start: int, before: seq<Interval>, after: seq<Interval>)
    requires WorthMoving(events, work, lunch, cal, m, start, before, after)
    ensures Worth(DayOf(events, work, lunch), Placed(m, m.times.value), cal, start)
  {
    var mv := Placed(m, m.times.value);
    assert Moved(mv, start) == Interval(start, start + (m.times.value.end - m.times.value.start));
    ClearMove(events, work, lunch, m.id, Moved(mv, start));
    GainOfMove(events, work, lunch, mv, start, before, after);
  }

  lemma AcceptedAt(day: Day, mv: Placed, cal: Calendar, start: int)
    requires start in Candidates(day, mv) && start != mv.at.start && Worth(day, mv, cal, start)
    ensures exists i: nat :: Accepts(day, mv, cal, i)
  {
    var i :| 0 <= i < |Candidates(day, mv)| && Candidates(day, mv)[i] == start;
    assert Accepts(day, mv, cal, i);
  }

  /** And no such move is missed. */
  lemma MoveIsFound(events: seq<Meeting>, work: Interval, lunch: Option<Interval>, cal: Calendar, m: Meeting,
                    start: int, before: seq<Interval>, after: seq<Interval>) returns (p: Proposal)
    requires WorthMoving(events, work, lunch, cal, m, start, before, after)
    ensures p in Suggestions(DayOf(events, work, lunch), Classify(events, work, true), cal)
    ensures p.id == m.id && p.current == m.times.value
  {
    var day, mv := DayOf(events, work, lunch), Placed(m, m.times.value);
    NextToIsCandidate(events, work, lunch, mv, start);
    MoveIsWorth(events, work, lunch, cal, m, start, before, after);
    AcceptedAt(day, mv, cal, start);
    Classified(events, work, true, mv);
    p := ProposalOf(day, mv, cal);
    SuggestionsHold(day, day.moveable, cal, p);
  }

  lemma ProposalOf(day: Day, mv: Placed, cal: Calendar) returns (p: Proposal)
    requires exists i: nat :: Accepts(day, mv, cal, i)
    ensures Suggestion(day, mv, cal) == Some(p) && p.id == mv.meeting.id && p.current == mv.at
  {
    SuggestedExactly(day, mv, cal);
    p := Suggestion(day, mv, cal).value;
    var k: nat :| FirstAccepted(day, mv, cal, k);
    SuggestionAt(day, mv, cal, k);
  }

  /** SuggestForDay: one proposal for each moveable meeting with an acceptable
      move, in order; each, applied alone, is sound; the total is the sum. */
  method SuggestForDay(events: seq<Meeting>, workEnabled: bool, work: Interval, lunch: Option<Interval>, cal: Calendar)
    returns (proposals: seq<Proposal>, totalGain: int)
    ensures workEnabled ==> proposals == Suggestions(DayOf(events, work, lunch), Classify(events, work, true), cal)
    ensures forall p | p in proposals :: Sound(events, work, lunch, cal, p)
    ensures totalGain == TotalGain(proposals)
    ensures !workEnabled ==> proposals == []
  {
    proposals, totalGain := [], 0;
    if !workEnabled {
      return;
    }
    var moveable, fixed := ClassifyEvents(events, work);
    var day := Day(work, lunch, moveable, fixed);
    var currentBusy := Times(moveable + fixed);
    if lunch.Some? {
      currentBusy := currentBusy + [lunch.value];
    }
    assert currentBusy == BusyNow(day);
    var currentLargest := FindLargestGap(work, currentBusy);
    proposals, totalGain := SuggestAll(day, currentLargest, cal);
    SuggestionsAreSound(events, work, lunch, cal);
  }

  /** Its loop over the moveable meetings. */
  method SuggestAll(day: Day, currentLargest: int, cal: Calendar) returns (proposals: seq<Proposal>, totalGain: int)
    requires currentLargest == LargestGap(day.work, BusyNow(day))
    ensures proposals == Suggestions(day, day.moveable, cal) && totalGain == TotalGain(proposals)
  {
    proposals, totalGain := [], 0;
    for i := 0 to |day.moveable|
      invariant proposals == Suggestions(day, day.moveable[..i], cal)
      invariant totalGain == TotalGain(proposals)
    {
      assert day.moveable[..i+1][..i] == day.moveable[..i];
      var move := SuggestMove(day, day.moveable[i], currentLargest, cal);
      if move.Some? {
        GainAppends(proposals, move.value);
        proposals := proposals + [move.value];
        totalGain := totalGain + move.value.gain;
      }
    }
    assert day.moveable[..|day.moveable|] == day.moveable;
  }
}
