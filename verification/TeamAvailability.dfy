/** Slots for a whole team (backend/engine/team_availability.go). */
module TeamAvailability {
  import opened Options
  import opened Intervals

  /** A member's opaque events (None when the calendar cannot be read: free) and
      focus blocks of the day. */
  datatype Member = Member(events: Option<seq<Interval>>, focus: seq<Interval>)

  datatype MeetingZone = MeetingZone(weekday: int, at: Interval)

  datatype Slot = Slot(at: Interval, quality: int)

  const STEP := 900

  function BusyOf(m: Member): seq<Interval> {
    (if m.events.Some? then m.events.value else []) + m.focus
  }

  /** No member is busy and no no-meeting zone of the weekday is touched. */
  ghost predicate TeamFree(members: seq<Member>, zones: seq<MeetingZone>, weekday: int, iv: Interval) {
    && (forall m | m in members :: !OverlapsAny(iv, BusyOf(m)))
    && (forall z | z in zones && z.weekday == weekday :: !Overlap(iv, z.at))
  }

  /** In the members' own fields: no event of a readable calendar, no focus block
      and no zone of the weekday meets it. */
  lemma TeamFreeExactly(members: seq<Member>, zones: seq<MeetingZone>, weekday: int, iv: Interval)
    ensures TeamFree(members, zones, weekday, iv) <==>
      && (forall m | m in members && m.events.Some? :: forall e | e in m.events.value ::
            iv.end <= e.start || e.end <= iv.start)
      && (forall m | m in members :: forall f | f in m.focus :: iv.end <= f.start || f.end <= iv.start)
      && (forall z | z in zones && z.weekday == weekday :: iv.end <= z.at.start || z.at.end <= iv.start)
  {
    forall m | m in members
      ensures OverlapsAny(iv, BusyOf(m)) <==>
        (m.events.Some? && OverlapsAny(iv, m.events.value)) || OverlapsAny(iv, m.focus)
    {
      OverlapsConcat(iv, if m.events.Some? then m.events.value else [], m.focus);
    }
  }

  function Disrupted(members: seq<Member>, iv: Interval): nat {
    if members == [] then 0
    else Disrupted(members[..|members|-1], iv) + if OverlapsAny(iv, members[|members|-1].focus) then 1 else 0
  }

  ghost function DisruptedRows(members: seq<Member>, iv: Interval): set<int> {
    set i | 0 <= i < |members| && OverlapsAny(iv, members[i].focus)
  }

  lemma DisruptedRowsNext(members: seq<Member>, iv: Interval)
    requires members != []
    ensures var n := |members| - 1;
      DisruptedRows(members, iv) == DisruptedRows(members[..n], iv) +
        if OverlapsAny(iv, members[n].focus) then {n} else {}
    ensures |members| - 1 !in DisruptedRows(members[..|members|-1], iv)
  {
    var n := |members| - 1;
    forall i
      ensures i in DisruptedRows(members, iv) <==>
        i in DisruptedRows(members[..n], iv) || (i == n && OverlapsAny(iv, members[n].focus))
    {
      assert 0 <= i < n ==> members[..n][i] == members[i];
    }
  }

  /** It counts the members with a focus block in the way. */
  lemma {:induction false} DisruptedCounts(members: seq<Member>, iv: Interval)
    ensures Disrupted(members, iv) == |DisruptedRows(members, iv)|
  {
    if members != [] {
      DisruptedCounts(members[..|members|-1], iv);
      DisruptedRowsNext(members, iv);
    }
  }

  /** teamQualityScore. */
  method QualityScore(iv: Interval, members: seq<Member>) returns (score: int)
    ensures members == [] ==> score == 100
    ensures members != [] ==> score == 100 - Disrupted(members, iv) * 100 / |members|
  {
    if |members| == 0 {
      return 100;
    }
    var disrupted := 0;
    for i := 0 to |members|
      invariant disrupted == Disrupted(members[..i], iv)
    {
      assert members[..i+1][..i] == members[..i];
      var hit := OverlapScan(iv, members[i].focus);
      if hit {
        disrupted := disrupted + 1;
      }
    }
    assert members[..|members|] == members;
    return 100 - disrupted * 100 / |members|;
  }

  /** A quarter-hour step from the start of a free piece that ends within it. */
  ghost predicate StepOf(f: Interval, length: int, iv: Interval) {
    f.start <= iv.start && (iv.start - f.start) % STEP == 0 && iv.end == iv.start + length && iv.end <= f.end
  }

  ghost predicate InTime(slots: seq<Slot>) {
    forall i, j | 0 <= i < j < |slots| :: slots[i].at.start < slots[j].at.start
  }

  ghost predicate Lists(slots: seq<Slot>, iv: Interval) {
    exists s | s in slots :: s.at == iv
  }

  /** All the team's busy time and the day's zones. */
  method TeamBusy(members: seq<Member>, zones: seq<MeetingZone>, weekday: int) returns (busy: seq<Interval>)
    ensures forall iv: Interval :: !OverlapsAny(iv, busy) <==> TeamFree(members, zones, weekday, iv)
    ensures Sane(members, zones, weekday) ==> WellFormed(busy)
  {
    busy := [];
    for i := 0 to |members|
      invariant Sane(members, zones, weekday) ==> WellFormed(busy)
      invariant forall iv: Interval :: !OverlapsAny(iv, busy) <==> TeamFree(members[..i], [], weekday, iv)
    {
      assert members[..i+1] == members[..i] + [members[i]];
      forall iv: Interval {
        OverlapsConcat(iv, busy, BusyOf(members[i]));
      }
      busy := busy + BusyOf(members[i]);
    }
    assert members[..|members|] == members;
    for i := 0 to |zones|
      invariant Sane(members, zones, weekday) ==> WellFormed(busy)
      invariant forall iv: Interval :: !OverlapsAny(iv, busy) <==> TeamFree(members, zones[..i], weekday, iv)
    {
      assert zones[..i+1] == zones[..i] + [zones[i]];
      if zones[i].weekday != weekday {
        continue;
      }
      forall iv: Interval {
        OverlapsConcat(iv, busy, [zones[i].at]);
      }
      busy := busy + [zones[i].at];
    }
    assert zones[..|zones|] == zones;
  }

  /** The steps inside one free piece. */
  method StepsIn(f: Interval, length: int, members: seq<Member>) returns (slots: seq<Slot>)
    requires members != []
    ensures InTime(slots)
    ensures forall iv :: Lists(slots, iv) <==> StepOf(f, length, iv)
    ensures forall s | s in slots :: s.quality == 100 - Disrupted(members, s.at) * 100 / |members|
  {
    slots := [];
    if f.end - f.start < length {
      return;
    }
    var cursor := f.start;
    while cursor + length <= f.end
      invariant cursor >= f.start && (cursor - f.start) % STEP == 0
      invariant InTime(slots) && forall s | s in slots :: s.at.start < cursor
      invariant forall iv :: Lists(slots, iv) <==> StepOf(f, length, iv) && iv.start < cursor
      invariant forall s | s in slots :: s.quality == 100 - Disrupted(members, s.at) * 100 / |members|
      decreases f.end - cursor - length
    {
      var at := Interval(cursor, cursor + length);
      var score := QualityScore(at, members);
      var slot := Slot(at, score);
      ListsAppend(slots, slot);
      slots := slots + [slot];
      cursor := cursor + STEP;
    }
  }

  lemma ListsAppend(slots: seq<Slot>, slot: Slot)
    ensures forall iv :: Lists(slots + [slot], iv) <==> Lists(slots, iv) || iv == slot.at
  {
    assert slot in slots + [slot];
  }

  lemma ListsConcat(a: seq<Slot>, b: seq<Slot>)
    ensures forall iv :: Lists(a + b, iv) <==> Lists(a, iv) || Lists(b, iv)
  {
  }

  ghost predicate StepOfSome(free: seq<Interval>, length: int, iv: Interval) {
    exists f | f in free :: StepOf(f, length, iv)
  }

  /** The steps of the next piece come after those of the pieces before. */
  lemma StaysInTime(slots: seq<Slot>, steps: seq<Slot>, free: seq<Interval>, i: nat, length: int)
    requires length > 0 && Pieces(free) && i < |free| && InTime(slots) && InTime(steps)
    requires forall iv :: Lists(slots, iv) <==> StepOfSome(free[..i], length, iv)
    requires forall iv :: Lists(steps, iv) <==> StepOf(free[i], length, iv)
    ensures InTime(slots + steps)
  {
    forall s, t | s in slots && t in steps ensures s.at.start < t.at.start {
      assert Lists(slots, s.at) && Lists(steps, t.at);
      var f :| f in free[..i] && StepOf(f, length, s.at);
      var k :| 0 <= k < i && free[k] == f;
      assert free[k].end <= free[i].start;
    }
    var all := slots + steps;
    forall k, l | 0 <= k < l < |all| ensures all[k].at.start < all[l].at.start {
      if k < |slots| <= l {
        assert all[k] in slots && all[l] in steps;
      }
    }
  }

  method StepsInAll(free: seq<Interval>, length: int, members: seq<Member>) returns (slots: seq<Slot>)
    requires members != []
    ensures length > 0 && Pieces(free) ==> InTime(slots)
    ensures forall iv :: Lists(slots, iv) <==> StepOfSome(free, length, iv)
    ensures forall s | s in slots :: s.quality == 100 - Disrupted(members, s.at) * 100 / |members|
  {
    slots := [];
    for i := 0 to |free|
      invariant length > 0 && Pieces(free) ==> InTime(slots)
      invariant forall iv :: Lists(slots, iv) <==> StepOfSome(free[..i], length, iv)
      invariant forall s | s in slots :: s.quality == 100 - Disrupted(members, s.at) * 100 / |members|
    {
      assert free[..i+1] == free[..i] + [free[i]];
      var steps := StepsIn(free[i], length, members);
      ListsConcat(slots, steps);
      if length > 0 && Pieces(free) {
        StaysInTime(slots, steps, free, i, length);
      }
      slots := slots + steps;
    }
    assert free[..|free|] == free;
  }

  lemma {:induction false} NoneDisrupted(members: seq<Member>, iv: Interval)
    requires forall m | m in members :: !OverlapsAny(iv, BusyOf(m))
    ensures Disrupted(members, iv) == 0
  {
    if members != [] {
      var init, m := members[..|members|-1], members[|members|-1];
      assert m in members && forall x | x in init :: x in members;
      NoneDisrupted(init, iv);
      OverlapsConcat(iv, if m.events.Some? then m.events.value else [], m.focus);
    }
  }

  /** busy holds the team's busy time and zones, and nothing else. */
  ghost predicate Gathers(members: seq<Member>, zones: seq<MeetingZone>, weekday: int, busy: seq<Interval>) {
    forall iv: Interval :: !OverlapsAny(iv, busy) <==> TeamFree(members, zones, weekday, iv)
  }

  /** A step of a free piece is a usable slot, and disrupts nobody's focus. */
  lemma StepIsUsable(members: seq<Member>, zones: seq<MeetingZone>, weekday: int, work: Interval, length: int,
                     busy: seq<Interval>, iv: Interval)
    requires length > 0 && Gathers(members, zones, weekday, busy)
    requires StepOfSome(Subtract(work, Merge(busy)), length, iv)
    ensures iv.end - iv.start == length && Inside(iv, work) && TeamFree(members, zones, weekday, iv)
    ensures Disrupted(members, iv) == 0
  {
    var f :| f in Subtract(work, Merge(busy)) && StepOf(f, length, iv);
    assert Inside(iv, f);
    FreeExactly(work, busy, iv);
    NoneDisrupted(members, iv);
  }

  /** The first step of f at or after a start. */
  function StepFrom(f: Interval, start: int): int {
    f.start + (start - f.start + STEP - 1) / STEP * STEP
  }

  /** No common gap is missed by more than a step: one as long as the meeting
      gives some slot, one longer by a step holds a slot. */
  lemma GapIsServed(members: seq<Member>, zones: seq<MeetingZone>, weekday: int, work: Interval, length: int,
                    busy: seq<Interval>, gap: Interval) returns (first: Interval, inside: Interval)
    requires length > 0 && Gathers(members, zones, weekday, busy)
    requires gap.end - gap.start >= length && Inside(gap, work) && TeamFree(members, zones, weekday, gap)
    ensures StepOfSome(Subtract(work, Merge(busy)), length, first)
    ensures gap.end - gap.start >= length + STEP - 1 ==>
      StepOfSome(Subtract(work, Merge(busy)), length, inside) && Inside(inside, gap)
  {
    FreeExactly(work, busy, gap);
    var f :| f in Subtract(work, Merge(busy)) && Inside(gap, f);
    first := Interval(f.start, f.start + length);
    assert StepOf(f, length, first);
    var start := StepFrom(f, gap.start);
    inside := Interval(start, start + length);
    assert gap.end - gap.start >= length + STEP - 1 ==> StepOf(f, length, inside);
  }

  /** Nothing the team's time is made of ends before it starts. */
  ghost predicate Sane(members: seq<Member>, zones: seq<MeetingZone>, weekday: int) {
    && (forall m | m in members :: WellFormed(BusyOf(m)))
    && (forall z | z in zones && z.weekday == weekday :: z.at.start <= z.at.end)
  }

  /** The team is free from origin on up to end, and not from any earlier instant. */
  ghost predicate TeamFreeFrom(members: seq<Member>, zones: seq<MeetingZone>, weekday: int, work: Interval,
                               origin: int, end: int)
  {
    && work.start <= origin && end <= work.end && TeamFree(members, zones, weekday, Interval(origin, end))
    && (origin > work.start ==> !TeamFree(members, zones, weekday, Interval(origin - 1, end)))
  }

  ghost predicate OnQuarter(members: seq<Member>, zones: seq<MeetingZone>, weekday: int, work: Interval,
                            length: int, iv: Interval, origin: int)
  {
    && origin <= iv.start && (iv.start - origin) % 900 == 0 && iv.end == iv.start + length
    && TeamFreeFrom(members, zones, weekday, work, origin, iv.end)
  }

  lemma OriginIsStart(members: seq<Member>, zones: seq<MeetingZone>, weekday: int, work: Interval, length: int,
                      busy: seq<Interval>, iv: Interval, origin: int)
    requires length > 0 && work.start < work.end && Gathers(members, zones, weekday, busy) && WellFormed(busy)
    requires origin <= iv.start && (iv.start - origin) % 900 == 0 && iv.end == iv.start + length
    ensures OnQuarter(members, zones, weekday, work, length, iv, origin) <==>
      PieceFrom(Subtract(work, Merge(busy)), origin, iv.end)
  {
    PieceStartsExactly(work, busy, origin, iv.end);
    assert FreeFrom(work, busy, origin, iv.end) <==> TeamFreeFrom(members, zones, weekday, work, origin, iv.end);
  }

  lemma StepFromOrigin(free: seq<Interval>, length: int, iv: Interval, origin: int)
    requires PieceFrom(free, origin, iv.end)
    requires origin <= iv.start && (iv.start - origin) % 900 == 0 && iv.end == iv.start + length
    ensures StepOfSome(free, length, iv)
  {
    var f :| f in free && f.start == origin && iv.end <= f.end;
    assert StepOf(f, length, iv);
  }

  lemma OriginOfStep(free: seq<Interval>, length: int, iv: Interval) returns (origin: int)
    requires StepOfSome(free, length, iv)
    ensures PieceFrom(free, origin, iv.end)
    ensures origin <= iv.start && (iv.start - origin) % 900 == 0 && iv.end == iv.start + length
  {
    var f :| f in free && StepOf(f, length, iv);
    origin := f.start;
  }

  /** The slots in the team's own terms: whole quarters of an hour after the
      start of a common gap that lasts until the slot's end. */
  lemma StepExactly(members: seq<Member>, zones: seq<MeetingZone>, weekday: int, work: Interval, length: int,
                    busy: seq<Interval>, iv: Interval)
    requires length > 0 && work.start < work.end && Gathers(members, zones, weekday, busy) && WellFormed(busy)
    ensures StepOfSome(Subtract(work, Merge(busy)), length, iv) <==>
      exists origin :: OnQuarter(members, zones, weekday, work, length, iv, origin)
  {
    var free := Subtract(work, Merge(busy));
    if StepOfSome(free, length, iv) {
      var origin := OriginOfStep(free, length, iv);
      OriginIsStart(members, zones, weekday, work, length, busy, iv, origin);
    }
    if origin :| OnQuarter(members, zones, weekday, work, length, iv, origin) {
      OriginIsStart(members, zones, weekday, work, length, busy, iv, origin);
      StepFromOrigin(free, length, iv, origin);
    }
  }

  lemma FullScore(members: seq<Member>, s: Slot)
    requires members != [] && Disrupted(members, s.at) == 0
    requires s.quality == 100 - Disrupted(members, s.at) * 100 / |members|
    ensures s.quality == 100
  {
  }

  /** FindSlots: every quarter-hour step of every free piece of the work window,
      and, although the score is for how many members' focus a slot disrupts,
      focus blocks are busy time too and it is always the full 100. */
  method FindSlots(members: seq<Member>, zones: seq<MeetingZone>, weekday: int, work: Interval, minutes: int)
    returns (slots: seq<Slot>, ghost busy: seq<Interval>)
    ensures members == [] ==> slots == []
    ensures members != [] ==> Gathers(members, zones, weekday, busy)
    ensures members != [] ==> forall iv :: Lists(slots, iv) <==>
      StepOfSome(Subtract(work, Merge(busy)), minutes * 60, iv)
    ensures minutes > 0 ==> forall s | s in slots :: s.quality == 100
    ensures minutes > 0 && work.start < work.end && Sane(members, zones, weekday) ==> InTime(slots) && WellFormed(busy)
  {
    if |members| == 0 {
      return [], [];
    }
    var all := TeamBusy(members, zones, weekday);
    busy := all;
    var merged := Merged(all);
    var free := SubtractIntervals(work, merged);
    if work.start < work.end && Sane(members, zones, weekday) {
      MergeIsCanonical(all, 0);
      SubtractPieces(work, merged);
    }
    slots := StepsInAll(free, minutes * 60, members);
    forall s | minutes > 0 && s in slots ensures s.quality == 100 {
      assert Lists(slots, s.at);
      StepIsUsable(members, zones, weekday, work, minutes * 60, busy, s.at);
      FullScore(members, s);
    }
  }
}
