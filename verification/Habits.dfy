/** Habit placement for one day (backend/engine/habits.go). */
module Habits {
  import opened Options
  import opened Intervals
  import opened FocusTime

  datatype Habit = Habit(id: int, days: seq<int>, window: Interval, minutes: int)

  datatype Status = Scheduled | Completed | Displaced | Missed

  datatype Occurrence = Occurrence(at: Interval, status: Status)

  const STEP := 900

  // ---- the first free step ----

  predicate IsStep(window: Interval, length: int, iv: Interval) {
    window.start <= iv.start && (iv.start - window.start) % STEP == 0
    && iv.end == iv.start + length && iv.end <= window.end
  }

  /** The earliest quarter-hour step of the window that fits and is free, or
      none is. */
  ghost predicate FirstFit(window: Interval, length: int, busy: seq<Interval>, r: Option<Interval>) {
    && (r.Some? ==> IsStep(window, length, r.value) && !OverlapsAny(r.value, busy))
    && (r.Some? ==> forall iv | IsStep(window, length, iv) && iv.start < r.value.start :: OverlapsAny(iv, busy))
    && (r.None? ==> forall iv | IsStep(window, length, iv) :: OverlapsAny(iv, busy))
  }

  /** findFirstSlot. */
  method FindFirstSlot(window: Interval, length: int, merged: seq<Interval>) returns (r: Option<Interval>)
    ensures FirstFit(window, length, merged, r)
  {
    var t := window.start;
    while t + length <= window.end
      invariant t >= window.start && (t - window.start) % STEP == 0
      invariant forall iv | IsStep(window, length, iv) && iv.start < t :: OverlapsAny(iv, merged)
      decreases window.end - t - length
    {
      var iv := Interval(t, t + length);
      var hit := OverlapScan(iv, merged);
      if !hit {
        return Some(iv);
      }
      t := t + STEP;
    }
    return None;
  }

  /** A quarter-hour step of the window that meets nothing busy. */
  ghost predicate FreeStep(window: Interval, length: int, busy: seq<Interval>, start: int) {
    && window.start <= start && start + length <= window.end && (start - window.start) % 900 == 0
    && forall b | b in busy :: start + length <= b.start || b.end <= start
  }

  /** The first fit is the least free step, and there is none without one. */
  lemma FirstFitExactly(window: Interval, length: int, busy: seq<Interval>, r: Option<Interval>)
    ensures FirstFit(window, length, busy, r) <==>
      match r
      case Some(iv) =>
        && iv.end == iv.start + length && FreeStep(window, length, busy, iv.start)
        && (forall start | FreeStep(window, length, busy, start) :: iv.start <= start)
      case None => forall start :: !FreeStep(window, length, busy, start)
  {
    forall iv: Interval | iv.end == iv.start + length
      ensures IsStep(window, length, iv) && !OverlapsAny(iv, busy) <==> FreeStep(window, length, busy, iv.start)
    {
    }
    forall start
      ensures FreeStep(window, length, busy, start) <==>
        IsStep(window, length, Interval(start, start + length))
        && !OverlapsAny(Interval(start, start + length), busy)
    {
    }
  }

  lemma FirstFitUnmerged(window: Interval, length: int, busy: seq<Interval>, r: Option<Interval>)
    requires length > 0 && FirstFit(window, length, Merge(busy), r)
    ensures FirstFit(window, length, busy, r)
  {
    forall iv: Interval | IsStep(window, length, iv) ensures OverlapsAny(iv, Merge(busy)) <==> OverlapsAny(iv, busy) {
      MergeKeepsOverlaps(busy, iv);
    }
  }

  // ---- the day's busy time ----

  /** What a habit must avoid: opaque events, buffers around them, lunch and the
      day's focus blocks. */
  ghost predicate DayBlocked(events: seq<Event>, settings: Option<Settings>, work: Option<Interval>,
                             lunch: Option<Interval>, focus: seq<Interval>, iv: Interval)
  {
    || EventHit(events, iv)
    || (settings.Some? && work.Some? && exists b :: IsBuffer(settings.value, events, work.value, b) && Overlap(iv, b))
    || (lunch.Some? && Overlap(iv, lunch.value))
    || OverlapsAny(iv, focus)
  }

  lemma DayBlockedExactly(events: seq<Event>, settings: Option<Settings>, work: Option<Interval>,
                          lunch: Option<Interval>, focus: seq<Interval>, iv: Interval)
    ensures DayBlocked(events, settings, work, lunch, focus, iv) <==>
      || (exists e | e in events :: !e.transparent && e.times.Some?
            && iv.start < e.times.value.end && e.times.value.start < iv.end)
      || (settings.Some? && work.Some? && exists b ::
            IsBuffer(settings.value, events, work.value, b) && iv.start < b.end && b.start < iv.end)
      || (lunch.Some? && iv.start < lunch.value.end && lunch.value.start < iv.end)
      || (exists f | f in focus :: iv.start < f.end && f.start < iv.end)
  {
  }

  /** scheduleDay's busy list. work is the work window when the day has one. */
  method DayBusy(events: seq<Event>, settings: Option<Settings>, work: Option<Interval>, lunch: Option<Interval>,
                 focus: seq<Interval>)
    returns (busy: seq<Interval>)
    ensures forall iv: Interval :: OverlapsAny(iv, busy) <==> DayBlocked(events, settings, work, lunch, focus, iv)
  {
    var opaques := OpaqueTimes(events);
    var buffers: seq<Interval> := [];
    if settings.Some? && work.Some? {
      buffers := ComputeBufferBlocks(events, settings.value, work.value);
    }
    var lunches := if lunch.Some? then [lunch.value] else [];
    busy := opaques + buffers + lunches + focus;
    forall iv: Interval ensures OverlapsAny(iv, busy) <==> DayBlocked(events, settings, work, lunch, focus, iv) {
      OverlapsConcat(iv, opaques, buffers);
      OverlapsConcat(iv, opaques + buffers, lunches);
      OverlapsConcat(iv, opaques + buffers + lunches, focus);
    }
  }

  method OpaqueTimes(events: seq<Event>) returns (times: seq<Interval>)
    ensures forall iv: Interval :: OverlapsAny(iv, times) <==> EventHit(events, iv)
  {
    times := [];
    for i := 0 to |events|
      invariant forall iv: Interval :: OverlapsAny(iv, times) <==> EventHit(events[..i], iv)
    {
      var e := events[i];
      assert events[..i+1] == events[..i] + [e];
      if e.transparent || e.times.None? {
        continue;
      }
      forall iv: Interval {
        OverlapsConcat(iv, times, [e.times.value]);
      }
      times := times + [e.times.value];
    }
    assert events[..|events|] == events;
  }

  // ---- one pass over the habits ----

  datatype Kind = NotToday | Finished | Kept | Placed | NoRoom

  /** What happened to one habit, and where it stands. */
  datatype Record = Record(habit: Habit, kind: Kind, at: Interval)

  predicate Stands(r: Record) { r.kind in {Finished, Kept, Placed} }

  /** The intervals standing after these records, on top of the day's busy time. */
  function Standing(busy: seq<Interval>, records: seq<Record>): seq<Interval> {
    if records == [] then busy
    else Standing(busy, records[..|records|-1]) +
         if Stands(records[|records|-1]) then [records[|records|-1].at] else []
  }

  function Needed(h: Habit): int { h.minutes * 60 }

  predicate Proper(iv: Interval) { iv.start < iv.end }

  /** What looking up a habit's stored occurrence gives: a failed read counts as none. */
  function Seen(stored: map<int, Occurrence>, id: int, readable: bool): Option<Occurrence> {
    if readable && id in stored then Some(stored[id]) else None
  }

  /** A habit placed anew: at the first fit, or missed when there is none. */
  ghost predicate NewlyPlaced(standing: seq<Interval>, r: Record) {
    var h := r.habit;
    && r.kind in {Placed, NoRoom}
    && (Needed(h) > 0 && r.kind.Placed? ==> FirstFit(h.window, Needed(h), standing, Some(r.at)))
    && (Needed(h) > 0 && r.kind.NoRoom? ==> FirstFit(h.window, Needed(h), standing, None))
    && (r.kind.NoRoom? ==> r.at == Interval(h.window.start, h.window.start + Needed(h)))
  }

  /** The next habit's outcome, given what stands so far and the occurrence seen. */
  ghost predicate Justified(standing: seq<Interval>, weekday: int, seen: Option<Occurrence>, r: Record) {
    if weekday !in r.habit.days then r.kind.NotToday?
    else if seen.Some? && seen.value.status.Completed? then r == Record(r.habit, Finished, seen.value.at)
    else if seen.Some? && seen.value.status.Scheduled? && r.kind.Kept? then
      r.at == seen.value.at && (Proper(r.at) ==> !OverlapsAny(r.at, standing))
    else
      && (seen.Some? && seen.value.status.Scheduled? && Proper(seen.value.at) ==> OverlapsAny(seen.value.at, standing))
      && NewlyPlaced(standing, r)
  }

  /** readable tells, by place in the list, whether the lookup succeeds. */
  ghost predicate Pass(busy: seq<Interval>, weekday: int, stored: map<int, Occurrence>, readable: nat -> bool,
                       records: seq<Record>)
  {
    forall i | 0 <= i < |records| ::
      Justified(Standing(busy, records[..i]), weekday, Seen(stored, records[i].habit.id, readable(i)), records[i])
  }

  /** What one habit's turn leaves stored. */
  function After(stored: map<int, Occurrence>, r: Record): map<int, Occurrence> {
    match r.kind
    case Placed => stored[r.habit.id := Occurrence(r.at, Scheduled)]
    case NoRoom => stored[r.habit.id := Occurrence(r.at, Missed)]
    case _ => stored
  }

  /** The stored occurrences a pass leaves. */
  function Left(stored: map<int, Occurrence>, records: seq<Record>): map<int, Occurrence> {
    if records == [] then stored
    else After(Left(stored, records[..|records|-1]), records[|records|-1])
  }

  lemma {:induction false} LeftUntouched(stored: map<int, Occurrence>, records: seq<Record>, id: int)
    requires forall r | r in records :: r.habit.id != id
    ensures id in Left(stored, records) <==> id in stored
    ensures id in stored ==> Left(stored, records)[id] == stored[id]
  {
    if records != [] {
      assert records[|records|-1] in records && forall r | r in records[..|records|-1] :: r in records;
      LeftUntouched(stored, records[..|records|-1], id);
    }
  }

  /** One more record, decided on what the table held at the start. */
  lemma PassAppend(busy: seq<Interval>, weekday: int, stored: map<int, Occurrence>, readable: nat -> bool,
                   records: seq<Record>, r: Record)
    requires Pass(busy, weekday, stored, readable, records)
    requires Justified(Standing(busy, records), weekday, Seen(stored, r.habit.id, readable(|records|)), r)
    ensures Pass(busy, weekday, stored, readable, records + [r])
    ensures Standing(busy, records + [r]) == Standing(busy, records) + if Stands(r) then [r.at] else []
    ensures Left(stored, records + [r]) == After(Left(stored, records), r)
  {
    var all := records + [r];
    assert all[..|records|] == records;
    assert forall k | 0 <= k < |records| :: all[..k] == records[..k];
  }

  ghost predicate DistinctIds(habits: seq<Habit>) {
    forall i, j | 0 <= i < j < |habits| :: habits[i].id != habits[j].id
  }

  /** Each habit is decided on its own stored occurrence, which the habits
      before it left alone. */
  lemma PassNext(busy: seq<Interval>, weekday: int, stored: map<int, Occurrence>, readable: nat -> bool,
                 habits: seq<Habit>, records: seq<Record>, r: Record)
    requires DistinctIds(habits) && |records| < |habits| && r.habit == habits[|records|]
    requires forall k | 0 <= k < |records| :: records[k].habit == habits[k]
    requires Pass(busy, weekday, stored, readable, records)
    requires var seen := Seen(Left(stored, records), r.habit.id, readable(|records|));
      Justified(Standing(busy, records), weekday, seen, r)
    ensures Pass(busy, weekday, stored, readable, records + [r])
    ensures Standing(busy, records + [r]) == Standing(busy, records) + if Stands(r) then [r.at] else []
    ensures Left(stored, records + [r]) == After(Left(stored, records), r)
  {
    assert forall x | x in records :: x.habit.id != r.habit.id;
    LeftUntouched(stored, records, r.habit.id);
    PassAppend(busy, weekday, stored, readable, records, r);
  }

  /** One habit's turn in the table's own terms: what is found, what becomes of
      it and what is stored. An occurrence that was not displaced stays where it
      is; a new one is at the least free step, or missed at the window's start. */
  lemma TurnExactly(standing: seq<Interval>, weekday: int, stored: map<int, Occurrence>, readable: bool, r: Record)
    requires Justified(standing, weekday, Seen(stored, r.habit.id, readable), r)
    requires r.habit.minutes > 0
    requires r.habit.id in stored ==> stored[r.habit.id].at.start < stored[r.habit.id].at.end
    ensures var h, length := r.habit, r.habit.minutes * 60;
      var found, after := readable && h.id in stored, After(stored, r);
      var stands := found && stored[h.id].status == Scheduled
                    && forall b | b in standing :: stored[h.id].at.end <= b.start || b.end <= stored[h.id].at.start;
      if weekday !in h.days then r.kind == NotToday && after == stored
      else if found && stored[h.id].status == Completed then
        r.kind == Finished && r.at == stored[h.id].at && after == stored
      else if stands then r.kind == Kept && r.at == stored[h.id].at && after == stored
      else if exists start :: FreeStep(h.window, length, standing, start) then
        && r.kind == Placed && r.at.end == r.at.start + length && FreeStep(h.window, length, standing, r.at.start)
        && (forall start | FreeStep(h.window, length, standing, start) :: r.at.start <= start)
        && after == stored[h.id := Occurrence(r.at, Scheduled)]
      else
        && r.kind == NoRoom && r.at == Interval(h.window.start, h.window.start + length)
        && after == stored[h.id := Occurrence(r.at, Missed)]
  {
    FirstFitExactly(r.habit.window, r.habit.minutes * 60, standing, Some(r.at));
    FirstFitExactly(r.habit.window, r.habit.minutes * 60, standing, None);
  }

  /** habit_occurrences of one date, one row per habit. */
  class OccurrenceTable {
    var stored: map<int, Occurrence>

    constructor (stored: map<int, Occurrence>)
      ensures this.stored == stored
    {
      this.stored := stored;
    }

    /** scheduleDay's loop: habits in the order given, each against everything
        standing before it. */
    method ScheduleDay(habits: seq<Habit>, weekday: int, busy: seq<Interval>, readable: nat -> bool)
      returns (ghost records: seq<Record>)
      requires DistinctIds(habits)
      modifies this
      ensures |records| == |habits| && forall i | 0 <= i < |habits| :: records[i].habit == habits[i]
      ensures Pass(busy, weekday, old(stored), readable, records)
      ensures stored == Left(old(stored), records)
    {
      var placedBusy := busy;
      records := [];
      for i := 0 to |habits|
        invariant |records| == i && forall k | 0 <= k < i :: records[k].habit == habits[k]
        invariant placedBusy == Standing(busy, records)
        invariant Pass(busy, weekday, old(stored), readable, records)
        invariant stored == Left(old(stored), records)
      {
        var kind, at := PlaceHabit(habits[i], weekday, placedBusy, readable(i));
        ghost var r := Record(habits[i], kind, at);
        PassNext(busy, weekday, old(stored), readable, habits, records, r);
        records := records + [r];
        if kind in {Finished, Kept, Placed} {
          placedBusy := placedBusy + [at];
        }
      }
    }

    /** One habit's turn. */
    method PlaceHabit(h: Habit, weekday: int, placedBusy: seq<Interval>, readable: bool)
      returns (kind: Kind, at: Interval)
      modifies this
      ensures Justified(placedBusy, weekday, Seen(old(stored), h.id, readable), Record(h, kind, at))
      ensures stored == After(old(stored), Record(h, kind, at))
    {
      at := h.window;
      if weekday !in h.days {
        return NotToday, at;
      }
      var existing := Seen(stored, h.id, readable);
      if existing.Some? && existing.value.status.Completed? {
        return Finished, existing.value.at;
      }
      if existing.Some? && existing.value.status.Scheduled? {
        var clear := StillClear(existing.value.at, placedBusy);
        if clear {
          return Kept, existing.value.at;
        }
        stored := stored[h.id := Occurrence(existing.value.at, Displaced)];
      }
      kind, at := PlaceNew(h, placedBusy);
    }

    /** A slot of its own, or none. */
    method PlaceNew(h: Habit, placedBusy: seq<Interval>) returns (kind: Kind, at: Interval)
      modifies this
      ensures NewlyPlaced(placedBusy, Record(h, kind, at))
      ensures stored == After(old(stored), Record(h, kind, at))
    {
      var merged := Merged(placedBusy);
      var slot := FindFirstSlot(h.window, h.minutes * 60, merged);
      if h.minutes > 0 {
        FirstFitUnmerged(h.window, h.minutes * 60, placedBusy, slot);
      }
      if slot.None? {
        at := Interval(h.window.start, h.window.start + h.minutes * 60);
        stored := stored[h.id := Occurrence(at, Missed)];
        return NoRoom, at;
      }
      stored := stored[h.id := Occurrence(slot.value, Scheduled)];
      return Placed, slot.value;
    }
  }

  /** Does an occurrence still meet nothing that stands? */
  method StillClear(iv: Interval, placedBusy: seq<Interval>) returns (clear: bool)
    ensures Proper(iv) ==> (clear <==> !OverlapsAny(iv, placedBusy))
  {
    var merged := Merged(placedBusy);
    var hit := OverlapScan(iv, merged);
    if Proper(iv) {
      MergeKeepsOverlaps(placedBusy, iv);
    }
    return !hit;
  }

  ghost predicate DistinctRecords(records: seq<Record>) {
    forall i, j | 0 <= i < j < |records| :: records[i].habit.id != records[j].habit.id
  }

  /** A habit's row is left as its own turn leaves it. */
  lemma {:induction false} LeftAt(stored: map<int, Occurrence>, records: seq<Record>, i: nat)
    requires DistinctRecords(records) && i < |records|
    ensures var id, turn := records[i].habit.id, After(stored, records[i]);
      && (id in Left(stored, records) <==> id in turn)
      && (id in turn ==> Left(stored, records)[id] == turn[id])
  {
    var init := records[..|records|-1];
    if i == |init| {
      assert forall r | r in init :: r.habit.id != records[i].habit.id;
      LeftUntouched(stored, init, records[i].habit.id);
    } else {
      assert init[i] == records[i];
      LeftAt(stored, init, i);
    }
  }

  /** A completed occurrence survives a pass exactly when the habit is not due or
      its lookup succeeds: an unreadable one is placed anew over it. */
  lemma CompletedSurvivesExactly(busy: seq<Interval>, weekday: int, stored: map<int, Occurrence>, readable: nat -> bool,
                                 records: seq<Record>, i: nat)
    requires Pass(busy, weekday, stored, readable, records) && DistinctRecords(records) && i < |records|
    requires records[i].habit.id in stored && stored[records[i].habit.id].status.Completed?
    ensures records[i].habit.id in Left(stored, records)
    ensures Left(stored, records)[records[i].habit.id] == stored[records[i].habit.id]
       <==> weekday !in records[i].habit.days || readable(i)
  {
    LeftAt(stored, records, i);
    assert Justified(Standing(busy, records[..i]), weekday, Seen(stored, records[i].habit.id, readable(i)), records[i]);
  }

  /** In one pass, every kept or newly placed occurrence avoids the day's busy
      time and everything standing before it. */
  lemma PassKeepsClear(busy: seq<Interval>, weekday: int, stored: map<int, Occurrence>, readable: nat -> bool,
                       records: seq<Record>, i: nat)
    requires Pass(busy, weekday, stored, readable, records) && i < |records|
    requires records[i].kind in {Kept, Placed} && Proper(records[i].at)
    requires records[i].kind.Placed? ==> records[i].habit.minutes > 0
    ensures !OverlapsAny(records[i].at, busy)
    ensures forall j | 0 <= j < i && records[j].kind in {Finished, Kept, Placed} ::
      !Overlap(records[i].at, records[j].at)
  {
    var standing := Standing(busy, records[..i]);
    assert Justified(standing, weekday, Seen(stored, records[i].habit.id, readable(i)), records[i]);
    StandingHolds(busy, records, i, records[i].at);
  }

  lemma {:induction false} StandingHolds(busy: seq<Interval>, records: seq<Record>, i: nat, iv: Interval)
    requires i <= |records|
    ensures OverlapsAny(iv, Standing(busy, records[..i])) <==>
      OverlapsAny(iv, busy) || exists j | 0 <= j < i :: Stands(records[j]) && Overlap(iv, records[j].at)
  {
    if i > 0 {
      StandingHolds(busy, records, i - 1, iv);
      assert records[..i][..i-1] == records[..i-1];
      OverlapsConcat(iv, Standing(busy, records[..i-1]), if Stands(records[i-1]) then [records[i-1].at] else []);
    }
  }
}
