/** Focus blocks: one day of a run (backend/engine/focus_time.go) and the
    meeting buffers it respects (backend/engine/buffer.go). Times are seconds,
    durations in the settings minutes. */
module FocusTime {
  import opened Options
  import opened Sorting
  import opened Intervals

  datatype Settings = Settings(
    dailyTarget: int, minBlock: int, maxBlock: int,
    bufferBefore: int, bufferAfter: int,
    bufferEnabled: bool, bufferMinMeeting: int, bufferSkipBackToBack: bool)

  /** A calendar event: its times are None when they cannot be read. */
  datatype Event = Event(transparent: bool, times: Option<Interval>)

  function Max(a: int, b: int): int { if a > b then a else b }

  function Min(a: int, b: int): int { if a < b then a else b }

  predicate Opaque(e: Event) { !e.transparent && e.times.Some? }

  // ---- buffers ----

  function MinMeeting(s: Settings): int { if s.bufferMinMeeting <= 0 then 1 else s.bufferMinMeeting }

  /** An opaque event long enough to earn a buffer. */
  predicate Qualifies(s: Settings, e: Event) {
    Opaque(e) && Minutes(Length(e.times.value)) >= MinMeeting(s)
  }

  ghost predicate IsMeeting(s: Settings, events: seq<Event>, m: Interval) {
    exists e | e in events :: Qualifies(s, e) && e.times.value == m
  }

  /** The time before or after a meeting, cut at the edge of the work window. */
  predicate Around(s: Settings, work: Interval, m: Interval, b: Interval) {
    || (s.bufferBefore > 0 && b == Interval(Max(m.start - s.bufferBefore * 60, work.start), m.start))
    || (s.bufferAfter > 0 && b == Interval(m.end, Min(m.end + s.bufferAfter * 60, work.end)))
  }

  /** The non-empty buffers of the qualifying meetings; with back-to-back
      skipping, those that overlap no qualifying meeting. */
  ghost predicate IsBuffer(s: Settings, events: seq<Event>, work: Interval, b: Interval) {
    && s.bufferEnabled && b.start < b.end
    && (exists m :: IsMeeting(s, events, m) && Around(s, work, m, b))
    && (s.bufferSkipBackToBack ==> forall m | IsMeeting(s, events, m) :: !Overlap(b, m))
  }

  /** An opaque event of at least the shortest length that earns a buffer, one
      minute or more. */
  ghost predicate LongMeeting(s: Settings, e: Event) {
    && !e.transparent && e.times.Some?
    && e.times.value.end - e.times.value.start >= 60
    && e.times.value.end - e.times.value.start >= s.bufferMinMeeting * 60
  }

  /** The buffer before or after a meeting, cut at the edge of the work hours. */
  predicate Beside(s: Settings, work: Interval, m: Interval, b: Interval) {
    var before, after := s.bufferBefore * 60, s.bufferAfter * 60;
    || (before > 0 && b.end == m.start &&
        b.start == if m.start - before < work.start then work.start else m.start - before)
    || (after > 0 && b.start == m.end &&
        b.end == if m.end + after > work.end then work.end else m.end + after)
  }

  lemma LongMeetings(s: Settings, events: seq<Event>, m: Interval)
    ensures IsMeeting(s, events, m) <==> exists e | e in events && LongMeeting(s, e) :: e.times.value == m
  {
    forall e: Event ensures Qualifies(s, e) <==> LongMeeting(s, e) {
      if e.times.Some? {
        MinutesExactly(e.times.value.end - e.times.value.start);
      }
    }
  }

  /** A buffer in the settings' own figures. */
  lemma BufferExactly(s: Settings, events: seq<Event>, work: Interval, b: Interval)
    ensures IsBuffer(s, events, work, b) <==>
      && s.bufferEnabled && b.start < b.end
      && (exists e | e in events && LongMeeting(s, e) :: Beside(s, work, e.times.value, b))
      && (s.bufferSkipBackToBack ==> forall e | e in events && LongMeeting(s, e) ::
            b.end <= e.times.value.start || e.times.value.end <= b.start)
  {
    forall m ensures IsMeeting(s, events, m) <==> exists e | e in events && LongMeeting(s, e) :: e.times.value == m {
      LongMeetings(s, events, m);
    }
    forall m ensures Around(s, work, m, b) <==> Beside(s, work, m, b) {
    }
    if m :| IsMeeting(s, events, m) && Around(s, work, m, b) {
      var e :| e in events && LongMeeting(s, e) && e.times.value == m;
    }
    forall e | e in events && LongMeeting(s, e) ensures IsMeeting(s, events, e.times.value) {
    }
  }

  method QualifyingMeetings(events: seq<Event>, s: Settings) returns (meetings: seq<Interval>)
    ensures forall m :: m in meetings <==> IsMeeting(s, events, m)
  {
    var minDur := s.bufferMinMeeting;
    if minDur <= 0 {
      minDur := 1;
    }
    meetings := [];
    for i := 0 to |events|
      invariant forall m :: m in meetings <==> IsMeeting(s, events[..i], m)
    {
      var e := events[i];
      assert events[..i+1] == events[..i] + [e];
      if !e.transparent && e.times.Some? && Minutes(Length(e.times.value)) >= minDur {
        meetings := meetings + [e.times.value];
      }
    }
    assert events[..|events|] == events;
  }

  method BuffersAround(m: Interval, s: Settings, work: Interval) returns (buffers: seq<Interval>)
    ensures forall b :: b in buffers <==> b.start < b.end && Around(s, work, m, b)
  {
    buffers := [];
    if s.bufferBefore > 0 {
      var bStart := m.start - s.bufferBefore * 60;
      if bStart < work.start {
        bStart := work.start;
      }
      if bStart < m.start {
        buffers := buffers + [Interval(bStart, m.start)];
      }
    }
    if s.bufferAfter > 0 {
      var bEnd := m.end + s.bufferAfter * 60;
      if bEnd > work.end {
        bEnd := work.end;
      }
      if bEnd > m.end {
        buffers := buffers + [Interval(m.end, bEnd)];
      }
    }
  }

  method AllBuffers(meetings: seq<Interval>, s: Settings, work: Interval) returns (buffers: seq<Interval>)
    ensures forall b :: b in buffers <==> b.start < b.end && exists m :: m in meetings && Around(s, work, m, b)
  {
    buffers := [];
    for i := 0 to |meetings|
      invariant forall b :: b in buffers <==> b.start < b.end && exists m :: m in meetings[..i] && Around(s, work, m, b)
    {
      var around := BuffersAround(meetings[i], s, work);
      assert meetings[..i+1] == meetings[..i] + [meetings[i]];
      buffers := buffers + around;
    }
    assert meetings[..|meetings|] == meetings;
  }

  /** ComputeBufferBlocks. */
  method ComputeBufferBlocks(events: seq<Event>, s: Settings, work: Interval) returns (r: seq<Interval>)
    ensures forall b :: b in r <==> IsBuffer(s, events, work, b)
  {
    if !s.bufferEnabled {
      return [];
    }
    if s.bufferBefore == 0 && s.bufferAfter == 0 {
      return [];
    }
    var meetings := QualifyingMeetings(events, s);
    var buffers := AllBuffers(meetings, s, work);
    if !s.bufferSkipBackToBack {
      return buffers;
    }
    r := ClearOf(buffers, meetings);
  }

  method ClearOf(buffers: seq<Interval>, meetings: seq<Interval>) returns (r: seq<Interval>)
    ensures forall b :: b in r <==> b in buffers && !OverlapsAny(b, meetings)
  {
    r := [];
    for i := 0 to |buffers|
      invariant forall b :: b in r <==> b in buffers[..i] && !OverlapsAny(b, meetings)
    {
      var hit := OverlapScan(buffers[i], meetings);
      assert buffers[..i+1] == buffers[..i] + [buffers[i]];
      if !hit {
        r := r + [buffers[i]];
      }
    }
    assert buffers[..|buffers|] == buffers;
  }

  // ---- busy time ----

  ghost predicate EventHit(events: seq<Event>, iv: Interval) {
    exists e | e in events :: Opaque(e) && Overlap(iv, e.times.value)
  }

  /** Whether lunch, an opaque event or a buffer stands in the way. */
  ghost predicate Blocked(s: Settings, lunch: Option<Interval>, events: seq<Event>, work: Interval, iv: Interval) {
    || (lunch.Some? && Overlap(iv, lunch.value))
    || EventHit(events, iv)
    || (exists b :: IsBuffer(s, events, work, b) && Overlap(iv, b))
  }

  lemma BlockedExactly(s: Settings, lunch: Option<Interval>, events: seq<Event>, work: Interval, iv: Interval)
    ensures Blocked(s, lunch, events, work, iv) <==>
      || (lunch.Some? && iv.start < lunch.value.end && lunch.value.start < iv.end)
      || (exists e | e in events :: !e.transparent && e.times.Some?
            && iv.start < e.times.value.end && e.times.value.start < iv.end)
      || (exists b :: IsBuffer(s, events, work, b) && iv.start < b.end && b.start < iv.end)
  {
  }

  /** An opaque event near the work window, cut to it. */
  function Clamp(e: Event, work: Interval): seq<Interval> {
    if Opaque(e) && !(e.times.value.end < work.start) && !(e.times.value.start > work.end)
    then [Interval(Max(e.times.value.start, work.start), Min(e.times.value.end, work.end))] else []
  }

  function Clamped(events: seq<Event>, work: Interval): seq<Interval> {
    if events == [] then [] else Clamped(events[..|events|-1], work) + Clamp(events[|events|-1], work)
  }

  lemma ClampHit(e: Event, work: Interval, iv: Interval)
    requires iv.start < iv.end && Inside(iv, work)
    ensures OverlapsAny(iv, Clamp(e, work)) <==> EventHit([e], iv)
  {
    if Opaque(e) && Overlap(iv, e.times.value) {
      assert Clamp(e, work)[0] in Clamp(e, work) && e in [e];
    }
  }

  lemma {:induction false} ClampedBlocks(events: seq<Event>, work: Interval, iv: Interval)
    requires iv.start < iv.end && Inside(iv, work)
    ensures OverlapsAny(iv, Clamped(events, work)) <==> EventHit(events, iv)
  {
    if events != [] {
      var init, e := events[..|events|-1], events[|events|-1];
      assert events == init + [e];
      ClampedBlocks(init, work, iv);
      ClampHit(e, work, iv);
      assert EventHit(events, iv) <==> EventHit(init, iv) || EventHit([e], iv);
      OverlapsConcat(iv, Clamped(init, work), Clamp(e, work));
    }
  }

  lemma {:induction false} ClampedWellFormed(events: seq<Event>, work: Interval)
    requires work.start <= work.end
    requires forall e | e in events && Opaque(e) :: e.times.value.start <= e.times.value.end
    ensures WellFormed(Clamped(events, work))
  {
    if events != [] {
      var init, e := events[..|events|-1], events[|events|-1];
      assert forall x | x in init :: x in events;
      assert e in events;
      ClampedWellFormed(init, work);
    }
  }

  /** Nothing handed to the day ends before it starts. */
  ghost predicate Sane(lunch: Option<Interval>, events: seq<Event>, work: Interval) {
    && work.start <= work.end
    && (lunch.Some? ==> lunch.value.start <= lunch.value.end)
    && forall e | e in events && Opaque(e) :: e.times.value.start <= e.times.value.end
  }

  /** Inside the work hours the list blocks exactly what is blocked. */
  ghost predicate Blocks(s: Settings, lunch: Option<Interval>, events: seq<Event>, work: Interval,
                         merged: seq<Interval>) {
    forall iv: Interval | iv.start < iv.end && Inside(iv, work) ::
      OverlapsAny(iv, merged) <==> Blocked(s, lunch, events, work, iv)
  }

  /** buildBusy's loop: the opaque events, clamped to the work hours. */
  method ClampedEvents(events: seq<Event>, work: Interval) returns (all: seq<Interval>)
    ensures all == Clamped(events, work)
  {
    all := [];
    for i := 0 to |events|
      invariant all == Clamped(events[..i], work)
    {
      var e := events[i];
      assert events[..i+1][..i] == events[..i];
      if e.transparent || e.times.None? {
        continue;
      }
      var start, end := e.times.value.start, e.times.value.end;
      if end < work.start || start > work.end {
        continue;
      }
      if start < work.start {
        start := work.start;
      }
      if end > work.end {
        end := work.end;
      }
      all := all + [Interval(start, end)];
    }
    assert events[..|events|] == events;
  }

  /** buildBusy: merged, and it blocks exactly what is blocked. */
  method BuildBusy(events: seq<Event>, work: Interval, s: Settings, lunch: Option<Interval>)
    returns (merged: seq<Interval>)
    ensures Separated(merged) && Blocks(s, lunch, events, work, merged)
    ensures Sane(lunch, events, work) ==> WellFormed(merged)
  {
    var all: seq<Interval> := [];
    if lunch.Some? {
      all := [lunch.value];
    }
    ghost var first := all;
    var clamped := ClampedEvents(events, work);
    all := all + clamped;
    ghost var second := all;
    var buffers := ComputeBufferBlocks(events, s, work);
    all := all + buffers;
    merged := Merged(all);
    MergeIsCanonical(all, 0);
    forall iv: Interval | iv.start < iv.end && Inside(iv, work)
      ensures OverlapsAny(iv, merged) <==> Blocked(s, lunch, events, work, iv)
    {
      MergeKeepsOverlaps(all, iv);
      ClampedBlocks(events, work, iv);
      OverlapsConcat(iv, first, Clamped(events, work));
      OverlapsConcat(iv, second, buffers);
    }
    if Sane(lunch, events, work) {
      ClampedWellFormed(events, work);
    }
  }

  // ---- one day ----

  /** The block taken from a free slot: buffers off both ends, no longer than
      the longest block. */
  function Trimmed(s: Settings, slot: Interval): (b: Interval)
    ensures b.start == slot.start + s.bufferBefore * 60
    ensures b.end <= slot.end - s.bufferAfter * 60
    ensures b.end - b.start <= s.maxBlock * 60 && b.end - b.start <= Minutes(slot.end - slot.start) * 60
    ensures || b.end == slot.end - s.bufferAfter * 60
            || b.end - b.start == s.maxBlock * 60
            || b.end - b.start == Minutes(slot.end - slot.start) * 60
  {
    var start := slot.start + s.bufferBefore * 60;
    Interval(start, Min(start + Min(Minutes(Length(slot)), s.maxBlock) * 60, slot.end - s.bufferAfter * 60))
  }

  /** Which blocks are created from the candidates in order while minutes
      remain; creates says which the calendar accepts. */
  function Plan(s: Settings, creates: Interval -> bool, slots: seq<Interval>, remaining: int): seq<Interval> {
    if slots == [] || remaining <= 0 then []
    else
      var block := Trimmed(s, slots[0]);
      if Minutes(Length(block)) < s.minBlock || !creates(block) then Plan(s, creates, slots[1..], remaining)
      else [block] + Plan(s, creates, slots[1..], remaining - Minutes(Length(block)))
  }

  /** How many creations fail on the way. */
  function Refusals(s: Settings, creates: Interval -> bool, slots: seq<Interval>, remaining: int): nat {
    if slots == [] || remaining <= 0 then 0
    else
      var block := Trimmed(s, slots[0]);
      if Minutes(Length(block)) < s.minBlock then Refusals(s, creates, slots[1..], remaining)
      else if !creates(block) then 1 + Refusals(s, creates, slots[1..], remaining)
      else Refusals(s, creates, slots[1..], remaining - Minutes(Length(block)))
  }

  function TotalMinutes(blocks: seq<Interval>): int {
    if blocks == [] then 0 else Minutes(Length(blocks[0])) + TotalMinutes(blocks[1..])
  }

  /** The total is the sum: of two lists one after the other, of one block. */
  lemma {:induction false} MinutesAdd(a: seq<Interval>, b: seq<Interval>, block: Interval)
    ensures TotalMinutes(a + b) == TotalMinutes(a) + TotalMinutes(b)
    ensures TotalMinutes([block]) == Minutes(block.end - block.start)
  {
    if a == [] {
      assert a + b == b;
    } else {
      MinutesAdd(a[1..], b, block);
      assert (a + b)[1..] == a[1..] + b;
    }
  }

  function LongEnough(s: Settings, slots: seq<Interval>): seq<Interval> {
    if slots == [] then []
    else LongEnough(s, slots[..|slots|-1]) +
         if Minutes(Length(slots[|slots|-1])) < s.minBlock then [] else [slots[|slots|-1]]
  }

  /** A block long enough is no longer than the longest and lies in its slot. */
  lemma TrimmedFits(s: Settings, slot: Interval)
    requires s.minBlock >= 1 && s.bufferBefore >= 0 && s.bufferAfter >= 0
    requires Minutes(Length(Trimmed(s, slot))) >= s.minBlock
    ensures Minutes(Length(Trimmed(s, slot))) <= s.maxBlock && Inside(Trimmed(s, slot), slot)
  {
  }

  ghost predicate Fits(s: Settings, creates: Interval -> bool, slots: seq<Interval>, b: Interval) {
    creates(b) && s.minBlock <= Minutes(Length(b)) <= s.maxBlock && FitsIn(b, slots)
  }

  lemma {:induction false} PlanFitsEach(s: Settings, creates: Interval -> bool, slots: seq<Interval>, remaining: int,
                                        b: Interval)
    requires s.minBlock >= 1 && s.bufferBefore >= 0 && s.bufferAfter >= 0
    requires b in Plan(s, creates, slots, remaining)
    ensures Fits(s, creates, slots, b)
  {
    var slot, rest := slots[0], slots[1..];
    var block := Trimmed(s, slot);
    assert slot in slots && forall x | x in rest :: x in slots;
    if Minutes(Length(block)) < s.minBlock || !creates(block) {
      PlanFitsEach(s, creates, rest, remaining, b);
    } else if b == block {
      TrimmedFits(s, slot);
    } else {
      PlanFitsEach(s, creates, rest, remaining - Minutes(Length(block)), b);
    }
  }

  lemma {:induction false} PlanTotal(s: Settings, creates: Interval -> bool, slots: seq<Interval>, remaining: int)
    requires s.minBlock >= 1 && s.bufferBefore >= 0 && s.bufferAfter >= 0
    ensures var p := Plan(s, creates, slots, remaining); p != [] ==> TotalMinutes(p) < remaining + s.maxBlock
  {
    if slots != [] && remaining > 0 {
      var block := Trimmed(s, slots[0]);
      if Minutes(Length(block)) < s.minBlock || !creates(block) {
        PlanTotal(s, creates, slots[1..], remaining);
      } else {
        var rest := Plan(s, creates, slots[1..], remaining - Minutes(Length(block)));
        PlanTotal(s, creates, slots[1..], remaining - Minutes(Length(block)));
        TrimmedFits(s, slots[0]);
        assert ([block] + rest)[1..] == rest;
        assert rest == [] ==> TotalMinutes(rest) == 0;
      }
    }
  }

  /** Each block comes from a slot of its own, is of an allowed length, and the
      total overshoots by less than one longest block. */
  lemma PlanFits(s: Settings, creates: Interval -> bool, slots: seq<Interval>, remaining: int)
    requires s.minBlock >= 1 && s.bufferBefore >= 0 && s.bufferAfter >= 0
    ensures var p := Plan(s, creates, slots, remaining);
      && (forall b | b in p :: creates(b) && s.minBlock <= Minutes(Length(b)) <= s.maxBlock && FitsIn(b, slots))
      && (p != [] ==> TotalMinutes(p) < remaining + s.maxBlock)
  {
    PlanTotal(s, creates, slots, remaining);
    forall b | b in Plan(s, creates, slots, remaining) ensures Fits(s, creates, slots, b) {
      PlanFitsEach(s, creates, slots, remaining, b);
    }
  }

  /** Pairwise apart: as intervals and as instants. */
  ghost predicate Apart(s: seq<Interval>) {
    forall i, j | 0 <= i < j < |s| :: Clear(s[i], s[j])
  }

  predicate Clear(a: Interval, b: Interval) { a.end <= b.start || b.end <= a.start }

  /** A block stays clear of a block from another slot. */
  lemma FitsElsewhere(slot: Interval, rest: seq<Interval>, block: Interval, b: Interval)
    requires Apart([slot] + rest) && Inside(block, slot) && FitsIn(b, rest)
    ensures Clear(block, b)
  {
    var f :| f in rest && Inside(b, f);
    var k :| 0 <= k < |rest| && rest[k] == f;
    var all := [slot] + rest;
    assert all[0] == slot && all[k+1] == f;
  }

  lemma {:induction false} PlanApart(s: Settings, creates: Interval -> bool, slots: seq<Interval>, remaining: int)
    requires s.minBlock >= 1 && s.bufferBefore >= 0 && s.bufferAfter >= 0 && Apart(slots)
    ensures Apart(Plan(s, creates, slots, remaining))
  {
    if slots != [] && remaining > 0 {
      var block, rest := Trimmed(s, slots[0]), slots[1..];
      if Minutes(Length(block)) < s.minBlock || !creates(block) {
        PlanApart(s, creates, rest, remaining);
      } else {
        var left := remaining - Minutes(Length(block));
        var later := Plan(s, creates, rest, left);
        PlanApart(s, creates, rest, left);
        PlanFits(s, creates, rest, left);
        assert slots == [slots[0]] + rest;
        forall b | b in later ensures Clear(block, b) {
          FitsElsewhere(slots[0], rest, block, b);
        }
        ApartCons(block, later);
      }
    }
  }

  lemma ApartCons(block: Interval, later: seq<Interval>)
    requires Apart(later) && forall b | b in later :: Clear(block, b)
    ensures Apart([block] + later)
  {
    var all := [block] + later;
    forall i, j | 0 <= i < j < |all| ensures Clear(all[i], all[j]) {
      assert all[j] == later[j-1] && later[j-1] in later;
    }
  }

  /** A plan short of its minutes has used every slot the calendar would take. */
  lemma {:induction false} PlanExhausts(s: Settings, creates: Interval -> bool, slots: seq<Interval>,
                                        remaining: int, slot: Interval)
    requires s.minBlock >= 1 && slot in slots
    requires Minutes(Length(Trimmed(s, slot))) >= s.minBlock && creates(Trimmed(s, slot))
    requires TotalMinutes(Plan(s, creates, slots, remaining)) < remaining
    ensures Trimmed(s, slot) in Plan(s, creates, slots, remaining)
  {
    var block := Trimmed(s, slots[0]);
    if Minutes(Length(block)) < s.minBlock || !creates(block) {
      PlanExhausts(s, creates, slots[1..], remaining, slot);
    } else if slot != slots[0] {
      var rest := Plan(s, creates, slots[1..], remaining - Minutes(Length(block)));
      assert ([block] + rest)[1..] == rest;
      PlanExhausts(s, creates, slots[1..], remaining - Minutes(Length(block)), slot);
    }
  }

  lemma {:induction false} LongEnoughOnly(s: Settings, slots: seq<Interval>)
    ensures forall f :: f in LongEnough(s, slots) <==> f in slots && Minutes(Length(f)) >= s.minBlock
    ensures Apart(slots) ==> Apart(LongEnough(s, slots))
  {
    if slots != [] {
      var init, f := slots[..|slots|-1], slots[|slots|-1];
      assert slots == init + [f];
      LongEnoughOnly(s, init);
      forall g | Apart(slots) && g in init ensures Clear(g, f) {
        var k :| 0 <= k < |init| && init[k] == g;
        assert Clear(slots[k], slots[|slots|-1]);
      }
    }
  }

  lemma {:induction false} InsertApart(key: Interval -> int, slots: seq<Interval>, x: Interval)
    requires Apart(slots + [x])
    ensures Apart(Insert(key, slots, x))
  {
    if slots != [] && key(slots[|slots|-1]) > key(x) {
      var init, last := slots[..|slots|-1], slots[|slots|-1];
      var all := slots + [x];
      forall i, j | 0 <= i < j < |init + [x]| ensures Clear((init + [x])[i], (init + [x])[j]) {
        assert (init + [x])[i] == all[i] && (init + [x])[j] == all[if j == |init| then |slots| else j];
      }
      InsertApart(key, init, x);
      InsertPermutes(key, init, x);
      var r := Insert(key, init, x);
      forall i | 0 <= i < |r| ensures Clear(r[i], last) {
        assert r[i] in multiset(r);
        if r[i] == x {
          assert Clear(all[|slots|-1], all[|slots|]);
        } else {
          var k :| 0 <= k < |init| && init[k] == r[i];
          assert Clear(all[k], all[|slots|-1]);
        }
      }
    }
  }

  lemma {:induction false} SortApart(key: Interval -> int, slots: seq<Interval>)
    requires Apart(slots)
    ensures Apart(Sort(key, slots))
  {
    if slots != [] {
      var init, x := slots[..|slots|-1], slots[|slots|-1];
      SortApart(key, init);
      var sorted := Sort(key, init);
      SortMembers(key, init);
      forall i | 0 <= i < |sorted| ensures Clear(sorted[i], x) {
        assert sorted[i] in init;
        var k :| 0 <= k < |init| && init[k] == sorted[i];
        assert Clear(slots[k], slots[|slots|-1]);
      }
      InsertApart(key, sorted, x);
    }
  }

  // ---- the run's result ----

  /** What a run sees of a day: events are None when they cannot be listed. */
  datatype Day = Day(enabled: bool, work: Interval, lunch: Option<Interval>, events: Option<seq<Event>>)

  /** The slots long enough, best score first, ties in order of time. */
  function Ranked(s: Settings, free: seq<Interval>, score: Interval -> int): seq<Interval> {
    Sort(iv => -score(iv), LongEnough(s, free))
  }

  /** How a day was filled: its busy list, the slots tried, the blocks created
      and how many creations failed. */
  datatype Filling = Filling(merged: seq<Interval>, tried: seq<Interval>, blocks: seq<Interval>, failures: nat)

  const NOTHING := Filling([], [], [], 0)

  function PlanAround(s: Settings, work: Interval, merged: seq<Interval>, score: Interval -> int,
                      creates: Interval -> bool, remaining: int): seq<Interval>
  {
    Plan(s, creates, Ranked(s, Subtract(work, merged), score), remaining)
  }

  // ---- the best slots first ----

  /** Long enough to try, and so is the block it would give. */
  predicate Usable(s: Settings, slot: Interval) {
    Minutes(slot.end - slot.start) >= s.minBlock && Minutes(Trimmed(s, slot).end - Trimmed(s, slot).start) >= s.minBlock
  }

  ghost predicate InTime(slots: seq<Interval>) {
    forall i, j | 0 <= i < j < |slots| :: slots[i].start < slots[j].start
  }

  /** a is tried before b: no lower a score, and the earlier one of equals. */
  predicate Better(score: Interval -> int, a: Interval, b: Interval, inTime: bool) {
    score(a) >= score(b) && (inTime && score(a) == score(b) ==> a.start < b.start)
  }

  ghost predicate BetterFirst(score: Interval -> int, slots: seq<Interval>, inTime: bool) {
    forall i, j | 0 <= i < j < |slots| :: Better(score, slots[i], slots[j], inTime)
  }

  /** The blocks of the tried slots that the calendar takes, in order. */
  ghost function Accepted(s: Settings, creates: Interval -> bool, tried: seq<Interval>): seq<Interval> {
    if tried == [] then []
    else
      var block := Trimmed(s, tried[0]);
      (if creates(block) then [block] else []) + Accepted(s, creates, tried[1..])
  }

  /** Only usable slots are tried, the best first, each while minutes are
      missing; a usable one is left out only behind all of these, with none
      missing. */
  ghost predicate BestFirst(s: Settings, slots: seq<Interval>, score: Interval -> int, creates: Interval -> bool,
                            remaining: int, inTime: bool, tried: seq<Interval>)
  {
    && (forall slot | slot in tried :: slot in slots && Usable(s, slot))
    && BetterFirst(score, tried, inTime)
    && (tried != [] ==> TotalMinutes(Accepted(s, creates, tried[..|tried|-1])) < remaining)
    && forall slot | slot in slots && Usable(s, slot) && slot !in tried ::
         && TotalMinutes(Accepted(s, creates, tried)) >= remaining
         && forall t | t in tried :: Better(score, t, slot, inTime)
  }

  /** The free time of a day, in order: what fits in a piece is inside the work
      hours and not blocked. */
  ghost predicate FreeTime(s: Settings, day: Day, free: seq<Interval>)
    requires day.events.Some?
  {
    && (forall iv: Interval | iv.start < iv.end ::
          FitsIn(iv, free) <==> Inside(iv, day.work) && !Blocked(s, day.lunch, day.events.value, day.work, iv))
    && (Sane(day.lunch, day.events.value, day.work) && day.work.start < day.work.end ==> InTime(free))
  }

  /** A day's blocks come from the best free slots, in that order, until the
      target is met; every other try is a failure. */
  ghost predicate TakesBest(s: Settings, day: Day, score: Interval -> int, creates: Interval -> bool,
                            remaining: int, fill: Filling)
    requires day.events.Some?
  {
    var free := Subtract(day.work, fill.merged);
    && FreeTime(s, day, free) && BestFirst(s, free, score, creates, remaining, InTime(free), fill.tried)
    && fill.blocks == Accepted(s, creates, fill.tried) && fill.failures == |fill.tried| - |fill.blocks|
  }

  lemma FirstTried(s: Settings, creates: Interval -> bool, x: Interval, rest: seq<Interval>)
    ensures var block := Trimmed(s, x);
      && Accepted(s, creates, [x] + rest) == (if creates(block) then [block] else []) + Accepted(s, creates, rest)
      && TotalMinutes(Accepted(s, creates, [x] + rest)) ==
        TotalMinutes(Accepted(s, creates, rest)) + if creates(block) then Minutes(Length(block)) else 0
  {
    assert ([x] + rest)[1..] == rest;
    var block, more := Trimmed(s, x), Accepted(s, creates, rest);
    assert ([block] + more)[1..] == more && [] + more == more;
  }

  /** What trying x first takes from the missing minutes. */
  function StillMissing(s: Settings, creates: Interval -> bool, x: Interval, remaining: int): int {
    remaining - if creates(Trimmed(s, x)) then Minutes(Length(Trimmed(s, x))) else 0
  }

  lemma TurnCons(score: Interval -> int, x: Interval, later: seq<Interval>, inTime: bool)
    requires BetterFirst(score, later, inTime) && forall t | t in later :: Better(score, x, t, inTime)
    ensures BetterFirst(score, [x] + later, inTime)
  {
    var all := [x] + later;
    forall i, j | 0 <= i < j < |all| ensures Better(score, all[i], all[j], inTime) {
      assert all[j] == later[j-1] && later[j-1] in later;
    }
  }

  /** The minutes missing before the last try. */
  lemma LastTry(s: Settings, creates: Interval -> bool, x: Interval, later: seq<Interval>, remaining: int)
    requires remaining > 0
    requires later != [] ==>
      TotalMinutes(Accepted(s, creates, later[..|later|-1])) < StillMissing(s, creates, x, remaining)
    ensures var tried := [x] + later; TotalMinutes(Accepted(s, creates, tried[..|tried|-1])) < remaining
  {
    var tried := [x] + later;
    if later != [] {
      FirstTried(s, creates, x, later[..|later|-1]);
      assert tried[..|tried|-1] == [x] + later[..|later|-1];
    } else {
      assert tried[..|tried|-1] == [];
    }
  }

  /** One usable slot before the tries of the rest. */
  lemma TriedNext(s: Settings, x: Interval, rest: seq<Interval>, score: Interval -> int, creates: Interval -> bool,
                  remaining: int, inTime: bool, later: seq<Interval>)
    requires remaining > 0 && Usable(s, x) && forall slot | slot in rest :: Better(score, x, slot, inTime)
    requires BestFirst(s, rest, score, creates, StillMissing(s, creates, x, remaining), inTime, later)
    ensures BestFirst(s, [x] + rest, score, creates, remaining, inTime, [x] + later)
  {
    TurnCons(score, x, later, inTime);
    LastTry(s, creates, x, later, remaining);
    FirstTried(s, creates, x, later);
    var tried := [x] + later;
    forall slot | slot in [x] + rest && Usable(s, slot) && slot !in tried
      ensures TotalMinutes(Accepted(s, creates, tried)) >= remaining
      ensures forall t | t in tried :: Better(score, t, slot, inTime)
    {
      assert slot in rest && slot !in later;
    }
  }

  /** An unusable slot before them. */
  lemma NotTried(s: Settings, x: Interval, rest: seq<Interval>, score: Interval -> int, creates: Interval -> bool,
                 remaining: int, inTime: bool, tried: seq<Interval>)
    requires !Usable(s, x) && BestFirst(s, rest, score, creates, remaining, inTime, tried)
    ensures BestFirst(s, [x] + rest, score, creates, remaining, inTime, tried)
  {
  }

  lemma HeadIsBetter(score: Interval -> int, slots: seq<Interval>, inTime: bool)
    requires BetterFirst(score, slots, inTime) && slots != []
    ensures BetterFirst(score, slots[1..], inTime)
    ensures forall slot | slot in slots[1..] :: slot in slots && Better(score, slots[0], slot, inTime)
  {
    forall slot | slot in slots[1..] ensures slot in slots && Better(score, slots[0], slot, inTime) {
      var k :| 0 <= k < |slots| - 1 && slots[1..][k] == slot;
      assert Better(score, slots[0], slots[k+1], inTime);
    }
  }

  lemma {:induction false} PlanTriesBest(s: Settings, slots: seq<Interval>, score: Interval -> int,
                                         creates: Interval -> bool, remaining: int, inTime: bool)
    returns (tried: seq<Interval>)
    requires BetterFirst(score, slots, inTime) && forall slot | slot in slots :: Minutes(Length(slot)) >= s.minBlock
    ensures BestFirst(s, slots, score, creates, remaining, inTime, tried)
    ensures Plan(s, creates, slots, remaining) == Accepted(s, creates, tried)
    ensures Refusals(s, creates, slots, remaining) == |tried| - |Accepted(s, creates, tried)|
  {
    if slots == [] || remaining <= 0 {
      tried := [];
    } else {
      var x, rest := slots[0], slots[1..];
      HeadIsBetter(score, slots, inTime);
      assert x in slots && slots == [x] + rest;
      if Minutes(Length(Trimmed(s, x))) < s.minBlock {
        tried := PlanTriesBest(s, rest, score, creates, remaining, inTime);
        NotTried(s, x, rest, score, creates, remaining, inTime, tried);
      } else {
        var later := PlanTriesBest(s, rest, score, creates, StillMissing(s, creates, x, remaining), inTime);
        TriedNext(s, x, rest, score, creates, remaining, inTime, later);
        tried := [x] + later;
        PlanTriesOne(s, x, rest, creates, remaining, later);
      }
    }
  }

  lemma PlanCons(s: Settings, creates: Interval -> bool, x: Interval, rest: seq<Interval>, remaining: int)
    requires remaining > 0 && Minutes(Length(Trimmed(s, x))) >= s.minBlock
    ensures Plan(s, creates, [x] + rest, remaining) ==
      (if creates(Trimmed(s, x)) then [Trimmed(s, x)] else []) +
      Plan(s, creates, rest, StillMissing(s, creates, x, remaining))
    ensures Refusals(s, creates, [x] + rest, remaining) ==
      (if creates(Trimmed(s, x)) then 0 else 1) + Refusals(s, creates, rest, StillMissing(s, creates, x, remaining))
  {
    var all := [x] + rest;
    assert all[1..] == rest && all[0] == x;
  }

  lemma PlanTriesOne(s: Settings, x: Interval, rest: seq<Interval>, creates: Interval -> bool, remaining: int,
                     later: seq<Interval>)
    requires remaining > 0 && Minutes(Length(Trimmed(s, x))) >= s.minBlock
    requires var left := StillMissing(s, creates, x, remaining);
      && Plan(s, creates, rest, left) == Accepted(s, creates, later)
      && Refusals(s, creates, rest, left) == |later| - |Accepted(s, creates, later)|
    ensures Plan(s, creates, [x] + rest, remaining) == Accepted(s, creates, [x] + later)
    ensures Refusals(s, creates, [x] + rest, remaining) == 1 + |later| - |Accepted(s, creates, [x] + later)|
  {
    PlanCons(s, creates, x, rest, remaining);
    FirstTried(s, creates, x, later);
  }

  lemma {:induction false} LongInTime(s: Settings, slots: seq<Interval>)
    requires InTime(slots)
    ensures InTime(LongEnough(s, slots))
  {
    if slots != [] {
      var init, last := slots[..|slots|-1], slots[|slots|-1];
      LongInTime(s, init);
      LongEnoughOnly(s, init);
      forall f | f in LongEnough(s, init) ensures f.start < last.start {
        var k :| 0 <= k < |init| && init[k] == f;
        assert slots[k].start < slots[|slots|-1].start;
      }
    }
  }

  lemma RankedIsBetterFirst(score: Interval -> int, long: seq<Interval>, inTime: bool)
    requires InTurn(iv => -score(iv), Start, Sort(iv => -score(iv), long), inTime)
    ensures BetterFirst(score, Sort(iv => -score(iv), long), inTime)
  {
    var key, sorted := (iv: Interval) => -score(iv), Sort(iv => -score(iv), long);
    forall i, j | 0 <= i < j < |sorted| ensures Better(score, sorted[i], sorted[j], inTime) {
      assert Ahead(key, Start, sorted[i], sorted[j], inTime);
    }
  }

  /** The planned blocks of a list of free slots, whatever their scores. */
  lemma RankedTakesBest(s: Settings, free: seq<Interval>, score: Interval -> int, creates: Interval -> bool,
                        remaining: int) returns (tried: seq<Interval>)
    ensures BestFirst(s, free, score, creates, remaining, InTime(free), tried)
    ensures Plan(s, creates, Ranked(s, free, score), remaining) == Accepted(s, creates, tried)
    ensures Refusals(s, creates, Ranked(s, free, score), remaining) == |tried| - |Accepted(s, creates, tried)|
  {
    var long := LongEnough(s, free);
    LongEnoughOnly(s, free);
    if InTime(free) {
      LongInTime(s, free);
    }
    SortMembers(iv => -score(iv), long);
    SortInTurn(iv => -score(iv), Start, long, InTime(free));
    RankedIsBetterFirst(score, long, InTime(free));
    tried := PlanTriesBest(s, Ranked(s, free, score), score, creates, remaining, InTime(free));
  }

  lemma FreeTimeIs(s: Settings, day: Day, merged: seq<Interval>)
    requires day.events.Some? && Blocks(s, day.lunch, day.events.value, day.work, merged)
    requires Sane(day.lunch, day.events.value, day.work) ==> WellFormed(merged)
    ensures FreeTime(s, day, Subtract(day.work, merged))
  {
    var free := Subtract(day.work, merged);
    forall iv: Interval | iv.start < iv.end
      ensures FitsIn(iv, free) <==> Inside(iv, day.work) && !Blocked(s, day.lunch, day.events.value, day.work, iv)
    {
      FreeExactly(day.work, merged, iv);
    }
    if Sane(day.lunch, day.events.value, day.work) && day.work.start < day.work.end {
      SubtractPieces(day.work, merged);
      forall i, j | 0 <= i < j < |free| ensures free[i].start < free[j].start {
        assert free[i] in free;
      }
    }
  }

  /** What one day may create, with remaining minutes still to fill. */
  ghost predicate Sound(s: Settings, day: Day, creates: Interval -> bool, remaining: int, blocks: seq<Interval>)
    requires day.events.Some?
  {
    && (forall b | b in blocks ::
          && creates(b) && s.minBlock <= Minutes(Length(b)) <= s.maxBlock
          && Inside(b, day.work) && !Blocked(s, day.lunch, day.events.value, day.work, b))
    && (blocks != [] ==> TotalMinutes(blocks) < remaining + s.maxBlock)
    && (Sane(day.lunch, day.events.value, day.work) ==> Apart(blocks))
  }

  lemma DayIsSound(s: Settings, day: Day, creates: Interval -> bool, score: Interval -> int, remaining: int,
                   merged: seq<Interval>)
    requires s.minBlock >= 1 && s.bufferBefore >= 0 && s.bufferAfter >= 0 && day.events.Some?
    requires Blocks(s, day.lunch, day.events.value, day.work, merged)
    requires Sane(day.lunch, day.events.value, day.work) ==> WellFormed(merged)
    ensures Sound(s, day, creates, remaining, PlanAround(s, day.work, merged, score, creates, remaining))
  {
    var free := Subtract(day.work, merged);
    var long := LongEnough(s, free);
    var slots := Ranked(s, free, score);
    var blocks := PlanAround(s, day.work, merged, score, creates, remaining);
    PlanFits(s, creates, slots, remaining);
    SortMembers(iv => -score(iv), long);
    LongEnoughOnly(s, free);
    forall b | b in blocks ensures Inside(b, day.work) && !OverlapsAny(b, merged) {
      var f :| f in slots && Inside(b, f);
      assert f in free;
      FreeExactly(day.work, merged, b);
    }
    if Sane(day.lunch, day.events.value, day.work) && blocks != [] {
      assert blocks[0] in blocks;
      SubtractPieces(day.work, merged);
      SortApart(iv => -score(iv), long);
      PlanApart(s, creates, slots, remaining);
    }
  }

  /** What becomes of a day: sound blocks, from the best slots. */
  ghost predicate FilledWell(s: Settings, day: Day, score: Interval -> int, creates: Interval -> bool,
                             remaining: int, fill: Filling)
    requires day.events.Some?
  {
    Sound(s, day, creates, remaining, fill.blocks) && TakesBest(s, day, score, creates, remaining, fill)
  }

  /** And it is what the plan over the candidates makes of it. */
  lemma PlanFillsWell(s: Settings, day: Day, creates: Interval -> bool, score: Interval -> int, remaining: int,
                      merged: seq<Interval>) returns (fill: Filling)
    requires s.minBlock >= 1 && s.bufferBefore >= 0 && s.bufferAfter >= 0 && day.events.Some?
    requires Blocks(s, day.lunch, day.events.value, day.work, merged)
    requires Sane(day.lunch, day.events.value, day.work) ==> WellFormed(merged)
    ensures FilledWell(s, day, score, creates, remaining, fill) && fill.merged == merged
    ensures fill.blocks == PlanAround(s, day.work, merged, score, creates, remaining)
    ensures fill.failures == Refusals(s, creates, Ranked(s, Subtract(day.work, merged), score), remaining)
  {
    var slots := Ranked(s, Subtract(day.work, merged), score);
    DayIsSound(s, day, creates, score, remaining, merged);
    FreeTimeIs(s, day, merged);
    var tried := RankedTakesBest(s, Subtract(day.work, merged), score, creates, remaining);
    fill := Filling(merged, tried, Plan(s, creates, slots, remaining), Refusals(s, creates, slots, remaining));
  }

  /** FocusRunResult, filled in day by day. */
  class FocusRun {
    var created: seq<Interval>
    var skippedDays: seq<int>
    var totalMinutes: int
    var errors: nat

    constructor ()
      ensures created == [] && skippedDays == [] && totalMinutes == 0 && errors == 0
    {
      created, skippedDays, totalMinutes, errors := [], [], 0, 0;
    }

    /** processDay: the blocks it adds are sound and come from the best slots,
        whichever creations fail. */
    method ProcessDay(s: Settings, date: int, existing: int, day: Day, score: Interval -> int,
                      creates: Interval -> bool)
      returns (failed: bool, ghost fill: Filling)
      requires s.minBlock >= 1 && s.bufferBefore >= 0 && s.bufferAfter >= 0
      modifies this
      ensures created == old(created) + fill.blocks
      ensures totalMinutes == old(totalMinutes) + TotalMinutes(fill.blocks) && errors == old(errors) + fill.failures
      ensures skippedDays == old(skippedDays) + if existing >= s.dailyTarget || !day.enabled then [date] else []
      ensures failed <==> existing < s.dailyTarget && day.enabled && day.events.None?
      ensures if existing >= s.dailyTarget || !day.enabled || failed then fill == NOTHING
              else FilledWell(s, day, score, creates, s.dailyTarget - existing, fill)
    {
      failed, fill := false, NOTHING;
      if existing >= s.dailyTarget {
        skippedDays := skippedDays + [date];
        return;
      }
      var remaining := s.dailyTarget - existing;
      if !day.enabled {
        skippedDays := skippedDays + [date];
        return;
      }
      if day.events.None? {
        return true, NOTHING;
      }
      fill := FillDay(s, day, score, creates, remaining);
    }

    /** The part of processDay with the events at hand. */
    method FillDay(s: Settings, day: Day, score: Interval -> int, creates: Interval -> bool, remaining: int)
      returns (ghost fill: Filling)
      requires s.minBlock >= 1 && s.bufferBefore >= 0 && s.bufferAfter >= 0 && day.events.Some?
      modifies this
      ensures created == old(created) + fill.blocks && skippedDays == old(skippedDays)
      ensures totalMinutes == old(totalMinutes) + TotalMinutes(fill.blocks) && errors == old(errors) + fill.failures
      ensures FilledWell(s, day, score, creates, remaining, fill)
    {
      var merged := BuildBusy(day.events.value, day.work, s, day.lunch);
      var free := SubtractIntervals(day.work, merged);
      var candidates := CollectCandidates(s, free, score);
      fill := PlanFillsWell(s, day, creates, score, remaining, merged);
      CreateBlocks(s, candidates, remaining, creates);
    }

    /** processDay's loop over the candidates. */
    method CreateBlocks(s: Settings, candidates: seq<Interval>, target: int, creates: Interval -> bool)
      modifies this
      ensures created == old(created) + Plan(s, creates, candidates, target)
      ensures totalMinutes == old(totalMinutes) + TotalMinutes(Plan(s, creates, candidates, target))
      ensures skippedDays == old(skippedDays) && errors == old(errors) + Refusals(s, creates, candidates, target)
    {
      var remaining := target;
      ghost var plan, rest := Plan(s, creates, candidates, target), Plan(s, creates, candidates, target);
      ghost var refusals := Refusals(s, creates, candidates, target);
      for i := 0 to |candidates|
        invariant rest == Plan(s, creates, candidates[i..], remaining)
        invariant refusals == Refusals(s, creates, candidates[i..], remaining)
        invariant created + rest == old(created) + plan
        invariant totalMinutes + TotalMinutes(rest) == old(totalMinutes) + TotalMinutes(plan)
        invariant skippedDays == old(skippedDays)
        invariant errors + refusals == old(errors) + Refusals(s, creates, candidates, target)
      {
        if remaining <= 0 {
          break;
        }
        PlanStep(s, creates, candidates, i, remaining);
        ghost var was := created;
        var actual := CreateBlock(s, candidates[i], creates);
        remaining := remaining - actual;
        if created != was {
          MoveOne(was, Trimmed(s, candidates[i]), rest);
          rest := rest[1..];
        }
        refusals := Refusals(s, creates, candidates[i+1..], remaining);
      }
      assert created + rest == created;
    }

    /** One candidate: 0 minutes when its block is too short or is not created. */
    method CreateBlock(s: Settings, slot: Interval, creates: Interval -> bool) returns (actual: int)
      modifies this
      ensures var block := Trimmed(s, slot);
        if Minutes(Length(block)) < s.minBlock || !creates(block)
        then actual == 0 && created == old(created)
        else actual == Minutes(Length(block)) && created == old(created) + [block]
      ensures totalMinutes == old(totalMinutes) + actual && skippedDays == old(skippedDays)
      ensures errors == old(errors) +
        if Minutes(Length(Trimmed(s, slot))) >= s.minBlock && !creates(Trimmed(s, slot)) then 1 else 0
    {
      var block := BlockFrom(s, slot);
      actual := Minutes(block.end - block.start);
      if actual < s.minBlock {
        return 0;
      }
      if !creates(block) {
        errors := errors + 1;
        return 0;
      }
      created := created + [block];
      totalMinutes := totalMinutes + actual;
    }
  }

  lemma MoveOne(done: seq<Interval>, x: Interval, rest: seq<Interval>)
    requires rest != [] && rest[0] == x
    ensures done + rest == done + [x] + rest[1..]
  {
  }

  /** What the next candidate does to the plan and to the failures. */
  lemma PlanStep(s: Settings, creates: Interval -> bool, slots: seq<Interval>, i: nat, remaining: int)
    requires i < |slots| && remaining > 0
    ensures var block := Trimmed(s, slots[i]);
      var plan, refusals := Plan(s, creates, slots[i..], remaining), Refusals(s, creates, slots[i..], remaining);
      var refused := Minutes(Length(block)) < s.minBlock || !creates(block);
      && (refused ==>
            && plan == Plan(s, creates, slots[i+1..], remaining)
            && refusals == Refusals(s, creates, slots[i+1..], remaining) +
              if Minutes(Length(block)) < s.minBlock then 0 else 1)
      && (!refused ==>
            && plan != [] && plan[0] == block
            && plan[1..] == Plan(s, creates, slots[i+1..], remaining - Minutes(Length(block)))
            && refusals == Refusals(s, creates, slots[i+1..], remaining - Minutes(Length(block))))
  {
    assert slots[i..][0] == slots[i] && slots[i..][1..] == slots[i+1..];
  }

  method BlockFrom(s: Settings, slot: Interval) returns (block: Interval)
    ensures block == Trimmed(s, slot)
  {
    var blockDur := Minutes(slot.end - slot.start);
    if blockDur > s.maxBlock {
      blockDur := s.maxBlock;
    }
    var blockStart := slot.start + s.bufferBefore * 60;
    var blockEnd := blockStart + blockDur * 60;
    if blockEnd > slot.end - s.bufferAfter * 60 {
      blockEnd := slot.end - s.bufferAfter * 60;
    }
    block := Interval(blockStart, blockEnd);
  }

  /** The candidate list, then sortByScore. */
  method CollectCandidates(s: Settings, free: seq<Interval>, score: Interval -> int) returns (candidates: seq<Interval>)
    ensures candidates == Ranked(s, free, score)
  {
    var long: seq<Interval> := [];
    for i := 0 to |free|
      invariant long == LongEnough(s, free[..i])
    {
      assert free[..i+1][..i] == free[..i];
      if Minutes(free[i].end - free[i].start) < s.minBlock {
        continue;
      }
      long := long + [free[i]];
    }
    assert free[..|free|] == free;
    var a := new Interval[|long|](i requires 0 <= i < |long| => long[i]);
    assert a[..] == long;
    InsertionSort(a, iv => -score(iv));
    candidates := a[..];
  }
}
