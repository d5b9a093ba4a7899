/** The offerable-start rule's date arithmetic and the checks that need no host
    data (backend/api/booking_rule.go). A day is passed around as an instant,
    the noon time.Date gives for it. */
module BookingRule {
  import opened Options
  import opened Zones
  import opened Intervals
  import opened BookingWindow

  const NOON: int := 43200
  const DEFAULT_HORIZON_DAYS := 60

  datatype Usage = Reusable | SingleUse | Recurring(maxUses: Option<int>)

  datatype Link = Link(
    owner: int, hours: Hours, days: seq<int>, durations: seq<int>,
    bufferBefore: int, bufferAfter: int, notice: int, horizon: int, usage: Usage)

  datatype Reason = BeyondHorizon | OutsideLinkHours | TooSoon

  function NoonOf(z: Zone, date: int): int { DateIn(z, date * DAY + NOON) }

  /** calendarDay. */
  function CalendarDay(z: Zone, t: int): int { NoonOf(z, DateOf(z, t)) }

  /** AddDate(0, 0, n): the same clock time, n dates later. */
  function AddDays(z: Zone, day: int, n: int): int { DateIn(z, Local(z, day) + n * DAY) }

  function DaysBetween(z: Zone, a: int, b: int): int { DateOf(z, b) - DateOf(z, a) }

  function HorizonDays(link: Link): int {
    if link.horizon <= 0 then DEFAULT_HORIZON_DAYS else link.horizon
  }

  predicate InHorizon(z: Zone, link: Link, today: int, day: int) {
    0 <= DaysBetween(z, today, day) < HorizonDays(link)
  }

  /** 1970-01-01, day 0, is a Thursday; Sunday is 0. */
  function Weekday(date: int): int { (date + 4) % 7 }

  method LinkOpenOn(z: Zone, link: Link, day: int) returns (open: bool)
    ensures open <==> Weekday(DateOf(z, day)) in link.days
    ensures open <==> OpenDay(link, Local(z, day) / 86400)
  {
    OpenDayExactly(link, DateOf(z, day));
    for i := 0 to |link.days|
      invariant Weekday(DateOf(z, day)) !in link.days[..i]
    {
      if link.days[i] == Weekday(DateOf(z, day)) {
        return true;
      }
    }
    return false;
  }

  /** No host data is needed to offer this slot on this day. */
  ghost predicate Offerable(z: Zone, link: Link, day: int, minutes: int, now: int, slot: Interval)
    requires Valid(z)
  {
    && InHorizon(z, link, CalendarDay(z, now), day)
    && Weekday(DateOf(z, day)) in link.days
    && OnGrid(z, link.hours, DateOf(z, day), minutes, slot)
    && slot.start >= now + link.notice * 60
  }

  ghost predicate OnOpenGrid(z: Zone, link: Link, minutes: int, slot: Interval)
    requires Valid(z)
  {
    var date := DateOf(z, CalendarDay(z, slot.start));
    Weekday(date) in link.days && OnGrid(z, link.hours, date, minutes, slot)
  }

  /** cheapRefusal, in its order of precedence. */
  method CheapRefusal(z: Zone, link: Link, slot: Interval, minutes: int, now: int) returns (refusal: Option<Reason>)
    requires Valid(z)
    ensures refusal == Cheap(z, link, slot, minutes, now)
  {
    var day := CalendarDay(z, slot.start);
    if DaysBetween(z, CalendarDay(z, now), day) >= HorizonDays(link) {
      return Some(BeyondHorizon);
    }
    var onGrid := false;
    var open := LinkOpenOn(z, link, day);
    if open {
      var slots := GridSlots(z, link.hours, DateOf(z, day), minutes);
      for i := 0 to |slots|
        invariant onGrid <==> slot in slots[..i]
      {
        if slots[i].start == slot.start && slots[i].end == slot.end {
          onGrid := true;
          break;
        }
      }
      assert onGrid <==> slot in slots;
    }
    if !onGrid {
      return Some(OutsideLinkHours);
    }
    if slot.start < now + link.notice * 60 {
      return Some(TooSoon);
    }
    return None;
  }

  ghost function Cheap(z: Zone, link: Link, slot: Interval, minutes: int, now: int): Option<Reason>
    requires Valid(z)
  {
    if DaysBetween(z, CalendarDay(z, now), CalendarDay(z, slot.start)) >= HorizonDays(link) then Some(BeyondHorizon)
    else if !OnOpenGrid(z, link, minutes, slot) then Some(OutsideLinkHours)
    else if slot.start < now + link.notice * 60 then Some(TooSoon)
    else None
  }

  /** Time.Date never lands today two dates ahead: what the agreement below
      rests on. It holds in every zone whose offsets stay under 18 hours. */
  ghost predicate TodayHolds(z: Zone, now: int) {
    DateOf(z, CalendarDay(z, now)) <= DateOf(z, now) + 1
  }

  lemma UsualZonesHold(z: Zone, now: int)
    requires forall t :: -64800 < OffsetAt(z, t) < 64800
    ensures TodayHolds(z, now)
  {
    var w := DateOf(z, now) * DAY + NOON;
    var guess := w - OffsetAt(z, w);
    var o := OffsetAt(z, guess);
    assert Local(z, w - o) == w - o + OffsetAt(z, w - o);
  }

  /** Listing and booking decide the same thing: the booking's cheap checks
      pass exactly on the slots its day offers before busy time, although they
      never ask whether the start's day is before today. In every zone the two
      differ by that question only; where TodayHolds it needs no asking. */
  lemma CheapMeansOfferable(z: Zone, link: Link, slot: Interval, minutes: int, now: int)
    requires Valid(z)
    ensures Offerable(z, link, CalendarDay(z, slot.start), minutes, now, slot)
       <==> Cheap(z, link, slot, minutes, now).None?
            && DaysBetween(z, CalendarDay(z, now), CalendarDay(z, slot.start)) >= 0
    ensures link.notice >= 0 && TodayHolds(z, now) ==>
      Cheap(z, link, slot, minutes, now).None? == Offerable(z, link, CalendarDay(z, slot.start), minutes, now, slot)
  {
    if Cheap(z, link, slot, minutes, now).None? {
      var date := DateOf(z, CalendarDay(z, slot.start));
      OnGridMeans(z, link.hours, date, minutes, slot);
      assert link.notice >= 0 ==> Local(z, now) <= Local(z, slot.start);
    }
  }

  // ---- the rule in plain figures ----

  /** Day 3, 4 January 1970, is a Sunday; days count from Sunday's 0. */
  ghost predicate OpenDay(link: Link, date: int) {
    exists d | d in link.days :: 0 <= d <= 6 && (date - 3 - d) % 7 == 0
  }

  lemma OpenDayExactly(link: Link, date: int)
    ensures Weekday(date) in link.days <==> OpenDay(link, date)
  {
    assert (date - 3 - Weekday(date)) % 7 == 0;
    if d :| d in link.days && 0 <= d <= 6 && (date - 3 - d) % 7 == 0 {
      assert d == Weekday(date);
    }
  }

  /** The dates from today to the day, each the date of the noon time.Date gives. */
  lemma HorizonExactly(z: Zone, link: Link, now: int, day: int)
    ensures var noon := DateIn(z, Local(z, now) / 86400 * 86400 + 43200);
      var ahead := Local(z, day) / 86400 - Local(z, noon) / 86400;
      && CalendarDay(z, now) == noon && DaysBetween(z, noon, day) == ahead
      && (InHorizon(z, link, noon, day) <==> 0 <= ahead < if link.horizon > 0 then link.horizon else 60)
  {
  }

  /** What is offered before busy time: a day from today on within the horizon,
      open by its weekday, a slot of its grid, and the notice kept. */
  lemma OfferableExactly(z: Zone, link: Link, day: int, minutes: int, now: int, slot: Interval)
    requires Valid(z)
    ensures var date := Local(z, day) / 86400;
      var ahead := date - Local(z, DateIn(z, Local(z, now) / 86400 * 86400 + 43200)) / 86400;
      Offerable(z, link, day, minutes, now, slot) <==>
        && 0 <= ahead < (if link.horizon > 0 then link.horizon else 60)
        && OpenDay(link, date)
        && OnGrid(z, link.hours, date, minutes, slot)
        && slot.start >= now + link.notice * 60
  {
    HorizonExactly(z, link, now, day);
    OpenDayExactly(link, DateOf(z, day));
  }

  /** The refusals, each only where no earlier one applies. */
  lemma CheapExactly(z: Zone, link: Link, slot: Interval, minutes: int, now: int)
    requires Valid(z)
    ensures var date := Local(z, DateIn(z, Local(z, slot.start) / 86400 * 86400 + 43200)) / 86400;
      var ahead := date - Local(z, DateIn(z, Local(z, now) / 86400 * 86400 + 43200)) / 86400;
      var beyond := ahead >= if link.horizon > 0 then link.horizon else 60;
      var outside := !OpenDay(link, date) || !OnGrid(z, link.hours, date, minutes, slot);
      var soon := slot.start < now + link.notice * 60;
      && (Cheap(z, link, slot, minutes, now) == Some(BeyondHorizon) <==> beyond)
      && (Cheap(z, link, slot, minutes, now) == Some(OutsideLinkHours) <==> !beyond && outside)
      && (Cheap(z, link, slot, minutes, now) == Some(TooSoon) <==> !beyond && !outside && soon)
      && (Cheap(z, link, slot, minutes, now) == None <==> !beyond && !outside && !soon)
  {
    HorizonExactly(z, link, now, CalendarDay(z, slot.start));
    OpenDayExactly(link, DateOf(z, CalendarDay(z, slot.start)));
  }

  const ODD_ZONE := Zone(-64800, [Change(-18000, 64800)])
  const MORNINGS := Link(0, Hours(Some(540), Some(600)), [5], [], 0, 0, 0, 60, Reusable)

  /** The limit of that result, not a zone that is in use (all stay under 18
      hours): without TodayHolds the two can differ, in a zone that jumps 36 hours
      ahead, one minute after the jump, on the next morning's first slot. */
  lemma AgreementNeedsToday()
    ensures Valid(ODD_ZONE) && !TodayHolds(ODD_ZONE, -17940)
    ensures var slot := Interval(54000, 55800);
      && Cheap(ODD_ZONE, MORNINGS, slot, 30, -17940).None?
      && !Offerable(ODD_ZONE, MORNINGS, CalendarDay(ODD_ZONE, slot.start), 30, -17940, slot)
  {
    OddDays();
    MorningSlot();
    CheapWithoutToday(ODD_ZONE, MORNINGS, Interval(54000, 55800), 30, -17940);
  }

  lemma CheapWithoutToday(z: Zone, link: Link, slot: Interval, minutes: int, now: int)
    requires Valid(z) && OnOpenGrid(z, link, minutes, slot) && slot.start >= now + link.notice * 60
    requires DaysBetween(z, CalendarDay(z, now), CalendarDay(z, slot.start)) < 0 < HorizonDays(link)
    ensures Cheap(z, link, slot, minutes, now).None?
    ensures !Offerable(z, link, CalendarDay(z, slot.start), minutes, now, slot)
  {
  }

  lemma OddDays()
    ensures DateOf(ODD_ZONE, -17940) == 0 && DateOf(ODD_ZONE, CalendarDay(ODD_ZONE, -17940)) == 2
    ensures DateOf(ODD_ZONE, CalendarDay(ODD_ZONE, 54000)) == 1
  {
    OddOffsets(ODD_ZONE);
  }

  lemma MorningSlot()
    ensures Valid(ODD_ZONE) && OnGrid(ODD_ZONE, MORNINGS.hours, 1, 30, Interval(54000, 55800))
  {
    var z := ODD_ZONE;
    OddOffsets(z);
    assert Local(z, 54000) == At(1, 540) && Local(z, 57600) == At(1, 600);
    assert FirstReach(z, At(1, 540), 54000) && FirstReach(z, At(1, 600), 57600);
    FirstReachUnique(z, At(1, 600), 57600, Reached(z, At(1, 600)));
    assert OnGridAt(z, MORNINGS.hours, 1, 30, Interval(54000, 55800), 540);
  }

  lemma OddOffsets(z: Zone)
    requires z == ODD_ZONE
    ensures forall t :: OffsetAt(z, t) == if t >= -18000 then 64800 else -64800
  {
    forall t ensures OffsetAt(z, t) == if t >= -18000 then 64800 else -64800 {
      assert z.changes[..0] == [];
      assert OffsetAt(Zone(z.base, []), t) == z.base;
    }
  }
}
