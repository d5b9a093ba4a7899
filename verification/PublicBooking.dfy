/** The public slot listing and the public booking
    (backend/api/handlers_booking.go, offeredSlots in backend/api/booking_rule.go). */
module PublicBooking {
  import opened Options
  import opened Zones
  import opened Intervals
  import opened BookingWindow
  import opened BookingRule
  import opened Bookings
  import BookingCommit

  /** The offerable-start rule, busy time included. */
  ghost predicate Offered(db: Db, env: Env, id: int, day: int, minutes: int, slot: Interval)
    requires Ready(db, env) && id in db.links
  {
    && Offerable(env.zone, db.links[id], day, minutes, env.now, slot)
    && Collective(db, env, id, DateOf(env.zone, day), minutes, slot)
  }

  ghost predicate DayConsidered(db: Db, env: Env, id: int, day: int)
    requires Ready(db, env) && id in db.links
  {
    && InHorizon(env.zone, db.links[id], CalendarDay(env.zone, env.now), day)
    && Weekday(DateOf(env.zone, day)) in db.links[id].days
  }

  /** Gathering busy time for the day ends in this error. */
  ghost predicate DayFails(db: Db, env: Env, id: int, day: int, error: Answer)
    requires Ready(db, env) && id in db.links
  {
    && DayConsidered(db, env, id, day) && !error.Slots?
    && Gathered(db, env, id, DateOf(env.zone, day)) == Some(error)
  }

  /** offeredSlots. */
  method OfferedSlots(db: Db, env: Env, id: int, day: int, minutes: int) returns (r: Answer)
    requires Ready(db, env) && id in db.links
    ensures forall e :: DayFails(db, env, id, day, e) <==> !r.Slots? && e == r
    ensures r.Slots? ==> Ascending(r.slots) && forall slot :: slot in r.slots <==>
      Offered(db, env, id, day, minutes, slot)
  {
    var link, z := db.links[id], env.zone;
    var open := LinkOpenOn(z, link, day);
    if !InHorizon(z, link, CalendarDay(z, env.now), day) || !open {
      return Slots([]);
    }
    var all := CollectiveSlots(db, env, id, DateOf(z, day), minutes);
    if !all.Slots? {
      return all;
    }
    var earliest := env.now + link.notice * 60;
    var out := NotBefore(all.slots, earliest);
    return Slots(out);
  }

  /** offeredSlots' loop: the slots that keep the notice. */
  method NotBefore(slots: seq<Interval>, earliest: int) returns (out: seq<Interval>)
    requires Ascending(slots)
    ensures Ascending(out) && forall slot :: slot in out <==> slot in slots && slot.start >= earliest
  {
    out := [];
    for i := 0 to |slots|
      invariant Ascending(out)
      invariant forall k | 0 <= k < |out| && 0 < i :: out[k].start <= slots[i-1].start
      invariant i == 0 ==> out == []
      invariant forall slot :: slot in out <==> slot in slots[..i] && slot.start >= earliest
    {
      if slots[i].start >= earliest {
        out := out + [slots[i]];
      }
    }
    assert slots[..|slots|] == slots;
  }

  // ---- the two listing modes ----

  datatype Dates = Dates(dates: seq<int>) | DatesCut

  /** The i-th day of the link's horizon. */
  function HorizonDay(env: Env, i: nat): int {
    AddDays(env.zone, CalendarDay(env.zone, env.now), i)
  }

  /** A day is listed under its date when it offers a slot. */
  ghost predicate DayListed(db: Db, env: Env, id: int, minutes: int, day: int, date: int)
    requires Ready(db, env) && id in db.links
  {
    DateOf(env.zone, day) == date && exists slot :: Offered(db, env, id, day, minutes, slot)
  }

  /** Some of the horizon's first n days is listed under the date. */
  ghost predicate ListedWithin(db: Db, env: Env, id: int, minutes: int, n: nat, date: int)
    requires Ready(db, env) && id in db.links
  {
    exists i: nat :: i < n && DayListed(db, env, id, minutes, HorizonDay(env, i), date)
  }

  ghost predicate CutWithin(db: Db, env: Env, id: int, n: nat)
    requires Ready(db, env) && id in db.links
  {
    exists i: nat :: i < n && DayFails(db, env, id, HorizonDay(env, i), BudgetCut)
  }

  lemma CutNext(db: Db, env: Env, id: int, n: nat)
    requires Ready(db, env) && id in db.links
    ensures CutWithin(db, env, id, n + 1) <==>
      CutWithin(db, env, id, n) || DayFails(db, env, id, HorizonDay(env, n), BudgetCut)
  {
    if i: nat :| i < n + 1 && DayFails(db, env, id, HorizonDay(env, i), BudgetCut) {
      assert i < n || i == n;
    }
  }

  ghost predicate Offers(db: Db, env: Env, id: int, minutes: int, day: int)
    requires Ready(db, env) && id in db.links
  {
    exists slot :: Offered(db, env, id, day, minutes, slot)
  }

  /** The day's date if it offers a slot. */
  ghost function DatesOf(db: Db, env: Env, id: int, minutes: int, day: int): seq<int>
    requires Ready(db, env) && id in db.links
  {
    if Offers(db, env, id, minutes, day) then [DateOf(env.zone, day)] else []
  }

  /** The dates of the horizon's first n days that offer a slot, in order. */
  ghost function Listing(db: Db, env: Env, id: int, minutes: int, n: nat): seq<int>
    requires Ready(db, env) && id in db.links
  {
    if n == 0 then []
    else
      Listing(db, env, id, minutes, n - 1) + DatesOf(db, env, id, minutes, HorizonDay(env, n - 1))
  }

  lemma ListedNext(db: Db, env: Env, id: int, minutes: int, n: nat, date: int)
    requires Ready(db, env) && id in db.links
    ensures ListedWithin(db, env, id, minutes, n + 1, date)
       <==> ListedWithin(db, env, id, minutes, n, date) || date in DatesOf(db, env, id, minutes, HorizonDay(env, n))
  {
    var last := HorizonDay(env, n);
    assert date in DatesOf(db, env, id, minutes, last) <==> DayListed(db, env, id, minutes, last, date);
    if ListedWithin(db, env, id, minutes, n + 1, date) {
      var i: nat :| i < n + 1 && DayListed(db, env, id, minutes, HorizonDay(env, i), date);
      assert i < n || i == n;
    }
  }

  lemma {:induction false} ListingHolds(db: Db, env: Env, id: int, minutes: int, n: nat, date: int)
    requires Ready(db, env) && id in db.links
    ensures date in Listing(db, env, id, minutes, n) <==> ListedWithin(db, env, id, minutes, n, date)
  {
    if n > 0 {
      var m: nat := n - 1;
      ListingHolds(db, env, id, minutes, m, date);
      ListedNext(db, env, id, minutes, m, date);
      var before, dates := Listing(db, env, id, minutes, m), DatesOf(db, env, id, minutes, HorizonDay(env, m));
      InEither(before, dates, date);
      assert Listing(db, env, id, minutes, n) == before + dates;
      assert ListedWithin(db, env, id, minutes, n, date) <==> date in before || date in dates;
    } else {
      assert !ListedWithin(db, env, id, minutes, 0, date);
    }
  }

  lemma InEither(a: seq<int>, b: seq<int>, x: int)
    ensures x in a + b <==> x in a || x in b
  {
  }

  lemma AllListed(db: Db, env: Env, id: int, minutes: int, n: int)
    requires Ready(db, env) && id in db.links && n >= 0
    ensures forall date :: date in Listing(db, env, id, minutes, n) <==> ListedWithin(db, env, id, minutes, n, date)
  {
    forall date ensures date in Listing(db, env, id, minutes, n) <==> ListedWithin(db, env, id, minutes, n, date) {
      ListingHolds(db, env, id, minutes, n, date);
    }
  }

  /** Where every day of the horizon lands on its own date, no date is listed
      twice and the dates ascend. */
  lemma {:induction false} ListingAscends(db: Db, env: Env, id: int, minutes: int, n: nat, first: int)
    requires Ready(db, env) && id in db.links
    requires forall i: nat | i < n :: DateOf(env.zone, HorizonDay(env, i)) == first + i
    ensures forall k | 0 <= k < |Listing(db, env, id, minutes, n)| :: Listing(db, env, id, minutes, n)[k] < first + n
    ensures forall k, l | 0 <= k < l < |Listing(db, env, id, minutes, n)| ::
      Listing(db, env, id, minutes, n)[k] < Listing(db, env, id, minutes, n)[l]
  {
    if n > 0 {
      ListingAscends(db, env, id, minutes, n - 1, first);
    }
  }

  /** A list is empty exactly when nothing is offered; a day that fails offers nothing. */
  lemma FailedOffersNothing(db: Db, env: Env, id: int, day: int, minutes: int, r: Answer)
    requires Ready(db, env) && id in db.links
    requires forall e :: DayFails(db, env, id, day, e) <==> !r.Slots? && e == r
    requires r.Slots? ==> forall slot :: slot in r.slots <==> Offered(db, env, id, day, minutes, slot)
    ensures (r.Slots? && r.slots != []) <==> exists slot :: Offered(db, env, id, day, minutes, slot)
  {
    assert !r.Slots? ==> DayFails(db, env, id, day, r);
    if r.Slots? && r.slots != [] {
      assert r.slots[0] in r.slots;
    }
  }

  /** One day of the horizon: cut, or its date when it offers a slot. */
  method ListDay(db: Db, env: Env, id: int, minutes: int, day: int) returns (cut: bool, dates: seq<int>)
    requires Ready(db, env) && id in db.links
    ensures cut <==> DayFails(db, env, id, day, BudgetCut)
    ensures dates == DatesOf(db, env, id, minutes, day)
  {
    var slots := OfferedSlots(db, env, id, day, minutes);
    FailedOffersNothing(db, env, id, day, minutes, slots);
    dates := if slots.Slots? && |slots.slots| > 0 then [DateOf(env.zone, day)] else [];
    return slots.BudgetCut?, dates;
  }

  /** getSlots without a date: days that cannot be gathered from storage are
      left out, a budget cut ends the whole answer. */
  method AvailableDates(db: Db, env: Env, id: int, minutes: int) returns (r: Dates)
    requires Ready(db, env) && id in db.links
    ensures r.DatesCut? <==> CutWithin(db, env, id, HorizonDays(db.links[id]))
    ensures r.Dates? ==> r.dates == Listing(db, env, id, minutes, HorizonDays(db.links[id]))
    ensures r.Dates? ==> forall date :: date in r.dates <==>
      ListedWithin(db, env, id, minutes, HorizonDays(db.links[id]), date)
  {
    var cut, days := ListedDays(db, env, id, minutes, HorizonDays(db.links[id]));
    if cut {
      return DatesCut;
    }
    AllListed(db, env, id, minutes, HorizonDays(db.links[id]));
    return Dates(days);
  }

  /** Its loop over the horizon's days. */
  method ListedDays(db: Db, env: Env, id: int, minutes: int, n: int) returns (cut: bool, days: seq<int>)
    requires Ready(db, env) && id in db.links && n >= 0
    ensures cut <==> CutWithin(db, env, id, n)
    ensures !cut ==> days == Listing(db, env, id, minutes, n)
  {
    var today := CalendarDay(env.zone, env.now);
    days := [];
    for i := 0 to n
      invariant !CutWithin(db, env, id, i)
      invariant days == Listing(db, env, id, minutes, i)
    {
      var day := AddDays(env.zone, today, i);
      assert day == HorizonDay(env, i);
      var dayCut, dates := ListDay(db, env, id, minutes, day);
      CutNext(db, env, id, i);
      if dayCut {
        CutGrows(db, env, id, i + 1, n);
        return true, days;
      }
      days := days + dates;
    }
    return false, days;
  }

  lemma CutGrows(db: Db, env: Env, id: int, m: nat, n: nat)
    requires Ready(db, env) && id in db.links && m <= n && CutWithin(db, env, id, m)
    ensures CutWithin(db, env, id, n)
  {
  }

  lemma NoonShown(z: Zone, date: int)
    requires Valid(z) && Shows(z, date * DAY + NOON)
    ensures Local(z, NoonOf(z, date)) == date * DAY + NOON && DateOf(z, NoonOf(z, date)) == date
  {
    DateInShows(z, date * DAY + NOON);
  }

  /** One of the horizon's first n days lands on the date. */
  ghost predicate HorizonReaches(env: Env, n: nat, date: int) {
    exists i: nat :: i < n && DateOf(env.zone, HorizonDay(env, i)) == date
  }

  /** Both modes reach the date: its noon falls on it, and so does one of the
      horizon's days unless the date is outside the horizon. */
  ghost predicate NoonsLand(db: Db, env: Env, id: int, date: int)
    requires id in db.links
  {
    && DateOf(env.zone, NoonOf(env.zone, date)) == date
    && (0 <= date - DateOf(env.zone, CalendarDay(env.zone, env.now)) < HorizonDays(db.links[id]) ==>
          HorizonReaches(env, HorizonDays(db.links[id]), date))
  }

  /** The date is available exactly when its explicit listing is non-empty, and
      that listing holds only starts on the date. */
  ghost predicate ModesMatch(db: Db, env: Env, id: int, minutes: int, date: int)
    requires Ready(db, env) && id in db.links
  {
    && ListedWithin(db, env, id, minutes, HorizonDays(db.links[id]), date) ==
      (exists slot :: Offered(db, env, id, NoonOf(env.zone, date), minutes, slot))
    && forall slot | Offered(db, env, id, NoonOf(env.zone, date), minutes, slot) :: DateOf(env.zone, slot.start) == date
  }

  lemma SameDateSameSlots(db: Db, env: Env, id: int, minutes: int, a: int, b: int, slot: Interval)
    requires Ready(db, env) && id in db.links && DateOf(env.zone, a) == DateOf(env.zone, b)
    ensures Offered(db, env, id, a, minutes, slot) == Offered(db, env, id, b, minutes, slot)
  {
  }

  /** The two modes match on every date whose noons land. */
  lemma ModesAgree(db: Db, env: Env, id: int, minutes: int, date: int)
    requires Ready(db, env) && id in db.links && NoonsLand(db, env, id, date)
    ensures ModesMatch(db, env, id, minutes, date)
  {
    var z, noon, h := env.zone, NoonOf(env.zone, date), HorizonDays(db.links[id]);
    forall slot | Offered(db, env, id, noon, minutes, slot)
      ensures DateOf(z, slot.start) == date && ListedWithin(db, env, id, minutes, h, date)
    {
      OnGridMeans(z, db.links[id].hours, date, minutes, slot);
      var i: nat :| i < h && DateOf(z, HorizonDay(env, i)) == date;
      SameDateSameSlots(db, env, id, minutes, noon, HorizonDay(env, i), slot);
      assert DayListed(db, env, id, minutes, HorizonDay(env, i), date);
    }
    if i: nat :| i < h && DayListed(db, env, id, minutes, HorizonDay(env, i), date) {
      var slot :| Offered(db, env, id, HorizonDay(env, i), minutes, slot);
      SameDateSameSlots(db, env, id, minutes, noon, HorizonDay(env, i), slot);
    }
  }

  /** And on no other date that lists anything when asked for by itself. */
  lemma ModesDiffer(db: Db, env: Env, id: int, minutes: int, date: int, slot: Interval)
    requires Ready(db, env) && id in db.links && !NoonsLand(db, env, id, date)
    requires Offered(db, env, id, NoonOf(env.zone, date), minutes, slot)
    ensures !ModesMatch(db, env, id, minutes, date)
  {
    OnGridMeans(env.zone, db.links[id].hours, DateOf(env.zone, NoonOf(env.zone, date)), minutes, slot);
    var h := HorizonDays(db.links[id]);
    if i: nat :| i < h && DayListed(db, env, id, minutes, HorizonDay(env, i), date) {
      assert DateOf(env.zone, HorizonDay(env, i)) == date;
    }
  }

  lemma ListedExactly(db: Db, env: Env, id: int, minutes: int, n: nat, date: int, day: int)
    requires Ready(db, env) && id in db.links && DateOf(env.zone, day) == date
    ensures ListedWithin(db, env, id, minutes, n, date) <==>
      HorizonReaches(env, n, date) && Offers(db, env, id, minutes, day)
  {
    if i: nat :| i < n && DateOf(env.zone, HorizonDay(env, i)) == date {
      SameDateOffers(db, env, id, minutes, HorizonDay(env, i), day);
      assert Offers(db, env, id, minutes, day) ==> DayListed(db, env, id, minutes, HorizonDay(env, i), date);
    }
    if i: nat :| i < n && DayListed(db, env, id, minutes, HorizonDay(env, i), date) {
      SameDateOffers(db, env, id, minutes, HorizonDay(env, i), day);
    }
  }

  /** For every date: the explicit mode lists the date its noon lands on, the
      other lists the date itself if one of the horizon's days lands there. They
      match exactly when both come to the same. */
  lemma ModesMatchExactly(db: Db, env: Env, id: int, minutes: int, date: int, day: int)
    requires Ready(db, env) && id in db.links && DateOf(env.zone, day) == date
    ensures var noon, reached := NoonOf(env.zone, date), HorizonReaches(env, HorizonDays(db.links[id]), date);
      ModesMatch(db, env, id, minutes, date) <==>
        if Offers(db, env, id, minutes, noon) then DateOf(env.zone, noon) == date && reached
        else !(reached && Offers(db, env, id, minutes, day))
  {
    var z, noon := env.zone, NoonOf(env.zone, date);
    ListedExactly(db, env, id, minutes, HorizonDays(db.links[id]), date, day);
    if DateOf(z, noon) == date {
      SameDateOffers(db, env, id, minutes, noon, day);
    }
    forall slot | Offered(db, env, id, noon, minutes, slot) ensures DateOf(z, slot.start) == DateOf(z, noon) {
      OnGridMeans(z, db.links[id].hours, DateOf(z, noon), minutes, slot);
    }
  }

  /** A date no instant shows is never available, so the modes match on it
      exactly when its explicit listing, of another date, is empty. */
  lemma UnshownDateMatches(db: Db, env: Env, id: int, minutes: int, date: int)
    requires Ready(db, env) && id in db.links && forall t :: DateOf(env.zone, t) != date
    ensures ModesMatch(db, env, id, minutes, date) <==> !Offers(db, env, id, minutes, NoonOf(env.zone, date))
  {
  }

  lemma SameDateOffers(db: Db, env: Env, id: int, minutes: int, a: int, b: int)
    requires Ready(db, env) && id in db.links && DateOf(env.zone, a) == DateOf(env.zone, b)
    ensures Offers(db, env, id, minutes, a) == Offers(db, env, id, minutes, b)
  {
    forall slot ensures Offered(db, env, id, a, minutes, slot) == Offered(db, env, id, b, minutes, slot) {
      SameDateSameSlots(db, env, id, minutes, a, b, slot);
    }
  }

  /** Noons land where noon exists, today and on the date. */
  lemma ShownNoonsLand(db: Db, env: Env, id: int, date: int)
    requires Ready(db, env) && id in db.links
    requires Shows(env.zone, DateOf(env.zone, env.now) * DAY + NOON) && Shows(env.zone, date * DAY + NOON)
    ensures NoonsLand(db, env, id, date)
  {
    var z := env.zone;
    NoonShown(z, date);
    NoonShown(z, DateOf(z, env.now));
    var n := DaysBetween(z, CalendarDay(z, env.now), NoonOf(z, date));
    assert n >= 0 ==> HorizonDay(env, n) == NoonOf(z, date);
  }

  /** A zone that skips all of date 0, as Samoa skipped 30 December 2011. */
  const SKIPPING := Zone(-36000, [Change(36000, 50400)])

  lemma SkippingOffsets(z: Zone)
    requires z == SKIPPING
    ensures forall t :: OffsetAt(z, t) == if t >= 36000 then 50400 else -36000
  {
    forall t ensures OffsetAt(z, t) == if t >= 36000 then 50400 else -36000 {
      assert z.changes[..0] == [];
      assert OffsetAt(Zone(z.base, []), t) == z.base;
    }
  }

  /** There the modes differ: date 0 is never available, yet its explicit
      listing is date 1's. */
  lemma SkippedDateListsTheNext(db: Db, env: Env, id: int, minutes: int, slot: Interval)
    requires env.zone == SKIPPING && db.accepted.Keys == db.links.Keys && id in db.links
    ensures Ready(db, env) && !Shows(SKIPPING, NOON)
    ensures !ListedWithin(db, env, id, minutes, HorizonDays(db.links[id]), 0)
    ensures Offered(db, env, id, NoonOf(SKIPPING, 0), minutes, slot) <==>
      Offered(db, env, id, NoonOf(SKIPPING, 1), minutes, slot)
  {
    var z := SKIPPING;
    SkippingOffsets(z);
    assert forall t :: DateOf(z, t) != 0;
    assert DateOf(z, NoonOf(z, 0)) == DateOf(z, NoonOf(z, 1)) == 1;
  }

  /** A link open every morning from 9 to 10, its one host free, asked on the
      day before the skipped one. */
  const MORNING_LINK := Link(7, Hours(Some(540), Some(600)), [0, 1, 2, 3, 4, 5, 6], [], 0, 0, 0, 60, Reusable)
  const ONE_LINK := Db(map[0 := MORNING_LINK], map[0 := [7]], [])
  const EVE := Env(-36000, SKIPPING, true, true, true, _ => false,
                   (_, _) => HostDay(Some([]), Some([]), true), Confirmed)
  const NEXT_MORNING := Interval(68400, 70200)

  lemma NextMorningOnGrid()
    ensures Valid(SKIPPING) && OnGrid(SKIPPING, MORNING_LINK.hours, 1, 30, NEXT_MORNING)
  {
    var z := SKIPPING;
    SkippingOffsets(z);
    assert Local(z, 68400) == At(1, 540) && Local(z, 72000) == At(1, 600);
    assert FirstReach(z, At(1, 540), 68400) && FirstReach(z, At(1, 600), 72000);
    FirstReachUnique(z, At(1, 600), 72000, Reached(z, At(1, 600)));
    assert OnGridAt(z, MORNING_LINK.hours, 1, 30, NEXT_MORNING, 540);
  }

  lemma NextMorningCollective()
    ensures Ready(ONE_LINK, EVE) && Collective(ONE_LINK, EVE, 0, 1, 30, NEXT_MORNING)
  {
    NextMorningOnGrid();
    OnGridMeans(SKIPPING, MORNING_LINK.hours, 1, 30, NEXT_MORNING);
    forall window { HostIsFree(window); }
  }

  lemma HostIsFree(window: Interval)
    ensures AnswerIn(ONE_LINK, EVE, 0, 7, window) == Busy([])
  {
    assert EVE.read(7, window) == HostDay(Some([]), Some([]), true);
  }

  /** Somebody who asks for the skipped date is offered the next morning, which
      the list of dates has twice, and the skipped date never. */
  lemma SkippedDateMismatch()
    ensures Ready(ONE_LINK, EVE) && Offered(ONE_LINK, EVE, 0, NoonOf(SKIPPING, 0), 30, NEXT_MORNING)
    ensures !ModesMatch(ONE_LINK, EVE, 0, 30, 0)
    ensures Offers(ONE_LINK, EVE, 0, 30, HorizonDay(EVE, 1)) && DateOf(SKIPPING, HorizonDay(EVE, 1)) == 1
    ensures Offers(ONE_LINK, EVE, 0, 30, HorizonDay(EVE, 2)) && DateOf(SKIPPING, HorizonDay(EVE, 2)) == 1
  {
    NextMorningOnGrid();
    NextMorningCollective();
    EveDays();
    assert forall day | DateOf(SKIPPING, day) == 1 :: Offered(ONE_LINK, EVE, 0, day, 30, NEXT_MORNING);
    SkippedDateListsTheNext(ONE_LINK, EVE, 0, 30, NEXT_MORNING);
  }

  lemma EveDays()
    ensures DateOf(SKIPPING, CalendarDay(SKIPPING, -36000)) == -1
    ensures DateOf(SKIPPING, HorizonDay(EVE, 1)) == DateOf(SKIPPING, HorizonDay(EVE, 2)) == 1
    ensures DateOf(SKIPPING, NoonOf(SKIPPING, 0)) == 1
  {
    SkippingOffsets(SKIPPING);
  }

  // ---- the booking ----

  datatype Request = Request(start: int, end: Option<int>, duration: Option<int>, durationMinutes: Option<int>)

  datatype Asked = Asked(slot: Interval, minutes: int)

  /** The answers; InsertError is the 500 of a failed insert, which does not
      tell the client whether the row was kept. */
  datatype Outcome =
    | Created(slot: Interval) | NotFound | Gone | BadRequest | Refused(reason: Reason)
    | Taken | HostIsBusy | ServerError | InsertError(slot: Interval, kept: bool) | BudgetExpired

  /** The booking is in the table afterwards. */
  predicate Stores(out: Outcome) { out.Created? || (out.InsertError? && out.kept) }

  /** linkExhausted, with the uses counted from the bookings not cancelled. */
  predicate Exhausted(link: Link, uses: int) {
    match link.usage
    case Reusable => false
    case SingleUse => uses >= 1
    case Recurring(max) => max.Some? && uses >= max.value
  }

  method DurationAllowed(link: Link, minutes: int) returns (ok: bool)
    ensures ok <==> Allowed(link, minutes)
  {
    if minutes <= 0 {
      return false;
    }
    if |link.durations| == 0 {
      return minutes == 30;
    }
    for i := 0 to |link.durations|
      invariant minutes !in link.durations[..i]
    {
      if link.durations[i] == minutes {
        return true;
      }
    }
    return false;
  }

  predicate Allowed(link: Link, minutes: int) {
    minutes > 0 && if link.durations == [] then minutes == 30 else minutes in link.durations
  }

  /** The duration the body names, 0 for none: duration wins over duration_minutes. */
  function Named(req: Request): int {
    if req.duration.Some? then req.duration.value
    else if req.durationMinutes.Some? then req.durationMinutes.value
    else 0
  }

  function DefaultDuration(link: Link): int {
    if link.durations == [] then 30 else link.durations[0]
  }

  /** What a request asks for: one allowed whole-minute length that agrees with
      everything the body gives. */
  predicate AsksFor(link: Link, req: Request, asked: Asked) {
    && asked.slot == Interval(req.start, req.start + asked.minutes * 60)
    && Allowed(link, asked.minutes)
    && (req.end.Some? ==> asked.slot.end == req.end.value)
    && (Named(req) != 0 ==> asked.minutes == Named(req))
    && (Named(req) == 0 && req.end.None? ==> asked.minutes == DefaultDuration(link))
  }

  /** The body checks of createBooking: None is the 400. */
  method ReadRequest(link: Link, req: Request) returns (r: Option<Asked>)
    ensures r.Some? ==> AsksFor(link, req, r.value)
    ensures r.None? ==> forall asked :: !AsksFor(link, req, asked)
  {
    var requested := 0;
    if req.durationMinutes.Some? {
      requested := req.durationMinutes.value;
    }
    if req.duration.Some? {
      requested := req.duration.value;
    }
    var end;
    if req.end.Some? {
      end := req.end.value;
      var length := end - req.start;
      var whole := length % 60 == 0;
      var actual := length / 60;
      if requested != 0 && (!whole || requested != actual) {
        return None;
      }
      if !whole {
        return None;
      }
      requested := actual;
    } else {
      if requested == 0 {
        requested := 30;
        if |link.durations| > 0 {
          requested := link.durations[0];
        }
      }
      end := req.start + requested * 60;
    }
    var ok := DurationAllowed(link, requested);
    if !ok {
      return None;
    }
    if end <= req.start {
      return None;
    }
    return Some(Asked(Interval(req.start, end), requested));
  }

  lemma AsksForOne(link: Link, req: Request, a: Asked, b: Asked)
    requires AsksFor(link, req, a) && AsksFor(link, req, b)
    ensures a == b
  {
  }

  /** How createBooking answers, in its order of decisions. */
  ghost function Decide(db: Db, env: Env, id: int, req: Request): Outcome
    requires Ready(db, env)
  {
    if id !in db.links then NotFound
    else if Exhausted(db.links[id], Live(db.bookings, id)) then Gone
    else if a: Asked :| AsksFor(db.links[id], req, a) then DecideSlot(db, env, id, a)
    else BadRequest
  }

  ghost function DecideSlot(db: Db, env: Env, id: int, asked: Asked): Outcome
    requires Ready(db, env) && id in db.links
  {
    var slot, day := asked.slot, CalendarDay(env.zone, asked.slot.start);
    var cheap := Cheap(env.zone, db.links[id], slot, asked.minutes, env.now);
    if !env.zoneReadable then ServerError
    else if cheap.Some? then Refused(cheap.value)
    else if !env.conflictsReadable then ServerError
    else if HasOverlapping(db, id, slot) then Taken
    else if DayFails(db, env, id, day, BudgetCut) then BudgetExpired
    else if DayFails(db, env, id, day, Failed) then ServerError
    else if !Offered(db, env, id, day, asked.minutes, slot) then HostIsBusy
    else match env.confirm
      case Confirmed => Created(slot)
      case CalendarUnreadable => HostIsBusy
      case Expired => BudgetExpired
      case InsertFailed(kept) => InsertError(slot, kept)
  }

  // ---- the answers in the request's own terms ----

  /** The link takes no more bookings: a single-use one with a live booking, a
      recurring one with as many as its uses. */
  ghost predicate UsedUp(db: Db, id: int)
    requires id in db.links
  {
    var live := |set i | 0 <= i < |db.bookings| && db.bookings[i].link == id && !db.bookings[i].cancelled|;
    match db.links[id].usage
    case Reusable => false
    case SingleUse => live >= 1
    case Recurring(max) => max.Some? && live >= max.value
  }

  ghost function LiveRows(bookings: seq<Booking>, link: int): set<int> {
    set i | 0 <= i < |bookings| && bookings[i].link == link && !bookings[i].cancelled
  }

  lemma LiveRowsNext(bookings: seq<Booking>, link: int)
    requires bookings != []
    ensures var n := |bookings| - 1;
      LiveRows(bookings, link) == LiveRows(bookings[..n], link) +
        if bookings[n].link == link && !bookings[n].cancelled then {n} else {}
    ensures |bookings| - 1 !in LiveRows(bookings[..|bookings|-1], link)
  {
    var n := |bookings| - 1;
    forall i
      ensures i in LiveRows(bookings, link) <==>
        i in LiveRows(bookings[..n], link) || (i == n && bookings[n].link == link && !bookings[n].cancelled)
    {
      assert 0 <= i < n ==> bookings[..n][i] == bookings[i];
    }
  }

  lemma {:induction false} LiveCounts(bookings: seq<Booking>, link: int)
    ensures Live(bookings, link) == |LiveRows(bookings, link)|
  {
    if bookings != [] {
      LiveCounts(bookings[..|bookings|-1], link);
      LiveRowsNext(bookings, link);
    }
  }

  /** Gone says exactly that the link is used up. */
  lemma GoneExactly(db: Db, env: Env, id: int, req: Request)
    requires Ready(db, env)
    ensures Decide(db, env, id, req).NotFound? <==> id !in db.links
    ensures Decide(db, env, id, req).Gone? <==> id in db.links && UsedUp(db, id)
    ensures id in db.links ==> (Decide(db, env, id, req).Gone? <==>
      || (db.links[id].usage.SingleUse? && Live(db.bookings, id) >= 1)
      || (db.links[id].usage.Recurring? && db.links[id].usage.maxUses.Some?
          && Live(db.bookings, id) >= db.links[id].usage.maxUses.value))
  {
    LiveCounts(db.bookings, id);
  }

  /** The length a request asks for: positive, one of the link's or 30 when it
      lists none, equal to the body's own length and duration where it gives
      them, and the link's first without either. */
  predicate Fits(link: Link, req: Request, minutes: int) {
    var given := if req.duration.Some? && req.duration.value != 0 then req.duration
                 else if req.duration.None? && req.durationMinutes != Some(0) then req.durationMinutes else None;
    && minutes > 0
    && (minutes in link.durations || (link.durations == [] && minutes == 30))
    && (req.end.Some? ==> req.end.value - req.start == minutes * 60)
    && (given.Some? ==> minutes == given.value)
    && (given.None? && req.end.None? && link.durations != [] ==> minutes == link.durations[0])
  }

  lemma FitsExactly(link: Link, req: Request, minutes: int)
    ensures Fits(link, req, minutes)
       <==> AsksFor(link, req, Asked(Interval(req.start, req.start + minutes * 60), minutes))
  {
  }

  /** A request to a link that takes bookings is bad exactly when no length fits
      it; otherwise the slot decided on starts and is as long as it asks. */
  lemma BadExactly(db: Db, env: Env, id: int, req: Request)
    requires Ready(db, env) && id in db.links && !UsedUp(db, id)
    ensures Decide(db, env, id, req).BadRequest? <==> forall minutes :: !Fits(db.links[id], req, minutes)
    ensures forall minutes | Fits(db.links[id], req, minutes) ::
      Decide(db, env, id, req) ==
        DecideSlot(db, env, id, Asked(Interval(req.start, req.start + minutes * 60), minutes))
  {
    var link := db.links[id];
    GoneExactly(db, env, id, req);
    forall minutes | Fits(link, req, minutes)
      ensures Decide(db, env, id, req) ==
        DecideSlot(db, env, id, Asked(Interval(req.start, req.start + minutes * 60), minutes))
    {
      FitsExactly(link, req, minutes);
      var a: Asked :| AsksFor(link, req, a) && Decide(db, env, id, req) == DecideSlot(db, env, id, a);
      AsksForOne(link, req, a, Asked(Interval(req.start, req.start + minutes * 60), minutes));
    }
    if asked: Asked :| AsksFor(link, req, asked) {
      FitsExactly(link, req, asked.minutes);
    }
  }

  /** The day the slot is looked for on, and how gathering its busy time fails:
      only days from today on within the horizon, open by weekday, are gathered. */
  lemma DayFailsExactly(db: Db, env: Env, id: int, day: int, error: Answer)
    requires Ready(db, env) && id in db.links
    ensures var z, link := env.zone, db.links[id];
      var date := Local(z, day) / 86400;
      var ahead := date - Local(z, DateIn(z, Local(z, env.now) / 86400 * 86400 + 43200)) / 86400;
      DayFails(db, env, id, day, error) <==>
        && 0 <= ahead < (if link.horizon > 0 then link.horizon else 60) && OpenDay(link, date)
        && !error.Slots? && Gathered(db, env, id, date) == Some(error)
  {
    HorizonExactly(env.zone, db.links[id], env.now, day);
    OpenDayExactly(db.links[id], DateOf(env.zone, day));
  }

  /** A live booking of the link itself overlaps the slot. */
  ghost predicate LinkTaken(db: Db, id: int, slot: Interval) {
    exists k | 0 <= k < |db.bookings| ::
      && db.bookings[k].link == id && !db.bookings[k].cancelled
      && db.bookings[k].slot.start < slot.end && slot.start < db.bookings[k].slot.end
  }

  /** How a slot is decided, answer by answer. */
  lemma DecidesExactly(db: Db, env: Env, id: int, asked: Asked)
    requires Ready(db, env) && id in db.links
    ensures var slot := asked.slot;
      var day := DateIn(env.zone, Local(env.zone, slot.start) / 86400 * 86400 + 43200);
      var cheap := Cheap(env.zone, db.links[id], slot, asked.minutes, env.now);
      var checked := env.zoneReadable && cheap.None? && env.conflictsReadable && !LinkTaken(db, id, slot);
      var out := DecideSlot(db, env, id, asked);
      && (out.Refused? <==> env.zoneReadable && cheap.Some?) && (out.Refused? ==> Some(out.reason) == cheap)
      && (out.Taken? <==> env.zoneReadable && cheap.None? && env.conflictsReadable && LinkTaken(db, id, slot))
      && (out.ServerError? <==> !env.zoneReadable || (cheap.None? && !env.conflictsReadable)
                                || (checked && DayFails(db, env, id, day, Failed)))
      && (checked && DayFails(db, env, id, day, BudgetCut) ==> out.BudgetExpired?)
      && (checked && !DayFails(db, env, id, day, BudgetCut) && !DayFails(db, env, id, day, Failed) ==>
            if Offered(db, env, id, day, asked.minutes, slot) then
              && (out.Created? <==> env.confirm.Confirmed?) && (out.Created? ==> out.slot == slot)
              && (out.HostIsBusy? <==> env.confirm.CalendarUnreadable?)
              && (out.BudgetExpired? <==> env.confirm.Expired?)
              && (env.confirm.InsertFailed? ==> out == InsertError(slot, env.confirm.kept))
            else out.HostIsBusy?)
  {
    assert forall k | 0 <= k < |db.bookings| :: db.bookings[k] in db.bookings;
    assert HasOverlapping(db, id, asked.slot) <==> LinkTaken(db, id, asked.slot);
  }

  // ---- the confirmation's own steps ----

  /** The confirmation outcome that a finished run of its steps amounts to. */
  function ConfirmOf(end: BookingCommit.State): Confirm {
    if end.expired || end.response.None? then Expired
    else match end.response.value
      case Saved201 => Confirmed
      case Busy409 => CalendarUnreadable
      case Error500 => InsertFailed(end.saved)
      case Expired503 => Expired
  }

  /** The status a confirmed or unconfirmed outcome is answered with. */
  function Status(out: Outcome): Option<BookingCommit.Answer> {
    match out
    case Created(_) => Some(BookingCommit.Saved201)
    case HostIsBusy => Some(BookingCommit.Busy409)
    case InsertError(_, _) => Some(BookingCommit.Error500)
    case BudgetExpired => Some(BookingCommit.Expired503)
    case _ => None
  }

  lemma SameOffers(db: Db, env: Env, c: Confirm, id: int, day: int, minutes: int, slot: Interval, error: Answer)
    requires Ready(db, env) && id in db.links
    ensures Offered(db, env.(confirm := c), id, day, minutes, slot) == Offered(db, env, id, day, minutes, slot)
    ensures DayFails(db, env.(confirm := c), id, day, error) == DayFails(db, env, id, day, error)
  {
    SameGathered(db, env, c, id, DateOf(env.zone, day));
  }

  lemma SameGathered(db: Db, env: Env, c: Confirm, id: int, date: int)
    requires Ready(db, env) && id in db.links
    ensures Gathered(db, env.(confirm := c), id, date) == Gathered(db, env, id, date)
    ensures forall user, window ::
      AnswerIn(db, env.(confirm := c), id, user, window) == AnswerIn(db, env, id, user, window)
  {
  }

  /** A request that gets as far as the confirmation is answered as its outcome says. */
  lemma ConfirmDecides(db: Db, env: Env, c: Confirm, id: int, req: Request)
    requires Ready(db, env) && Decide(db, env.(confirm := Confirmed), id, req).Created?
    ensures var slot := Decide(db, env.(confirm := Confirmed), id, req).slot;
      Decide(db, env.(confirm := c), id, req) ==
        match c
        case Confirmed => Created(slot)
        case CalendarUnreadable => HostIsBusy
        case Expired => BudgetExpired
        case InsertFailed(kept) => InsertError(slot, kept)
  {
    var link, confirmed := db.links[id], env.(confirm := Confirmed);
    var a: Asked :| AsksFor(link, req, a) && Decide(db, confirmed, id, req) == DecideSlot(db, confirmed, id, a);
    var b: Asked :| AsksFor(link, req, b) &&
      Decide(db, env.(confirm := c), id, req) == DecideSlot(db, env.(confirm := c), id, b);
    AsksForOne(link, req, a, b);
    var day := CalendarDay(env.zone, a.slot.start);
    SameOffers(db, confirmed, c, id, day, a.minutes, a.slot, BudgetCut);
    SameOffers(db, confirmed, c, id, day, a.minutes, a.slot, Failed);
  }

  /** However the confirmation's steps and the request budget interleave, the
      finished run is one of the outcomes decided on: the client gets that answer,
      if it gets one, and the booking is stored exactly when the outcome says so. */
  lemma EveryCommitIsDecided(db: Db, env: Env, id: int, req: Request, hosts: set<int>,
                             steps: seq<BookingCommit.Step>, end: BookingCommit.State)
    requires Ready(db, env) && Decide(db, env.(confirm := Confirmed), id, req).Created?
    requires BookingCommit.Runs(hosts, BookingCommit.START, steps, end) && end.phase.Finished?
    ensures var out := Decide(db, env.(confirm := ConfirmOf(end)), id, req);
      && (end.response.Some? ==> Status(out) == end.response)
      && (end.response == Some(BookingCommit.Saved201) ==> out.Created?)
      && (end.response == Some(BookingCommit.Busy409) ==> out.HostIsBusy?)
      && (end.response == Some(BookingCommit.Error500) ==> out.InsertError?)
      && (end.response == Some(BookingCommit.Expired503) || end.response == None ==> out.BudgetExpired?)
      && Stores(out) == end.saved
  {
    BookingCommit.RunIsSound(hosts, BookingCommit.START, steps, end);
    ConfirmDecides(db, env, ConfirmOf(end), id, req);
  }

  // ---- safety of the store ----

  ghost predicate Shared(db: Db, a: int, b: int) {
    a == b || (a in db.accepted && b in db.accepted && exists user :: user in db.accepted[a] && user in db.accepted[b])
  }

  /** Live bookings of one link, or of two links sharing an accepted host, are
      pairwise apart. */
  ghost predicate NoDoubleBooking(db: Db) {
    forall i, j | 0 <= i < j < |db.bookings| ::
      var a, b := db.bookings[i], db.bookings[j];
      !a.cancelled && !b.cancelled && Shared(db, a.link, b.link) ==> !Overlap(a.slot, b.slot)
  }

  ghost predicate WithinUses(db: Db) {
    forall id | id in db.links ::
      && (db.links[id].usage.SingleUse? ==> Live(db.bookings, id) <= 1)
      && (db.links[id].usage.Recurring? && db.links[id].usage.maxUses.Some? ==>
            Live(db.bookings, id) <=
              if db.links[id].usage.maxUses.value < 0 then 0 else db.links[id].usage.maxUses.value)
  }

  ghost predicate Safe(db: Db) {
    && db.accepted.Keys == db.links.Keys
    && (forall i | 0 <= i < |db.bookings| :: db.bookings[i].link in db.links)
    && NoDoubleBooking(db) && WithinUses(db)
  }

  /** A slot every accepted host is free for meets no live booking of a link
      sharing one of them. */
  lemma OfferedIsClear(db: Db, env: Env, id: int, day: int, minutes: int, slot: Interval, b: Booking)
    requires Ready(db, env) && id in db.links && Offered(db, env, id, day, minutes, slot)
    requires b in db.bookings && !b.cancelled && b.link in db.links && Shared(db, id, b.link)
    ensures !Overlap(b.slot, slot)
  {
    var link, date := db.links[id], DateOf(env.zone, day);
    var window := Window(env, link, date);
    OnGridMeans(env.zone, link.hours, date, minutes, slot);
    var user: int;
    if id == b.link {
      user := db.accepted[id][0];
    } else {
      user :| user in db.accepted[id] && user in db.accepted[b.link];
    }
    var answer := AnswerIn(db, env, id, user, window);
    assert answer.Busy? && !OverlapsAny(slot, answer.busy);
    if Overlap(b.slot, window) {
      assert db.bookings[..|db.bookings|] == db.bookings;
      BusyBookingsHolds(db, user, window, |db.bookings|, b);
      assert b.slot in answer.busy;
    }
  }

  /** Listing and booking agree: with a confirmation that goes through, asking
      for a slot creates it exactly when its day's listing offers it. */
  lemma BookedExactlyWhenListed(db: Db, env: Env, id: int, req: Request, asked: Asked)
    requires Ready(db, env) && Safe(db) && id in db.links && AsksFor(db.links[id], req, asked)
    requires db.links[id].usage.SingleUse? ==> Live(db.bookings, id) == 0
    requires db.links[id].usage.Recurring? && db.links[id].usage.maxUses.Some? ==>
      Live(db.bookings, id) < db.links[id].usage.maxUses.value
    requires env.zoneReadable && env.conflictsReadable && env.confirm == Confirmed
    requires db.links[id].notice >= 0 && TodayHolds(env.zone, env.now)
    ensures Decide(db, env, id, req) == Created(asked.slot)
       <==> Offered(db, env, id, CalendarDay(env.zone, asked.slot.start), asked.minutes, asked.slot)
  {
    var link, day := db.links[id], CalendarDay(env.zone, asked.slot.start);
    assert Decide(db, env, id, req) == DecideSlot(db, env, id, asked) by {
      var a: Asked :| AsksFor(link, req, a) && Decide(db, env, id, req) == DecideSlot(db, env, id, a);
      AsksForOne(link, req, a, asked);
    }
    CheapMeansOfferable(env.zone, link, asked.slot, asked.minutes, env.now);
    if Offered(db, env, id, day, asked.minutes, asked.slot) && HasOverlapping(db, id, asked.slot) {
      var b :| b in db.bookings && b.link == id && !b.cancelled && Overlap(b.slot, asked.slot);
      OfferedIsClear(db, env, id, day, asked.minutes, asked.slot, b);
    }
  }

  datatype Op = Book(env: Env, id: int, req: Request) | Cancel(index: nat)

  ghost predicate OpReady(db: Db, op: Op) {
    op.Book? ==> Ready(db, op.env)
  }

  /** One request, or one cancellation, on the stored bookings. */
  ghost function Apply(db: Db, op: Op): Db
    requires OpReady(db, op)
  {
    match op
    case Book(env, id, req) =>
      var out := Decide(db, env, id, req);
      if Stores(out) then db.(bookings := db.bookings + [Booking(id, out.slot, false)]) else db
    case Cancel(i) =>
      if i < |db.bookings| then db.(bookings := db.bookings[i := db.bookings[i].(cancelled := true)]) else db
  }

  ghost predicate Runs(db: Db, ops: seq<Op>, end: Db)
    decreases |ops|
  {
    if ops == [] then end == db
    else OpReady(db, ops[0]) && Runs(Apply(db, ops[0]), ops[1..], end)
  }

  lemma {:induction false} LiveAfterCancel(bookings: seq<Booking>, i: nat, link: int)
    requires i < |bookings|
    ensures Live(bookings[i := bookings[i].(cancelled := true)], link) <= Live(bookings, link)
  {
    var n := |bookings| - 1;
    var after := bookings[i := bookings[i].(cancelled := true)];
    if i < n {
      LiveAfterCancel(bookings[..n], i, link);
      assert after[..n] == bookings[..n][i := bookings[i].(cancelled := true)];
    } else {
      assert after[..n] == bookings[..n];
    }
  }

  lemma StoredWasOffered(db: Db, env: Env, id: int, req: Request) returns (asked: Asked)
    requires Ready(db, env) && Stores(Decide(db, env, id, req))
    ensures id in db.links && !Exhausted(db.links[id], Live(db.bookings, id))
    ensures AsksFor(db.links[id], req, asked) && asked.slot == Decide(db, env, id, req).slot
    ensures Offered(db, env, id, CalendarDay(env.zone, asked.slot.start), asked.minutes, asked.slot)
  {
    asked :| AsksFor(db.links[id], req, asked) && Decide(db, env, id, req) == DecideSlot(db, env, id, asked);
  }

  lemma BookingIsSafe(db: Db, env: Env, id: int, req: Request)
    requires Safe(db) && OpReady(db, Book(env, id, req)) && Stores(Decide(db, env, id, req))
    ensures Safe(Apply(db, Book(env, id, req)))
  {
    var after := Apply(db, Book(env, id, req));
    var asked := StoredWasOffered(db, env, id, req);
    assert after.bookings[..|db.bookings|] == db.bookings;
    forall i, j | 0 <= i < j < |after.bookings|
      && !after.bookings[i].cancelled && !after.bookings[j].cancelled
      && Shared(after, after.bookings[i].link, after.bookings[j].link)
      ensures !Overlap(after.bookings[i].slot, after.bookings[j].slot)
    {
      if j == |db.bookings| {
        OfferedIsClear(db, env, id, CalendarDay(env.zone, asked.slot.start), asked.minutes, asked.slot, db.bookings[i]);
      } else {
        assert Shared(db, db.bookings[i].link, db.bookings[j].link);
      }
    }
    assert forall l :: Live(after.bookings, l) == Live(db.bookings, l) + if l == id then 1 else 0;
  }

  lemma CancellingIsSafe(db: Db, i: nat)
    requires Safe(db) && i < |db.bookings|
    ensures Safe(Apply(db, Cancel(i)))
  {
    var after := Apply(db, Cancel(i));
    forall l ensures Live(after.bookings, l) <= Live(db.bookings, l) {
      LiveAfterCancel(db.bookings, i, l);
    }
    assert forall a, b :: Shared(after, a, b) <==> Shared(db, a, b);
  }

  lemma StepIsSafe(db: Db, op: Op)
    requires Safe(db) && OpReady(db, op)
    ensures Safe(Apply(db, op))
  {
    match op
    case Book(env, id, req) =>
      if Stores(Decide(db, env, id, req)) {
        BookingIsSafe(db, env, id, req);
      }
    case Cancel(i) =>
      if i < |db.bookings| {
        CancellingIsSafe(db, i);
      }
  }

  /** No double booking over any run of bookings and cancellations, one at a
      time; nor does a limited link ever exceed its uses. */
  lemma {:induction false} EveryRunIsSafe(db: Db, ops: seq<Op>, end: Db)
    requires Safe(db) && Runs(db, ops, end)
    ensures Safe(end)
    decreases |ops|
  {
    if ops != [] {
      StepIsSafe(db, ops[0]);
      EveryRunIsSafe(Apply(db, ops[0]), ops[1..], end);
    }
  }

  /** The bookings table behind a fixed set of links and accepted hosts. */
  class BookingStore {
    const links: map<int, Link>
    const accepted: map<int, seq<int>>
    var bookings: seq<Booking>

    constructor (links: map<int, Link>, accepted: map<int, seq<int>>)
      ensures this.links == links && this.accepted == accepted && bookings == []
    {
      this.links, this.accepted, bookings := links, accepted, [];
    }

    function State(): Db
      reads this
    {
      Db(links, accepted, bookings)
    }

    /** createBooking: the answer, and the one row it adds when the booking is
        created, or its insert fails with the row kept. */
    method CreateBooking(env: Env, id: int, req: Request) returns (out: Outcome)
      requires Ready(State(), env)
      modifies this
      ensures out == Decide(old(State()), env, id, req)
      ensures State() == Apply(old(State()), Book(env, id, req))
      ensures out.Created? || (out.InsertError? && out.kept) ==>
        bookings == old(bookings) + [Booking(id, out.slot, false)]
      ensures !out.Created? && !(out.InsertError? && out.kept) ==> bookings == old(bookings)
      ensures out.Gone? <==> id in links && old(UsedUp(State(), id))
    {
      GoneExactly(State(), env, id, req);
      var db := State();
      if id !in links {
        return NotFound;
      }
      if Exhausted(links[id], Live(bookings, id)) {
        return Gone;
      }
      var asked := ReadRequest(links[id], req);
      if asked.None? {
        return BadRequest;
      }
      var slot, minutes := asked.value.slot, asked.value.minutes;
      ghost var spec := Decide(db, env, id, req);
      assert spec == DecideSlot(db, env, id, asked.value) by {
        var a: Asked :| AsksFor(links[id], req, a) && spec == DecideSlot(db, env, id, a);
        AsksForOne(links[id], req, a, asked.value);
      }
      if !env.zoneReadable {
        return ServerError;
      }
      var cheap := CheapRefusal(env.zone, links[id], slot, minutes, env.now);
      if cheap.Some? {
        return Refused(cheap.value);
      }
      if !env.conflictsReadable {
        return ServerError;
      }
      if HasOverlapping(db, id, slot) {
        return Taken;
      }
      var offered := OfferedSlots(db, env, id, CalendarDay(env.zone, slot.start), minutes);
      if offered.BudgetCut? {
        return BudgetExpired;
      }
      if offered.Failed? {
        return ServerError;
      }
      var found := false;
      for i := 0 to |offered.slots|
        invariant found <==> slot in offered.slots[..i]
        invariant bookings == old(bookings)
      {
        if offered.slots[i].start == slot.start && offered.slots[i].end == slot.end {
          found := true;
          break;
        }
      }
      assert found <==> slot in offered.slots;
      if !found {
        return HostIsBusy;
      }
      match env.confirm
      case Confirmed =>
        bookings := bookings + [Booking(id, slot, false)];
        out := Created(slot);
      case CalendarUnreadable => out := HostIsBusy;
      case Expired => out := BudgetExpired;
      case InsertFailed(kept) =>
        if kept {
          bookings := bookings + [Booking(id, slot, false)];
        }
        out := InsertError(slot, kept);
    }
  }
}
