/** Collective availability of a link's hosts (backend/engine/booking.go) over
    the stored bookings (backend/storage/scheduling_links.go). */
module Bookings {
  import opened Options
  import opened Zones
  import opened Intervals
  import opened BookingWindow
  import opened BookingRule

  datatype Booking = Booking(link: int, slot: Interval, cancelled: bool)

  /** Links, their accepted hosts, and the bookings so far. */
  datatype Db = Db(links: map<int, Link>, accepted: map<int, seq<int>>, bookings: seq<Booking>)

  /** One host's sources for a window: the calendar's opaque events (None when
      it cannot be read), the focus blocks and the bookings (storage reads). */
  datatype HostDay = HostDay(events: Option<seq<Interval>>, focus: Option<seq<Interval>>, bookingsReadable: bool)

  /** How the confirmation ends; a failed insert may have kept its row. */
  datatype Confirm = Confirmed | CalendarUnreadable | Expired | InsertFailed(kept: bool)

  /** What one request meets outside the store. */
  datatype Env = Env(
    now: int, zone: Zone, zoneReadable: bool, conflictsReadable: bool, hostsReadable: bool,
    cut: Interval -> bool, read: (int, Interval) -> HostDay, confirm: Confirm)

  ghost predicate Ready(db: Db, env: Env) {
    Valid(env.zone) && db.accepted.Keys == db.links.Keys
  }

  // ---- stored bookings ----

  function Live(bookings: seq<Booking>, link: int): nat {
    if bookings == [] then 0
    else
      var b := bookings[|bookings|-1];
      Live(bookings[..|bookings|-1], link) + if b.link == link && !b.cancelled then 1 else 0
  }

  predicate HasOverlapping(db: Db, link: int, slot: Interval) {
    exists b | b in db.bookings :: b.link == link && !b.cancelled && Overlap(b.slot, slot)
  }

  /** Does the user own the link or host it? */
  predicate Hosts(db: Db, user: int, link: int) {
    && link in db.links
    && (db.links[link].owner == user || (link in db.accepted && user in db.accepted[link]))
  }

  predicate Blocks(db: Db, user: int, window: Interval, b: Booking) {
    !b.cancelled && Overlap(b.slot, window) && Hosts(db, user, b.link)
  }

  /** GetBusyBookingsForUser, in the order stored. */
  function BusyBookings(db: Db, user: int, window: Interval, n: nat): seq<Interval>
    requires n <= |db.bookings|
  {
    if n == 0 then []
    else BusyBookings(db, user, window, n - 1) +
         if Blocks(db, user, window, db.bookings[n-1]) then [db.bookings[n-1].slot] else []
  }

  lemma {:induction false} BusyBookingsHolds(db: Db, user: int, window: Interval, n: nat, b: Booking)
    requires n <= |db.bookings| && b in db.bookings[..n] && Blocks(db, user, window, b)
    ensures b.slot in BusyBookings(db, user, window, n)
  {
    if b != db.bookings[n-1] {
      assert b in db.bookings[..n-1];
      BusyBookingsHolds(db, user, window, n - 1, b);
    }
  }

  // ---- busy time of the hosts ----

  datatype HostAnswer = Busy(busy: seq<Interval>) | Unreadable | StoreFailed

  function Padded(link: Link, events: seq<Interval>): seq<Interval> {
    seq(|events|, i requires 0 <= i < |events| =>
      Interval(events[i].start - link.bufferBefore * 60, events[i].end + link.bufferAfter * 60))
  }

  function HostAnswerOf(db: Db, link: Link, user: int, window: Interval, day: HostDay): HostAnswer {
    if day.events.None? then Unreadable
    else if day.focus.None? || !day.bookingsReadable then StoreFailed
    else
      var events := day.events.value;
      Busy(events + (if link.bufferBefore > 0 || link.bufferAfter > 0 then Padded(link, events) else [])
           + day.focus.value + BusyBookings(db, user, window, |db.bookings|))
  }

  /** The host is busy then: an event, with or without the link's buffers, a
      focus block, or a live booking near the window of a link they own or host. */
  ghost predicate BusyWith(db: Db, link: Link, user: int, window: Interval, day: HostDay, b: Interval)
    requires day.events.Some? && day.focus.Some?
  {
    || b in day.events.value
    || ((link.bufferBefore > 0 || link.bufferAfter > 0) &&
        exists e | e in day.events.value ::
          b == Interval(e.start - link.bufferBefore * 60, e.end + link.bufferAfter * 60))
    || b in day.focus.value
    || exists k | 0 <= k < |db.bookings| ::
         var booking := db.bookings[k];
         && b == booking.slot && !booking.cancelled && b.start < window.end && b.end > window.start
         && booking.link in db.links
         && (db.links[booking.link].owner == user || (booking.link in db.accepted && user in db.accepted[booking.link]))
  }

  lemma PaddedIs(link: Link, events: seq<Interval>, b: Interval)
    ensures b in Padded(link, events) <==> exists e | e in events ::
      b == Interval(e.start - link.bufferBefore * 60, e.end + link.bufferAfter * 60)
  {
    var padded := Padded(link, events);
    if e :| e in events && b == Interval(e.start - link.bufferBefore * 60, e.end + link.bufferAfter * 60) {
      var i :| 0 <= i < |events| && events[i] == e;
      assert padded[i] == b;
    }
    if i :| 0 <= i < |padded| && padded[i] == b {
      assert events[i] in events;
    }
  }

  lemma {:induction false} BusyBookingsAre(db: Db, user: int, window: Interval, n: nat, b: Interval)
    requires n <= |db.bookings|
    ensures b in BusyBookings(db, user, window, n) <==>
      exists k | 0 <= k < n :: Blocks(db, user, window, db.bookings[k]) && b == db.bookings[k].slot
  {
    if n > 0 {
      BusyBookingsAre(db, user, window, n - 1, b);
    }
  }

  lemma AnswerHolds(db: Db, link: Link, user: int, window: Interval, day: HostDay, b: Interval)
    requires HostAnswerOf(db, link, user, window, day).Busy?
    ensures b in HostAnswerOf(db, link, user, window, day).busy <==> BusyWith(db, link, user, window, day, b)
  {
    PaddedIs(link, day.events.value, b);
    BusyBookingsAre(db, user, window, |db.bookings|, b);
  }

  /** hostBusy: exactly what the host is busy with; only a host whose calendar
      cannot be read is unreadable, whatever storage answers. */
  method HostBusy(db: Db, link: Link, user: int, window: Interval, day: HostDay) returns (answer: HostAnswer)
    ensures answer == HostAnswerOf(db, link, user, window, day)
    ensures answer.Unreadable? <==> day.events.None?
    ensures answer.Busy? <==> day.events.Some? && day.focus.Some? && day.bookingsReadable
    ensures answer.Busy? ==> forall b :: b in answer.busy <==> BusyWith(db, link, user, window, day, b)
  {
    forall b | HostAnswerOf(db, link, user, window, day).Busy?
      ensures b in HostAnswerOf(db, link, user, window, day).busy <==> BusyWith(db, link, user, window, day, b)
    {
      AnswerHolds(db, link, user, window, day, b);
    }
    if day.events.None? {
      return Unreadable;
    }
    var busy := day.events.value;
    if link.bufferBefore > 0 || link.bufferAfter > 0 {
      var buffered: seq<Interval> := [];
      for i := 0 to |busy|
        invariant |buffered| == i && buffered == Padded(link, busy)[..i]
      {
        buffered := buffered + [Interval(busy[i].start - link.bufferBefore * 60, busy[i].end + link.bufferAfter * 60)];
      }
      busy := busy + buffered;
    }
    if day.focus.None? {
      return StoreFailed;
    }
    for i := 0 to |day.focus.value|
      invariant busy == HostAnswerEvents(link, day) + day.focus.value[..i]
    {
      busy := busy + [day.focus.value[i]];
    }
    if !day.bookingsReadable {
      return StoreFailed;
    }
    busy := busy + BusyBookings(db, user, window, |db.bookings|);
    return Busy(busy);
  }

  function HostAnswerEvents(link: Link, day: HostDay): seq<Interval>
    requires day.events.Some?
  {
    var events := day.events.value;
    events + if link.bufferBefore > 0 || link.bufferAfter > 0 then Padded(link, events) else []
  }

  function AnswerIn(db: Db, env: Env, id: int, user: int, window: Interval): HostAnswer
    requires id in db.links
  {
    HostAnswerOf(db, db.links[id], user, window, env.read(user, window))
  }

  /** The simple rule: every accepted host can be read and none of their busy
      intervals, unmerged, overlaps the slot. */
  ghost predicate AllFree(db: Db, env: Env, id: int, window: Interval, slot: Interval)
    requires id in db.links && id in db.accepted
  {
    forall user | user in db.accepted[id] ::
      var answer := AnswerIn(db, env, id, user, window);
      answer.Busy? && !OverlapsAny(slot, answer.busy)
  }

  datatype Answer = Slots(slots: seq<Interval>) | Failed | BudgetCut

  ghost predicate HasWindow(env: Env, link: Link, date: int)
    requires Valid(env.zone)
  {
    && link.hours.opening.Some? && link.hours.closing.Some?
    && Reached(env.zone, At(date, link.hours.opening.value)) < Reached(env.zone, At(date, link.hours.closing.value))
  }

  ghost function Window(env: Env, link: Link, date: int): Interval
    requires Valid(env.zone) && HasWindow(env, link, date)
  {
    Interval(Reached(env.zone, At(date, link.hours.opening.value)),
             Reached(env.zone, At(date, link.hours.closing.value)))
  }

  /** How gathering busy time for a link's date ends. */
  ghost function Gathered(db: Db, env: Env, id: int, date: int): Option<Answer>
    requires Ready(db, env) && id in db.links
  {
    if !env.hostsReadable then Some(Failed)
    else if db.accepted[id] == [] || !HasWindow(env, db.links[id], date) then Some(Slots([]))
    else
      var window := Window(env, db.links[id], date);
      if env.cut(window) then Some(BudgetCut)
      else if exists user | user in db.accepted[id] :: AnswerIn(db, env, id, user, window).StoreFailed?
      then Some(Failed)
      else None
  }

  /** The slots every accepted host is free for. */
  ghost predicate Collective(db: Db, env: Env, id: int, date: int, minutes: int, slot: Interval)
    requires Ready(db, env) && id in db.links
  {
    && Gathered(db, env, id, date).None?
    && OnGrid(env.zone, db.links[id].hours, date, minutes, slot)
    && AllFree(db, env, id, Window(env, db.links[id], date), slot)
  }

  /** CollectiveSlots refines the simple rule: merging the hosts' busy time
      changes no answer, an unreadable host leaves nothing, and a storage
      failure or a budget cut is never a list. */
  method CollectiveSlots(db: Db, env: Env, id: int, date: int, minutes: int) returns (r: Answer)
    requires Ready(db, env) && id in db.links
    ensures Gathered(db, env, id, date).Some? ==> r == Gathered(db, env, id, date).value
    ensures Gathered(db, env, id, date).None? ==>
      && r.Slots? && Ascending(r.slots)
      && forall slot :: slot in r.slots <==> Collective(db, env, id, date, minutes, slot)
  {
    var link := db.links[id];
    if !env.hostsReadable {
      return Failed;
    }
    var hosts := db.accepted[id];
    if hosts == [] {
      return Slots([]);
    }
    var ws, we, ok := LinkWindow(env.zone, link.hours, date);
    if !ok {
      return Slots([]);
    }
    var window := Interval(ws, we);
    if env.cut(window) {
      return BudgetCut;
    }
    var failed, allBusy := GatherBusy(db, env, id, hosts, window);
    if failed {
      return Failed;
    }
    var merged := Merged(allBusy);
    var grid := GridSlots(env.zone, link.hours, date, minutes);
    forall slot | slot in grid ensures OverlapsAny(slot, merged) <==> !AllFree(db, env, id, window, slot) {
      OnGridMeans(env.zone, link.hours, date, minutes, slot);
      MergeKeepsOverlaps(allBusy, slot);
      HitMeansNotFree(db, env, id, window, slot);
    }
    var slots := ClearSlots(grid, merged);
    return Slots(slots);
  }

  /** Its loop over the accepted hosts: an unreadable one is busy all along. */
  method GatherBusy(db: Db, env: Env, id: int, hosts: seq<int>, window: Interval)
    returns (failed: bool, allBusy: seq<Interval>)
    requires id in db.links
    ensures failed <==> exists user | user in hosts :: AnswerIn(db, env, id, user, window).StoreFailed?
    ensures !failed ==> forall slot :: OverlapsAny(slot, allBusy) <==> HostHit(db, env, id, window, hosts, slot)
  {
    failed, allBusy := false, [];
    for i := 0 to |hosts|
      invariant failed <==> exists k | 0 <= k < i :: AnswerIn(db, env, id, hosts[k], window).StoreFailed?
      invariant !failed ==> forall slot :: OverlapsAny(slot, allBusy) <==>
        HostHit(db, env, id, window, hosts[..i], slot)
    {
      var answer := HostBusy(db, db.links[id], hosts[i], window, env.read(hosts[i], window));
      var busy := match answer case Busy(b) => b case Unreadable => [window] case StoreFailed => [];
      assert answer == AnswerIn(db, env, id, hosts[i], window);
      failed := failed || answer.StoreFailed?;
      forall slot ensures OverlapsAny(slot, allBusy + busy) <==> OverlapsAny(slot, allBusy) || OverlapsAny(slot, busy) {
        OverlapsConcat(slot, allBusy, busy);
      }
      assert hosts[..i+1] == hosts[..i] + [hosts[i]];
      allBusy := allBusy + busy;
    }
    assert hosts[..|hosts|] == hosts;
  }

  /** Its loop over the grid. */
  method ClearSlots(grid: seq<Interval>, merged: seq<Interval>) returns (slots: seq<Interval>)
    requires Ascending(grid)
    ensures Ascending(slots) && forall slot :: slot in slots <==> slot in grid && !OverlapsAny(slot, merged)
  {
    slots := [];
    for i := 0 to |grid|
      invariant Ascending(slots)
      invariant forall k | 0 <= k < |slots| && 0 < i :: slots[k].start <= grid[i-1].start
      invariant i == 0 ==> slots == []
      invariant forall slot :: slot in slots <==> slot in grid[..i] && !OverlapsAny(slot, merged)
    {
      var hit := OverlapScan(grid[i], merged);
      if !hit {
        slots := slots + [grid[i]];
      }
    }
    assert grid[..|grid|] == grid;
  }

  /** Some host's busy time, or the whole window of an unreadable one, overlaps. */
  ghost predicate HostHit(db: Db, env: Env, id: int, window: Interval, hosts: seq<int>, slot: Interval)
    requires id in db.links
  {
    exists user | user in hosts ::
      match AnswerIn(db, env, id, user, window)
      case Busy(b) => OverlapsAny(slot, b)
      case Unreadable => Overlap(slot, window)
      case StoreFailed => false
  }

  lemma HitMeansNotFree(db: Db, env: Env, id: int, window: Interval, slot: Interval)
    requires id in db.links && id in db.accepted
    requires slot.start < slot.end && Inside(slot, window)
    requires forall user | user in db.accepted[id] :: !AnswerIn(db, env, id, user, window).StoreFailed?
    ensures HostHit(db, env, id, window, db.accepted[id], slot) <==> !AllFree(db, env, id, window, slot)
  {
    assert Overlap(slot, window);
  }

  // ---- what a free host is ----

  /** Nothing in the host's calendar, focus time or bookings meets the slot. */
  ghost predicate NothingMeets(db: Db, link: Link, user: int, day: HostDay, slot: Interval) {
    && day.events.Some? && day.focus.Some?
    && (forall e | e in day.events.value :: slot.end <= e.start || e.end <= slot.start)
    && (link.bufferBefore > 0 || link.bufferAfter > 0 ==> forall e | e in day.events.value ::
          slot.end <= e.start - link.bufferBefore * 60 || e.end + link.bufferAfter * 60 <= slot.start)
    && (forall f | f in day.focus.value :: slot.end <= f.start || f.end <= slot.start)
    && forall b | b in db.bookings && !b.cancelled && b.link in db.links
         && (db.links[b.link].owner == user || (b.link in db.accepted && user in db.accepted[b.link])) ::
         slot.end <= b.slot.start || b.slot.end <= slot.start
  }

  lemma PaddedHits(link: Link, events: seq<Interval>, slot: Interval)
    ensures OverlapsAny(slot, Padded(link, events)) <==> exists e | e in events ::
      slot.start < e.end + link.bufferAfter * 60 && slot.end > e.start - link.bufferBefore * 60
  {
    var padded := Padded(link, events);
    if e :| e in events && slot.start < e.end + link.bufferAfter * 60 && slot.end > e.start - link.bufferBefore * 60 {
      var i :| 0 <= i < |events| && events[i] == e;
      assert padded[i] in padded && Overlap(slot, padded[i]);
    }
    if OverlapsAny(slot, padded) {
      var b :| b in padded && Overlap(slot, b);
      var i :| 0 <= i < |padded| && padded[i] == b;
      assert events[i] in events;
    }
  }

  lemma {:induction false} BusyBookingsHit(db: Db, user: int, window: Interval, n: nat, slot: Interval)
    requires n <= |db.bookings|
    ensures OverlapsAny(slot, BusyBookings(db, user, window, n)) <==>
      exists k | 0 <= k < n :: Blocks(db, user, window, db.bookings[k]) && Overlap(slot, db.bookings[k].slot)
  {
    if n > 0 {
      BusyBookingsHit(db, user, window, n - 1, slot);
      var last := if Blocks(db, user, window, db.bookings[n-1]) then [db.bookings[n-1].slot] else [];
      OverlapsConcat(slot, BusyBookings(db, user, window, n - 1), last);
    }
  }

  /** Inside the window, a booking that meets the slot meets the window. */
  lemma BookingsMiss(db: Db, user: int, window: Interval, slot: Interval)
    requires slot.start < slot.end && Inside(slot, window)
    ensures !OverlapsAny(slot, BusyBookings(db, user, window, |db.bookings|)) <==>
      forall b | b in db.bookings && !b.cancelled && b.link in db.links
        && (db.links[b.link].owner == user || (b.link in db.accepted && user in db.accepted[b.link])) ::
        slot.end <= b.slot.start || b.slot.end <= slot.start
  {
    BusyBookingsHit(db, user, window, |db.bookings|, slot);
  }

  lemma FreeHostExactly(db: Db, link: Link, user: int, window: Interval, day: HostDay, slot: Interval)
    requires slot.start < slot.end && Inside(slot, window)
    requires !HostAnswerOf(db, link, user, window, day).StoreFailed?
    ensures (HostAnswerOf(db, link, user, window, day).Busy?
             && !OverlapsAny(slot, HostAnswerOf(db, link, user, window, day).busy))
       <==> NothingMeets(db, link, user, day, slot)
  {
    if day.events.Some? {
      var events, buffered := day.events.value, link.bufferBefore > 0 || link.bufferAfter > 0;
      var padded := if buffered then Padded(link, events) else [];
      var bookings := BusyBookings(db, user, window, |db.bookings|);
      OverlapsConcat(slot, events + padded + day.focus.value, bookings);
      OverlapsConcat(slot, events + padded, day.focus.value);
      OverlapsConcat(slot, events, padded);
      PaddedHits(link, events, slot);
      BookingsMiss(db, user, window, slot);
    }
  }

  /** What collective availability means in the sources' own fields: each
      accepted host's calendar can be read, and the slot meets none of its
      events, with or without the link's buffers, no focus block and no live
      booking of a link the host owns or hosts. */
  lemma CollectiveExactly(db: Db, env: Env, id: int, date: int, minutes: int, slot: Interval)
    requires Ready(db, env) && id in db.links && Gathered(db, env, id, date).None?
    requires OnGrid(env.zone, db.links[id].hours, date, minutes, slot)
    ensures Collective(db, env, id, date, minutes, slot) <==>
      forall user | user in db.accepted[id] ::
        NothingMeets(db, db.links[id], user, env.read(user, Window(env, db.links[id], date)), slot)
  {
    var link := db.links[id];
    var window := Window(env, link, date);
    OnGridMeans(env.zone, link.hours, date, minutes, slot);
    forall user | user in db.accepted[id]
      ensures (AnswerIn(db, env, id, user, window).Busy?
               && !OverlapsAny(slot, AnswerIn(db, env, id, user, window).busy))
         <==> NothingMeets(db, link, user, env.read(user, window), slot)
    {
      FreeHostExactly(db, link, user, window, env.read(user, window), slot);
    }
  }

  /** How gathering ends: a failed read of the hosts, or of some readable host's
      focus blocks or bookings, fails; without hosts or hours nothing is offered;
      a budget cut comes before any host's failure. */
  lemma GatheredExactly(db: Db, env: Env, id: int, date: int)
    requires Ready(db, env) && id in db.links
    ensures var link, hosts := db.links[id], db.accepted[id];
      var g := Gathered(db, env, id, date);
      if !env.hostsReadable then g == Some(Failed)
      else if hosts == [] || link.hours.opening.None? || link.hours.closing.None? then g == Some(Slots([]))
      else
        var window := Interval(Reached(env.zone, date * 86400 + link.hours.opening.value * 60),
                               Reached(env.zone, date * 86400 + link.hours.closing.value * 60));
        if window.end <= window.start then g == Some(Slots([]))
        else if env.cut(window) then g == Some(BudgetCut)
        else if exists user | user in hosts ::
          var day := env.read(user, window);
          day.events.Some? && (day.focus.None? || !day.bookingsReadable)
        then g == Some(Failed)
        else g == None && Window(env, link, date) == window
  {
    if HasWindow(env, db.links[id], date) {
      var window := Window(env, db.links[id], date);
      forall user ensures AnswerIn(db, env, id, user, window).StoreFailed? <==>
        var day := env.read(user, window); day.events.Some? && (day.focus.None? || !day.bookingsReadable)
      {
      }
    }
  }

  /** More busy time never adds a slot. */
  lemma BusyOnlyRemoves(db: Db, env: Env, more: Env, id: int, date: int, minutes: int, slot: Interval)
    requires Ready(db, env) && Ready(db, more) && id in db.links && more.zone == env.zone
    requires Gathered(db, env, id, date).None?
    requires forall user, window ::
      AnswerIn(db, env, id, user, window).Busy? && AnswerIn(db, more, id, user, window).Busy? ==>
        forall b | b in AnswerIn(db, env, id, user, window).busy :: b in AnswerIn(db, more, id, user, window).busy
    requires forall user, window :: !AnswerIn(db, env, id, user, window).Busy? ==>
      !AnswerIn(db, more, id, user, window).Busy?
    requires Collective(db, more, id, date, minutes, slot)
    ensures Collective(db, env, id, date, minutes, slot)
  {
    var window := Window(env, db.links[id], date);
    forall user | user in db.accepted[id]
      ensures AnswerIn(db, env, id, user, window).Busy? && !OverlapsAny(slot, AnswerIn(db, env, id, user, window).busy)
    {
      assert AnswerIn(db, more, id, user, window).Busy?;
    }
  }
}
