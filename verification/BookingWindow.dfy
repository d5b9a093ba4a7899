/** A scheduling link's daily window and its 15-minute wall-clock grid
    (backend/engine/booking_window.go). */
module BookingWindow {
  import opened Options
  import opened Zones
  import opened Intervals

  /** Minutes after midnight, as clockMinutes reads them. */
  type Clock = m: int | 0 <= m < 1440

  /** Hours of a link: None when the text cannot be read. */
  datatype Hours = Hours(opening: Option<Clock>, closing: Option<Clock>)

  const GRID_STEP := 15

  function At(date: int, minutes: int): int { date * DAY + minutes * 60 }

  /** LinkWindow. */
  method LinkWindow(z: Zone, hours: Hours, date: int) returns (start: int, end: int, ok: bool)
    requires Valid(z)
    ensures ok ==> hours.opening.Some? && hours.closing.Some?
    ensures hours.opening.Some? && hours.closing.Some? ==>
      && start == Reached(z, At(date, hours.opening.value))
      && end == Reached(z, At(date, hours.closing.value))
      && (ok <==> start < end)
  {
    if hours.opening.None? || hours.closing.None? {
      return 0, 0, false;
    }
    var sm, em := hours.opening.value, hours.closing.value;
    var e1, e2;
    start, e1 := WallClock(z, date, sm / 60, sm % 60);
    end, e2 := WallClock(z, date, em / 60, em % 60);
    FirstReachUnique(z, At(date, sm), start, Reached(z, At(date, sm)));
    FirstReachUnique(z, At(date, em), end, Reached(z, At(date, em)));
    return start, end, start < end;
  }

  predicate GridMinute(opening: Clock, m: int) {
    opening <= m < 1440 && (m - opening) % GRID_STEP == 0
  }

  /** The slots a link offers on a date before busy time is looked at: a grid
      wall time some instant shows, taken at its first occurrence, whose slot
      ends by closing. */
  ghost predicate OnGrid(z: Zone, hours: Hours, date: int, minutes: int, slot: Interval)
    requires Valid(z)
  {
    && minutes > 0 && hours.opening.Some? && hours.closing.Some?
    && exists m :: OnGridAt(z, hours, date, minutes, slot, m)
  }

  ghost predicate OnGridAt(z: Zone, hours: Hours, date: int, minutes: int, slot: Interval, m: int)
    requires Valid(z) && hours.opening.Some? && hours.closing.Some?
  {
    && GridMinute(hours.opening.value, m)
    && Local(z, slot.start) == At(date, m)
    && FirstReach(z, At(date, m), slot.start)
    && slot.end == slot.start + minutes * 60
    && slot.end <= Reached(z, At(date, hours.closing.value))
  }

  ghost predicate OnGridBelow(z: Zone, hours: Hours, date: int, minutes: int, slot: Interval, bound: int)
    requires Valid(z) && hours.opening.Some? && hours.closing.Some?
  {
    exists m :: m < bound && OnGridAt(z, hours, date, minutes, slot, m)
  }

  ghost predicate Ascending(slots: seq<Interval>) {
    forall i, j | 0 <= i < j < |slots| :: slots[i].start < slots[j].start
  }

  lemma SameStep(opening: Clock, m: int, k: int)
    requires (m - opening) % GRID_STEP == 0 && GridMinute(opening, k) && m <= k < m + GRID_STEP
    ensures k == m
  {
    assert k - opening == (k - opening) / GRID_STEP * GRID_STEP;
    assert m - opening == (m - opening) / GRID_STEP * GRID_STEP;
  }

  /** GridSlots: sound, complete, in strictly ascending order (so each slot
      appears once), and never dropping a slot for starting before the window. */
  method GridSlots(z: Zone, hours: Hours, date: int, minutes: int) returns (out: seq<Interval>)
    requires Valid(z)
    ensures Ascending(out)
    ensures forall slot :: slot in out <==> OnGrid(z, hours, date, minutes, slot)
  {
    out := [];
    if minutes <= 0 {
      return;
    }
    var ws, we, ok := LinkWindow(z, hours, date);
    if !ok {
      forall slot ensures !OnGrid(z, hours, date, minutes, slot) {
        if OnGrid(z, hours, date, minutes, slot) {
          var m :| OnGridAt(z, hours, date, minutes, slot, m);
          NotBeforeOpening(z, hours, date, m, slot.start);
        }
      }
      return;
    }
    var sm := hours.opening.value;
    var m: int := sm;
    while m < 24 * 60
      invariant sm <= m && (m - sm) % GRID_STEP == 0
      invariant Ascending(out)
      invariant forall slot | slot in out :: OnGridBelow(z, hours, date, minutes, slot, m)
      invariant forall k, slot | k < m && OnGridAt(z, hours, date, minutes, slot, k) :: slot in out
      decreases 24 * 60 - m
    {
      var t, exact := WallClock(z, date, m / 60, m % 60);
      assert FirstReach(z, At(date, m), t);
      NotBeforeOpening(z, hours, date, m, t);
      ShownIsReached(z, At(date, m));
      FirstReachUnique(z, At(date, m), t, Reached(z, At(date, m)));
      assert t >= ws;
      var end := t + minutes * 60;
      ghost var before := out;
      if exact && t >= ws && end <= we {
        var slot := Interval(t, end);
        assert OnGridAt(z, hours, date, minutes, slot, m);
        forall i | 0 <= i < |out| ensures out[i].start < t {
          assert out[i] in out;
          var k :| k < m && OnGridAt(z, hours, date, minutes, out[i], k);
        }
        out := out + [slot];
      }
      forall slot | slot in out ensures OnGridBelow(z, hours, date, minutes, slot, m + GRID_STEP) {
        if slot in before {
          var k :| k < m && OnGridAt(z, hours, date, minutes, slot, k);
        } else {
          assert OnGridAt(z, hours, date, minutes, slot, m);
        }
      }
      forall k, slot | k < m + GRID_STEP && OnGridAt(z, hours, date, minutes, slot, k) ensures slot in out {
        if k >= m {
          SameStep(sm, m, k);
          FirstReachUnique(z, At(date, m), t, slot.start);
        }
      }
      m := m + GRID_STEP;
    }
  }

  lemma NotBeforeOpening(z: Zone, hours: Hours, date: int, m: int, t: int)
    requires Valid(z) && hours.opening.Some? && hours.opening.value <= m
    requires FirstReach(z, At(date, m), t)
    ensures Reached(z, At(date, hours.opening.value)) <= t
  {
  }

  /** What a slot on the grid is: exact length, inside the window, on the date,
      and the first time that date's clock reads its wall time. */
  lemma OnGridMeans(z: Zone, hours: Hours, date: int, minutes: int, slot: Interval)
    requires Valid(z) && OnGrid(z, hours, date, minutes, slot)
    ensures slot.end - slot.start == minutes * 60 > 0
    ensures Reached(z, At(date, hours.opening.value)) <= slot.start
    ensures slot.end <= Reached(z, At(date, hours.closing.value))
    ensures DateOf(z, slot.start) == date
    ensures (Local(z, slot.start) - At(date, hours.opening.value)) % (GRID_STEP * 60) == 0
    ensures forall u | u < slot.start :: Local(z, u) < Local(z, slot.start)
  {
    var m :| OnGridAt(z, hours, date, minutes, slot, m);
    NotBeforeOpening(z, hours, date, m, slot.start);
  }

  /** The grid in plain figures: a quarter of an hour apart from opening, before
      midnight, shown by that date's clock for the first time, ended by closing. */
  lemma OnGridExactly(z: Zone, hours: Hours, date: int, minutes: int, slot: Interval)
    requires Valid(z)
    ensures var second := Local(z, slot.start) - date * 86400;
      OnGrid(z, hours, date, minutes, slot) <==>
        && minutes > 0 && hours.opening.Some? && hours.closing.Some?
        && slot.end == slot.start + minutes * 60
        && hours.opening.value * 60 <= second < 86400 && (second - hours.opening.value * 60) % 900 == 0
        && (forall u | u < slot.start :: Local(z, u) < Local(z, slot.start))
        && slot.end <= Reached(z, date * 86400 + hours.closing.value * 60)
  {
    if minutes > 0 && hours.opening.Some? && hours.closing.Some? {
      var opening, second := hours.opening.value, Local(z, slot.start) - date * 86400;
      QuarterSeconds(opening, second / 60, second);
      if m :| OnGridAt(z, hours, date, minutes, slot, m) {
        assert m == second / 60;
      }
      if opening * 60 <= second < 86400 && (second - opening * 60) % 900 == 0 {
        assert GridMinute(opening, second / 60) && At(date, second / 60) == Local(z, slot.start);
        assert OnGridAt(z, hours, date, minutes, slot, second / 60) ==> OnGrid(z, hours, date, minutes, slot);
      }
    }
  }

  lemma QuarterSeconds(opening: Clock, m: int, second: int)
    requires m == second / 60
    ensures second == m * 60 && (m - opening) % 15 == 0 <==> (second - opening * 60) % 900 == 0
  {
    var past := second - opening * 60;
    if past % 900 == 0 {
      assert second == (past / 900 * 15 + opening) * 60;
      assert m - opening == past / 900 * 15;
    }
    if second == m * 60 && (m - opening) % 15 == 0 {
      assert past == (m - opening) / 15 * 900;
    }
  }

  /** The window of a link that opens before it closes is empty exactly on the
      dates on which no instant shows a wall time from opening up to closing. */
  lemma WindowEmptyExactly(z: Zone, opening: int, closing: int)
    requires Valid(z) && opening < closing <= opening + DAY
    ensures Reached(z, opening) >= Reached(z, closing)
       <==> !exists u :: opening <= Local(z, u) < closing
  {
    var s, e := Reached(z, opening), Reached(z, closing);
    if s < e {
      assert opening <= Local(z, s) < closing;
    } else {
      assert s == e;
      forall u ensures !(opening <= Local(z, u) < closing) {
        if opening <= Local(z, u) < closing {
          assert u > s && Local(z, s - 1) < opening && Local(z, s) >= closing;
          OffsetBounds(z, s);
          OffsetBounds(z, u);
          OffsetBounds(z, s - 1);
          var k := ChangeBetween(z, s - 1, s);
          var l := ChangeBetween(z, s, u);
        }
      }
    }
  }
}
