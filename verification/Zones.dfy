/** Time zones and the wall-clock resolver of backend/engine/booking_window.go.
    Instants and wall times are seconds, days are numbered, and the wall time
    "second s of day d" is d * DAY + s, read as if it were UTC. */
module Zones {

  const DAY: int := 86400

  datatype Change = Change(at: int, offset: int)

  /** The offset in force before the first change, then one entry per change. */
  datatype Zone = Zone(base: int, changes: seq<Change>)

  predicate OffsetOk(o: int) { -DAY < o < DAY }

  /** Offsets stay under 24 hours and two changes are at least 48 hours apart,
      which is what the resolver's three probes rely on. */
  ghost predicate Valid(z: Zone) {
    && OffsetOk(z.base)
    && (forall i | 0 <= i < |z.changes| :: OffsetOk(z.changes[i].offset))
    && forall i, j | 0 <= i < j < |z.changes| :: z.changes[i].at + 2 * DAY <= z.changes[j].at
  }

  function OffsetAt(z: Zone, t: int): int
    decreases |z.changes|
  {
    if z.changes == [] then z.base
    else
      var last := z.changes[|z.changes|-1];
      if last.at <= t then last.offset else OffsetAt(Zone(z.base, z.changes[..|z.changes|-1]), t)
  }

  function Local(z: Zone, t: int): int { t + OffsetAt(z, t) }

  function DateOf(z: Zone, t: int): int { Local(z, t) / DAY }

  ghost predicate Shows(z: Zone, wall: int) { exists t :: Local(z, t) == wall }

  /** t is the first instant whose local clock has reached the wall time. */
  ghost predicate FirstReach(z: Zone, wall: int, t: int) {
    Local(z, t) >= wall && forall u | u < t :: Local(z, u) < wall
  }

  lemma {:induction false} OffsetBounds(z: Zone, t: int)
    requires Valid(z)
    ensures OffsetOk(OffsetAt(z, t))
    decreases |z.changes|
  {
    if z.changes != [] {
      OffsetBounds(Zone(z.base, z.changes[..|z.changes|-1]), t);
    }
  }

  /** The offset in force is the latest change's, the base one before them all. */
  lemma {:induction false} OffsetExactly(z: Zone, t: int, k: nat)
    requires Valid(z)
    ensures k < |z.changes| && z.changes[k].at <= t && (k + 1 < |z.changes| ==> t < z.changes[k+1].at) ==>
      OffsetAt(z, t) == z.changes[k].offset
    ensures (forall i | 0 <= i < |z.changes| :: t < z.changes[i].at) ==> OffsetAt(z, t) == z.base
    decreases |z.changes|
  {
    var n := |z.changes| - 1;
    if n >= 0 && t < z.changes[n].at {
      OffsetExactly(Zone(z.base, z.changes[..n]), t, k);
    }
  }

  /** Two instants with different offsets have a change after the first and up
      to the second. */
  lemma {:induction false} ChangeBetween(z: Zone, t: int, u: int) returns (k: nat)
    requires Valid(z) && t <= u && OffsetAt(z, t) != OffsetAt(z, u)
    ensures k < |z.changes| && t < z.changes[k].at <= u
    decreases |z.changes|
  {
    k := |z.changes| - 1;
    if !(t < z.changes[k].at <= u) {
      k := ChangeBetween(Zone(z.base, z.changes[..k]), t, u);
    }
  }

  /** No change falls after t and up to u. */
  ghost predicate Quiet(z: Zone, t: int, u: int) {
    forall k | 0 <= k < |z.changes| :: !(t < z.changes[k].at <= u)
  }

  lemma QuietOffset(z: Zone, t: int, u: int)
    requires Valid(z) && t <= u && Quiet(z, t, u)
    ensures OffsetAt(z, t) == OffsetAt(z, u)
  {
    if OffsetAt(z, t) != OffsetAt(z, u) {
      var k := ChangeBetween(z, t, u);
    }
  }

  /** In 48 hours from lo there is at most one change: before it the offset is
      lo's, from it on the offset is the last one. */
  lemma OneChange(z: Zone, lo: int) returns (at: int)
    requires Valid(z)
    ensures lo < at <= lo + 2 * DAY + 1
    ensures forall t | lo <= t < at :: OffsetAt(z, t) == OffsetAt(z, lo)
    ensures forall t | at <= t <= lo + 2 * DAY :: OffsetAt(z, t) == OffsetAt(z, lo + 2 * DAY)
    ensures at <= lo + 2 * DAY ==> exists k | 0 <= k < |z.changes| :: z.changes[k].at == at
    ensures forall k | 0 <= k < |z.changes| && lo < z.changes[k].at <= lo + 2 * DAY :: z.changes[k].at == at
  {
    var hi := lo + 2 * DAY;
    if k: nat :| k < |z.changes| && lo < z.changes[k].at <= hi {
      at := z.changes[k].at;
    } else {
      at := hi + 1;
    }
    forall t | lo <= t < at ensures OffsetAt(z, t) == OffsetAt(z, lo) {
      QuietOffset(z, lo, t);
    }
    forall t | at <= t <= hi ensures OffsetAt(z, t) == OffsetAt(z, hi) {
      QuietOffset(z, t, hi);
    }
  }

  lemma FirstReachUnique(z: Zone, wall: int, t: int, u: int)
    requires FirstReach(z, wall, t) && FirstReach(z, wall, u)
    ensures t == u
  {
  }

  // ---- the resolver ----

  function Wall(day: int, h: int, m: int): int { day * DAY + h * 3600 + m * 60 }

  /** ZoneBounds' end: the first change after t. */
  method NextChange(z: Zone, t: int) returns (end: int)
    requires Valid(z)
    requires exists k | 0 <= k < |z.changes| :: z.changes[k].at > t
    ensures end > t && exists k | 0 <= k < |z.changes| :: z.changes[k].at == end
    ensures Quiet(z, t, end - 1)
  {
    var i := 0;
    while z.changes[i].at <= t
      invariant 0 <= i < |z.changes|
      invariant forall k | 0 <= k < i :: z.changes[k].at <= t
    {
      i := i + 1;
    }
    end := z.changes[i].at;
  }

  /** The three ways a wall time meets the one change around it. */
  lemma Resolve(z: Zone, wall: int) returns (at: int)
    requires Valid(z)
    ensures var a, b := OffsetAt(z, wall - DAY), OffsetAt(z, wall + DAY);
      && OffsetAt(z, wall) in {a, b}
      && (wall - a < at ==> Local(z, wall - a) == wall && FirstReach(z, wall, wall - a))
      && (wall - a >= at ==> Local(z, wall - a) != wall || a == b)
      && (wall - a >= at && wall - b >= at ==> Local(z, wall - b) == wall && FirstReach(z, wall, wall - b))
      && (wall - a >= at && wall - b < at ==>
            && Local(z, wall - b) != wall && FirstReach(z, wall, at) && !Shows(z, wall)
            && wall - b < wall - a && Quiet(z, wall - b, at - 1)
            && exists k | 0 <= k < |z.changes| :: z.changes[k].at == at)
  {
    at := OneChange(z, wall - DAY);
    var a, b := OffsetAt(z, wall - DAY), OffsetAt(z, wall + DAY);
    OffsetBounds(z, wall - DAY);
    OffsetBounds(z, wall + DAY);
    forall u | u <= wall - DAY ensures Local(z, u) < wall {
      OffsetBounds(z, u);
    }
    forall u | u >= wall + DAY ensures Local(z, u) > wall {
      OffsetBounds(z, u);
    }
  }

  /** The wall-clock fields of a local time read h:m:00 on the day. */
  predicate Reads(local: int, day: int, h: int, m: int)
  {
    local / DAY == day && local % DAY / 3600 == h && local % 3600 / 60 == m && local % 60 == 0
  }

  lemma Division(x: int, d: int, q: int, r: int)
    requires d in {60, 3600, DAY} && x == q * d + r && 0 <= r < d
    ensures x / d == q && x % d == r
  {
    if d == 60 {
      assert x / 60 == q;
    } else if d == 3600 {
      assert x / 3600 == q;
    } else {
      assert x / DAY == q;
    }
  }

  /** The seconds of a wall time with second s of minute m of hour h. */
  lemma Fields(day: int, h: int, m: int, s: int)
    requires 0 <= h < 24 && 0 <= m < 60 && 0 <= s < 60
    ensures var x := Wall(day, h, m) + s;
      x / DAY == day && x % DAY / 3600 == h && x % 3600 / 60 == m && x % 60 == s
  {
    var x := Wall(day, h, m) + s;
    Division(x, DAY, day, h * 3600 + m * 60 + s);
    Division(h * 3600 + m * 60 + s, 3600, h, m * 60 + s);
    Division(x, 3600, day * 24 + h, m * 60 + s);
    Division(m * 60 + s, 60, m, s);
    Division(x, 60, day * 1440 + h * 60 + m, s);
  }

  lemma ReadsWall(local: int, day: int, h: int, m: int)
    requires 0 <= h < 24 && 0 <= m < 60
    ensures Reads(local, day, h, m) <==> local == Wall(day, h, m)
  {
    var ofDay := local % DAY;
    var h', m', s' := ofDay / 3600, ofDay % 3600 / 60, ofDay % 3600 % 60;
    assert local == Wall(local / DAY, h', m') + s';
    Fields(local / DAY, h', m', s');
    assert Reads(local, day, h, m) <==> local / DAY == day && h' == h && m' == m && s' == 0;
    if local == Wall(day, h, m) {
      Fields(day, h, m, 0);
    }
  }

  const PROBES := [-DAY, 0, DAY]

  function Candidate(z: Zone, naive: int, i: nat): int
    requires i < |PROBES|
  {
    naive - OffsetAt(z, naive + PROBES[i])
  }

  /** The earliest candidate that reads the wall time is its first occurrence. */
  lemma BestIsFirst(z: Zone, wall: int, best: int)
    requires Valid(z) && Local(z, best) == wall
    requires exists k | 0 <= k < 3 :: best == Candidate(z, wall, k)
    requires forall k | 0 <= k < 3 && Local(z, Candidate(z, wall, k)) == wall :: best <= Candidate(z, wall, k)
    ensures FirstReach(z, wall, best)
  {
    var at := Resolve(z, wall);
    var c0, c1, c2 := Candidate(z, wall, 0), Candidate(z, wall, 1), Candidate(z, wall, 2);
    assert c0 == wall - OffsetAt(z, wall - DAY) && c2 == wall - OffsetAt(z, wall + DAY) && c1 in {c0, c2};
  }

  /** When no candidate reads it, nothing does, and the change that skips it is
      the next one after the earliest candidate. */
  lemma SkippedAtChange(z: Zone, wall: int, earliest: int) returns (at: int)
    requires Valid(z)
    requires exists k | 0 <= k < 3 :: earliest == Candidate(z, wall, k)
    requires forall k | 0 <= k < 3 :: earliest <= Candidate(z, wall, k)
    requires forall k | 0 <= k < 3 :: Local(z, Candidate(z, wall, k)) != wall
    ensures FirstReach(z, wall, at) && !Shows(z, wall)
    ensures earliest < at && Quiet(z, earliest, at - 1)
    ensures exists k | 0 <= k < |z.changes| :: z.changes[k].at == at
  {
    at := Resolve(z, wall);
    var c0, c1, c2 := Candidate(z, wall, 0), Candidate(z, wall, 1), Candidate(z, wall, 2);
    assert c0 == wall - OffsetAt(z, wall - DAY) && c2 == wall - OffsetAt(z, wall + DAY) && c1 in {c0, c2};
  }

  /** wallClock: the first instant whose local clock has reached h:m on the
      day; exact tells whether any instant shows that wall time. */
  method WallClock(z: Zone, day: int, h: int, m: int) returns (t: int, exact: bool)
    requires Valid(z) && 0 <= h < 24 && 0 <= m < 60
    ensures FirstReach(z, Wall(day, h, m), t)
    ensures exact <==> Shows(z, Wall(day, h, m))
  {
    var naive := Wall(day, h, m);
    var best, earliest, found := 0, 0, false;
    for i := 0 to |PROBES|
      invariant i > 0 ==> exists k | 0 <= k < i :: earliest == Candidate(z, naive, k)
      invariant forall k | 0 <= k < i :: earliest <= Candidate(z, naive, k)
      invariant found ==> Local(z, best) == naive && exists k | 0 <= k < i :: best == Candidate(z, naive, k)
      invariant forall k | 0 <= k < i :: Local(z, Candidate(z, naive, k)) == naive ==>
        found && best <= Candidate(z, naive, k)
    {
      var c := Candidate(z, naive, i);
      if i == 0 || c < earliest {
        earliest := c;
      }
      ReadsWall(Local(z, c), day, h, m);
      if Reads(Local(z, c), day, h, m) {
        if !found || c < best {
          best, found := c, true;
        }
      }
    }
    if found {
      BestIsFirst(z, naive, best);
      return best, true;
    }
    ghost var at := SkippedAtChange(z, naive, earliest);
    var end := NextChange(z, earliest);
    return end, false;
  }

  /** The first instant that reaches the wall time: the resolver's answer. */
  ghost function Reached(z: Zone, wall: int): (t: int)
    requires Valid(z)
    ensures FirstReach(z, wall, t)
  {
    ReachExists(z, wall);
    var t :| FirstReach(z, wall, t);
    t
  }

  lemma ReachExists(z: Zone, wall: int)
    requires Valid(z)
    ensures exists t :: FirstReach(z, wall, t)
  {
    var at := Resolve(z, wall);
  }

  /** A later wall time is never reached earlier, and two shown wall times are
      reached in their own order. */
  lemma ReachMonotone(z: Zone, v: int, w: int)
    requires Valid(z) && v < w
    ensures Reached(z, v) <= Reached(z, w)
    ensures Shows(z, v) ==> Local(z, Reached(z, v)) == v
    ensures Shows(z, v) && Shows(z, w) ==> Reached(z, v) < Reached(z, w)
  {
    ShownIsReached(z, v);
    ShownIsReached(z, w);
  }

  lemma ShownIsReached(z: Zone, wall: int)
    requires Valid(z)
    ensures Shows(z, wall) <==> Local(z, Reached(z, wall)) == wall
  {
    var at := Resolve(z, wall);
    var a, b := OffsetAt(z, wall - DAY), OffsetAt(z, wall + DAY);
    if wall - a < at {
      FirstReachUnique(z, wall, wall - a, Reached(z, wall));
    } else if wall - b >= at {
      FirstReachUnique(z, wall, wall - b, Reached(z, wall));
    }
  }

  // ---- time.Date ----

  /** time.Date in a location: the offset in force at the wall time read as UTC
      gives a first guess, the offset in force at that guess the answer. */
  function DateIn(z: Zone, wall: int): int {
    wall - OffsetAt(z, wall - OffsetAt(z, wall))
  }

  /** It shows the wall time exactly when some instant does. */
  lemma DateInShows(z: Zone, wall: int)
    requires Valid(z)
    ensures Local(z, DateIn(z, wall)) == wall <==> Shows(z, wall)
  {
    var at := Resolve(z, wall);
    OffsetBounds(z, wall);
    var lo := wall - DAY;
    var one := OneChange(z, lo);
  }

  /** For a wall time a change skips, it lands where the other side's offset
      puts it: before the change when the wall time, read as UTC, comes before it. */
  lemma DateInLands(z: Zone, wall: int) returns (at: int)
    requires Valid(z) && !Shows(z, wall)
    ensures FirstReach(z, wall, at) && OffsetAt(z, at - 1) < OffsetAt(z, at)
    ensures DateIn(z, wall) == wall - OffsetAt(z, if wall < at then at else at - 1)
  {
    at := Resolve(z, wall);
    var a, b := OffsetAt(z, wall - DAY), OffsetAt(z, wall + DAY);
    OffsetBounds(z, wall - DAY);
    OffsetBounds(z, wall + DAY);
    var one := OneChange(z, wall - DAY);
    assert one == at;
  }
}
