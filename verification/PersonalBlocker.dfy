/** The reconciliation of one personal calendar with the blockers recorded for
    it (backend/engine/personal_blocker.go). */
module PersonalBlocker {
  import opened Options

  /** An event of the feed; wanted when it falls in work hours. */
  datatype Event = Event(id: string, wanted: bool)

  /** How one sync is answered: which deletes are recorded, which lookups of a
      recorded blocker succeed (by place in the feed), the new work event of each
      create that is answered and whether it is then recorded (by place in the
      missing list), and whether the budget cut either phase. Anything may stay
      undone. */
  datatype World = World(
    deleted: string -> bool, deleteCut: bool, readable: nat -> bool,
    created: nat -> Option<int>, recorded: nat -> bool, createCut: bool)

  predicate Lands(w: World, i: nat) { w.created(i).Some? && w.recorded(i) }

  /** Every lookup succeeds. */
  ghost predicate Readable(w: World) { forall i: nat :: w.readable(i) }

  /** Every answer arrives and is recorded. */
  ghost predicate Clean(w: World) {
    && !w.deleteCut && !w.createCut && Readable(w)
    && (forall id :: w.deleted(id)) && (forall i: nat :: Lands(w, i))
  }

  /** No create is answered without being recorded. */
  ghost predicate Recording(w: World) { forall i: nat :: w.created(i).Some? ==> w.recorded(i) }

  function Ids(feed: seq<Event>): set<string> { set e | e in feed :: e.id }

  /** Recorded blockers whose event left the feed, and of those the ones removed. */
  function Stale(blockers: map<string, int>, feed: seq<Event>): set<string> { blockers.Keys - Ids(feed) }

  function Removed(blockers: map<string, int>, feed: seq<Event>, w: World): set<string> {
    set id | id in Stale(blockers, feed) && w.deleted(id)
  }

  /** The wanted events for which no recorded blocker is found, in feed order: a
      lookup that fails counts as none. */
  function Missing(blockers: map<string, int>, feed: seq<Event>, w: World): seq<string> {
    if feed == [] then []
    else
      var e := feed[|feed|-1];
      Missing(blockers, feed[..|feed|-1], w) +
      if e.wanted && !(e.id in blockers && w.readable(|feed| - 1)) then [e.id] else []
  }

  /** The creates answered among the first n missing, and what they record. */
  function Made(missing: seq<string>, w: World, n: nat): seq<string>
    requires n <= |missing|
  {
    if n == 0 then [] else Made(missing, w, n - 1) + if w.created(n - 1).Some? then [missing[n-1]] else []
  }

  function Recorded(blockers: map<string, int>, missing: seq<string>, w: World, n: nat): map<string, int>
    requires n <= |missing|
  {
    if n == 0 then blockers
    else
      var before := Recorded(blockers, missing, w, n - 1);
      if Lands(w, n - 1) then before[missing[n-1] := w.created(n - 1).value] else before
  }

  /** The creates answered but not recorded. */
  function Unrecorded(missing: seq<string>, w: World, n: nat): seq<string>
    requires n <= |missing|
  {
    if n == 0 then []
    else
      Unrecorded(missing, w, n - 1) +
      if w.created(n - 1).Some? && !w.recorded(n - 1) then [missing[n-1]] else []
  }

  /** One sync: the blockers left, and the blockers created. */
  function Kept(blockers: map<string, int>, feed: seq<Event>, w: World): map<string, int> {
    blockers - Removed(blockers, feed, w)
  }

  function MissingIn(blockers: map<string, int>, feed: seq<Event>, w: World): seq<string> {
    Missing(Kept(blockers, feed, w), feed, w)
  }

  function Synced(blockers: map<string, int>, feed: seq<Event>, w: World): map<string, int> {
    var kept, missing := Kept(blockers, feed, w), MissingIn(blockers, feed, w);
    if w.deleteCut then kept else Recorded(kept, missing, w, |missing|)
  }

  function Creates(blockers: map<string, int>, feed: seq<Event>, w: World): seq<string> {
    var missing := MissingIn(blockers, feed, w);
    if w.deleteCut then [] else Made(missing, w, |missing|)
  }

  function Strays(blockers: map<string, int>, feed: seq<Event>, w: World): seq<string> {
    var missing := MissingIn(blockers, feed, w);
    if w.deleteCut then [] else Unrecorded(missing, w, |missing|)
  }

  class BlockerTable {
    var blockers: map<string, int>

    constructor ()
      ensures blockers == map[]
    {
      blockers := map[];
    }

    /** syncOne. */
    method SyncOne(feed: seq<Event>, w: World)
      returns (completed: bool, ghost removed: set<string>, ghost made: seq<string>)
      modifies this
      ensures completed == (!w.deleteCut && !w.createCut)
      ensures blockers == Synced(old(blockers), feed, w)
      ensures removed == Removed(old(blockers), feed, w) && made == Creates(old(blockers), feed, w)
    {
      var incoming := FeedIds(feed);
      removed := Removed(blockers, feed, w);
      RemoveStale(feed, w, blockers.Keys - incoming);
      if w.deleteCut {
        return false, removed, [];
      }
      var missing := FindMissing(feed, w);
      made := CreateMissing(missing, w);
      completed := !w.createCut;
    }

    /** The deletes of the blockers whose event left the feed. */
    method RemoveStale(feed: seq<Event>, w: World, ids: set<string>)
      requires ids == Stale(blockers, feed)
      modifies this
      ensures blockers == Kept(old(blockers), feed, w)
    {
      var stale := ids;
      ghost var removed := Removed(blockers, feed, w);
      while stale != {}
        invariant stale <= ids
        invariant blockers == old(blockers) - (removed - stale)
      {
        var id :| id in stale;
        if w.deleted(id) {
          blockers := blockers - {id};
        }
        stale := stale - {id};
      }
    }

    /** The wanted events without a blocker that can be found. */
    method FindMissing(feed: seq<Event>, w: World) returns (missing: seq<string>)
      ensures missing == Missing(blockers, feed, w)
    {
      missing := [];
      for i := 0 to |feed|
        invariant missing == Missing(blockers, feed[..i], w)
      {
        assert feed[..i+1][..i] == feed[..i];
        if !feed[i].wanted {
          continue;
        }
        if feed[i].id in blockers && w.readable(i) {
          continue;
        }
        missing := missing + [feed[i].id];
      }
      assert feed[..|feed|] == feed;
    }

    /** Their creates, each recorded when its answer arrives and can be. */
    method CreateMissing(missing: seq<string>, w: World) returns (ghost made: seq<string>)
      modifies this
      ensures blockers == Recorded(old(blockers), missing, w, |missing|) && made == Made(missing, w, |missing|)
    {
      made := [];
      for i := 0 to |missing|
        invariant blockers == Recorded(old(blockers), missing, w, i)
        invariant made == Made(missing, w, i)
      {
        if w.created(i).Some? {
          made := made + [missing[i]];
          if w.recorded(i) {
            blockers := blockers[missing[i] := w.created(i).value];
          }
        }
      }
    }
  }

  method FeedIds(feed: seq<Event>) returns (incoming: set<string>)
    ensures incoming == Ids(feed)
  {
    incoming := {};
    for i := 0 to |feed|
      invariant incoming == Ids(feed[..i])
    {
      assert feed[..i+1] == feed[..i] + [feed[i]];
      incoming := incoming + {feed[i].id};
    }
    assert feed[..|feed|] == feed;
  }

  // ---- properties ----

  /** How often an id appears. */
  function Count(s: seq<string>, id: string): nat {
    if s == [] then 0 else Count(s[..|s|-1], id) + if s[|s|-1] == id then 1 else 0
  }

  lemma CountAppend(s: seq<string>, x: string, id: string)
    ensures Count(s + [x], id) == Count(s, id) + if x == id then 1 else 0
  {
    assert (s + [x])[..|s|] == s;
  }

  lemma {:induction false} CountConcat(s: seq<string>, t: seq<string>, id: string)
    ensures Count(s + t, id) == Count(s, id) + Count(t, id)
  {
    if t == [] {
      assert s + t == s;
    } else {
      CountConcat(s, t[..|t|-1], id);
      assert s + t == (s + t[..|t|-1]) + [t[|t|-1]];
      CountAppend(s + t[..|t|-1], t[|t|-1], id);
    }
  }

  /** How many wanted events of the feed carry the id. */
  ghost function Wanted(feed: seq<Event>, id: string): nat {
    if feed == [] then 0
    else Wanted(feed[..|feed|-1], id) + if feed[|feed|-1].id == id && feed[|feed|-1].wanted then 1 else 0
  }

  /** And for how many of them the lookup fails. */
  ghost function Overlooked(feed: seq<Event>, w: World, id: string): nat {
    if feed == [] then 0
    else
      Overlooked(feed[..|feed|-1], w, id) +
      if feed[|feed|-1].id == id && feed[|feed|-1].wanted && !w.readable(|feed| - 1) then 1 else 0
  }

  lemma {:induction false} MissingCounts(blockers: map<string, int>, feed: seq<Event>, w: World, id: string)
    ensures Count(Missing(blockers, feed, w), id) ==
      if id in blockers then Overlooked(feed, w, id) else Wanted(feed, id)
    ensures Overlooked(feed, w, id) <= Wanted(feed, id) && (Readable(w) ==> Overlooked(feed, w, id) == 0)
  {
    if feed != [] {
      var e, before := feed[|feed|-1], Missing(blockers, feed[..|feed|-1], w);
      MissingCounts(blockers, feed[..|feed|-1], w, id);
      CountAppend(before, e.id, id);
      assert before + [] == before;
    }
  }

  lemma CountPrefix(s: seq<string>, n: nat, id: string)
    requires n < |s|
    ensures Count(s[..n+1], id) == Count(s[..n], id) + if s[n] == id then 1 else 0
  {
    assert s[..n+1] == s[..n] + [s[n]];
    CountAppend(s[..n], s[n], id);
  }

  /** How many of the first n creates are of the id and answered. */
  ghost function MadeOf(missing: seq<string>, w: World, n: nat, id: string): nat
    requires n <= |missing|
  {
    if n == 0 then 0
    else MadeOf(missing, w, n - 1, id) + if missing[n-1] == id && w.created(n - 1).Some? then 1 else 0
  }

  /** And how many of those are not recorded. */
  ghost function StraysOf(missing: seq<string>, w: World, n: nat, id: string): nat
    requires n <= |missing|
  {
    if n == 0 then 0
    else
      StraysOf(missing, w, n - 1, id) +
      if missing[n-1] == id && w.created(n - 1).Some? && !w.recorded(n - 1) then 1 else 0
  }

  lemma {:induction false} MadeCounts(missing: seq<string>, w: World, n: nat, id: string)
    requires n <= |missing|
    ensures Count(Made(missing, w, n), id) == MadeOf(missing, w, n, id)
  {
    if n > 0 {
      MadeCounts(missing, w, n - 1, id);
      CountAppend(Made(missing, w, n - 1), missing[n-1], id);
      assert Made(missing, w, n - 1) + [] == Made(missing, w, n - 1);
    }
  }

  lemma {:induction false} StraysCount(missing: seq<string>, w: World, n: nat, id: string)
    requires n <= |missing|
    ensures Count(Unrecorded(missing, w, n), id) == StraysOf(missing, w, n, id)
    ensures Recording(w) ==> StraysOf(missing, w, n, id) == 0
  {
    if n > 0 {
      StraysCount(missing, w, n - 1, id);
      CountAppend(Unrecorded(missing, w, n - 1), missing[n-1], id);
      assert Unrecorded(missing, w, n - 1) + [] == Unrecorded(missing, w, n - 1);
    }
  }

  lemma {:induction false} MadeAtMost(missing: seq<string>, w: World, n: nat, id: string)
    requires n <= |missing|
    ensures MadeOf(missing, w, n, id) <= Count(missing[..n], id)
    ensures (forall i: nat :: w.created(i).Some?) ==> MadeOf(missing, w, n, id) == Count(missing[..n], id)
  {
    if n > 0 {
      MadeAtMost(missing, w, n - 1, id);
      CountPrefix(missing, n - 1, id);
    }
  }

  /** Some create of the id among the first n is answered. */
  ghost predicate MadeWithin(missing: seq<string>, w: World, n: nat, id: string)
    requires n <= |missing|
  {
    exists i: nat :: i < n && missing[i] == id && w.created(i).Some?
  }

  /** Some create of the id is answered and recorded. */
  ghost predicate LandsWithin(missing: seq<string>, w: World, n: nat, id: string)
    requires n <= |missing|
  {
    exists i: nat :: i < n && missing[i] == id && Lands(w, i)
  }

  ghost predicate LandsAmong(missing: seq<string>, w: World, id: string) {
    LandsWithin(missing, w, |missing|, id)
  }

  lemma LandsNext(missing: seq<string>, w: World, n: nat, id: string)
    requires n < |missing|
    ensures LandsWithin(missing, w, n + 1, id) <==> LandsWithin(missing, w, n, id) || (missing[n] == id && Lands(w, n))
    ensures MadeWithin(missing, w, n + 1, id) <==>
      MadeWithin(missing, w, n, id) || (missing[n] == id && w.created(n).Some?)
  {
  }

  lemma {:induction false} LandedExactly(missing: seq<string>, w: World, n: nat, id: string)
    requires n <= |missing|
    ensures MadeOf(missing, w, n, id) >= StraysOf(missing, w, n, id)
    ensures MadeOf(missing, w, n, id) > StraysOf(missing, w, n, id) <==> LandsWithin(missing, w, n, id)
    ensures MadeOf(missing, w, n, id) > 0 <==> MadeWithin(missing, w, n, id)
  {
    if n > 0 {
      LandedExactly(missing, w, n - 1, id);
      LandsNext(missing, w, n - 1, id);
    }
  }

  lemma {:induction false} RecordedWhenLanded(blockers: map<string, int>, missing: seq<string>, w: World, n: nat,
                                              id: string)
    requires n <= |missing|
    ensures id in Recorded(blockers, missing, w, n) <==> id in blockers || LandsWithin(missing, w, n, id)
  {
    if n > 0 {
      RecordedWhenLanded(blockers, missing, w, n - 1, id);
      LandsNext(missing, w, n - 1, id);
    }
  }

  lemma CleanRecords(w: World)
    requires Clean(w)
    ensures Recording(w) && forall i: nat :: w.created(i).Some?
  {
    forall i: nat ensures w.created(i).Some? && w.recorded(i) {
      assert Lands(w, i);
    }
  }

  lemma CreatesCount(blockers: map<string, int>, feed: seq<Event>, w: World, id: string)
    ensures var missing := MissingIn(blockers, feed, w);
      && Count(Creates(blockers, feed, w), id) == (if w.deleteCut then 0 else MadeOf(missing, w, |missing|, id))
      && Count(Strays(blockers, feed, w), id) == (if w.deleteCut then 0 else StraysOf(missing, w, |missing|, id))
    ensures Recording(w) ==> Count(Strays(blockers, feed, w), id) == 0
  {
    var missing := MissingIn(blockers, feed, w);
    MadeCounts(missing, w, |missing|, id);
    StraysCount(missing, w, |missing|, id);
  }

  /** One sync of an event in the feed: its blocker is never removed; at most one
      is created for each wanted appearance not found, exactly that often when
      all is answered; and it is recorded exactly when it was, or one was created
      and recorded. */
  lemma OneSync(blockers: map<string, int>, feed: seq<Event>, w: World, id: string)
    requires id in Ids(feed)
    ensures Count(Strays(blockers, feed, w), id) <= Count(Creates(blockers, feed, w), id)
    ensures Count(Creates(blockers, feed, w), id) <=
      if id in blockers then Overlooked(feed, w, id) else Wanted(feed, id)
    ensures Overlooked(feed, w, id) <= Wanted(feed, id) && (Readable(w) ==> Overlooked(feed, w, id) == 0)
    ensures Recording(w) ==> Count(Strays(blockers, feed, w), id) == 0
    ensures id in Synced(blockers, feed, w)
       <==> id in blockers || Count(Creates(blockers, feed, w), id) > Count(Strays(blockers, feed, w), id)
    ensures Clean(w) ==> Count(Strays(blockers, feed, w), id) == 0
    ensures Clean(w) && id !in blockers ==> Count(Creates(blockers, feed, w), id) == Wanted(feed, id)
  {
    var missing := MissingIn(blockers, feed, w);
    MissingCounts(Kept(blockers, feed, w), feed, w, id);
    CreatesCount(blockers, feed, w, id);
    MadeAtMost(missing, w, |missing|, id);
    LandedExactly(missing, w, |missing|, id);
    SyncedHolds(blockers, feed, w, id);
    assert missing[..|missing|] == missing;
    if Clean(w) {
      CleanRecords(w);
    }
  }

  /** A recorded blocker is created again exactly when a lookup of it fails and a
      create is answered, in a sync not cut before. */
  lemma CreatedAgainExactly(blockers: map<string, int>, feed: seq<Event>, w: World, id: string)
    requires id in Ids(feed) && id in blockers
    ensures var missing := MissingIn(blockers, feed, w);
      && (Count(Creates(blockers, feed, w), id) > 0 <==> !w.deleteCut && MadeWithin(missing, w, |missing|, id))
      && (id in missing <==> Overlooked(feed, w, id) > 0)
  {
    var missing := MissingIn(blockers, feed, w);
    CreatesCount(blockers, feed, w, id);
    LandedExactly(missing, w, |missing|, id);
    MissingCounts(Kept(blockers, feed, w), feed, w, id);
    InWhenCounted(missing, id);
  }

  lemma {:induction false} InWhenCounted(s: seq<string>, id: string)
    ensures id in s <==> Count(s, id) > 0
  {
    if s != [] {
      assert s == s[..|s|-1] + [s[|s|-1]];
      InWhenCounted(s[..|s|-1], id);
    }
  }

  /** The failing input: one event, recorded, whose lookup fails once. A second
      work event is made, and its id replaces the first one's. */
  lemma FailedLookupCreatesAgain(id: string, first: int, second: int, w: World)
    requires !w.deleteCut && !w.readable(0) && w.created(0) == Some(second) && w.recorded(0)
    ensures Creates(map[id := first], [Event(id, true)], w) == [id]
    ensures Synced(map[id := first], [Event(id, true)], w) == map[id := second]
  {
    var blockers, feed := map[id := first], [Event(id, true)];
    assert feed[0] in feed && feed[..0] == [];
    assert Removed(blockers, feed, w) == {} && Kept(blockers, feed, w) == blockers;
    assert Missing(blockers, [], w) == [];
    assert MissingIn(blockers, feed, w) == [id];
    assert Made([id], w, 0) == [] && Recorded(blockers, [id], w, 0) == blockers;
  }

  lemma SyncedHolds(blockers: map<string, int>, feed: seq<Event>, w: World, id: string)
    ensures id in Synced(blockers, feed, w) <==>
      id in Kept(blockers, feed, w) || (!w.deleteCut && LandsAmong(MissingIn(blockers, feed, w), w, id))
  {
    var missing := MissingIn(blockers, feed, w);
    RecordedWhenLanded(Kept(blockers, feed, w), missing, w, |missing|, id);
  }

  /** Every wanted event has a recorded blocker. */
  ghost predicate Covers(blockers: map<string, int>, feed: seq<Event>) {
    forall e | e in feed && e.wanted :: e.id in blockers
  }

  /** Every wanted event without one had one created and recorded. */
  ghost predicate AllLanded(blockers: map<string, int>, feed: seq<Event>, w: World) {
    forall e | e in feed && e.wanted && e.id !in blockers ::
      !w.deleteCut && LandsAmong(MissingIn(blockers, feed, w), w, e.id)
  }

  /** Nothing is left to do: every stale blocker was removed, and every missing
      one was created and recorded. */
  ghost predicate Finished(blockers: map<string, int>, feed: seq<Event>, w: World) {
    (forall id | id in Stale(blockers, feed) :: w.deleted(id)) && AllLanded(blockers, feed, w)
  }

  lemma {:induction false} MissingHolds(blockers: map<string, int>, feed: seq<Event>, w: World, id: string)
    ensures id in Missing(blockers, feed, w) ==> exists e | e in feed :: e.id == id && e.wanted
    ensures id !in blockers && (exists e | e in feed :: e.id == id && e.wanted) ==> id in Missing(blockers, feed, w)
  {
    if feed != [] {
      assert feed == feed[..|feed|-1] + [feed[|feed|-1]];
      MissingHolds(blockers, feed[..|feed|-1], w, id);
    }
  }

  lemma CleanFinishes(blockers: map<string, int>, feed: seq<Event>, w: World)
    requires Clean(w)
    ensures Finished(blockers, feed, w)
  {
    var missing := MissingIn(blockers, feed, w);
    forall e | e in feed && e.wanted && e.id !in blockers ensures LandsAmong(missing, w, e.id) {
      MissingHolds(Kept(blockers, feed, w), feed, w, e.id);
      var i :| 0 <= i < |missing| && missing[i] == e.id;
      assert Lands(w, i);
    }
  }

  /** No stale blocker is left exactly when every one was removed. */
  lemma NothingStale(blockers: map<string, int>, feed: seq<Event>, w: World)
    ensures Stale(Synced(blockers, feed, w), feed) == {} <==> forall id | id in Stale(blockers, feed) :: w.deleted(id)
  {
    forall id ensures id in Stale(Synced(blockers, feed, w), feed) <==> id in Stale(blockers, feed) && !w.deleted(id) {
      SyncedHolds(blockers, feed, w, id);
      MissingHolds(Kept(blockers, feed, w), feed, w, id);
    }
  }

  /** Every wanted event is covered exactly when all that were not landed. */
  lemma CoveredAfter(blockers: map<string, int>, feed: seq<Event>, w: World)
    ensures Covers(Synced(blockers, feed, w), feed) <==> AllLanded(blockers, feed, w)
  {
    forall e | e in feed && e.wanted
      ensures e.id in Synced(blockers, feed, w) <==>
        e.id in blockers || (!w.deleteCut && LandsAmong(MissingIn(blockers, feed, w), w, e.id))
    {
      SyncedHolds(blockers, feed, w, e.id);
      assert e.id in Ids(feed);
    }
  }

  /** The lookup of every wanted event succeeds. */
  ghost predicate AllFound(feed: seq<Event>, w: World) {
    forall i: nat | i < |feed| && feed[i].wanted :: w.readable(i)
  }

  lemma {:induction false} NothingMissing(blockers: map<string, int>, feed: seq<Event>, w: World)
    ensures Missing(blockers, feed, w) == [] <==> Covers(blockers, feed) && AllFound(feed, w)
  {
    if feed != [] {
      var init := feed[..|feed|-1];
      NothingMissing(blockers, init, w);
      CoversLast(blockers, feed, w);
    }
  }

  lemma CoversLast(blockers: map<string, int>, feed: seq<Event>, w: World)
    requires feed != []
    ensures var init, e := feed[..|feed|-1], feed[|feed|-1];
      && (Covers(blockers, feed) <==> Covers(blockers, init) && (e.wanted ==> e.id in blockers))
      && (AllFound(feed, w) <==> AllFound(init, w) && (e.wanted ==> w.readable(|init|)))
  {
    var init, e := feed[..|feed|-1], feed[|feed|-1];
    assert feed == init + [e];
    assert forall i: nat | i < |init| :: init[i] == feed[i];
    assert forall x :: x in feed <==> x in init || x == e;
  }

  /** After one sync of a feed, the next finds nothing stale and nothing missing
      exactly when the first finished and no lookup of the next fails; then the
      next changes nothing, whatever else happens to it. A clean sync finishes. */
  lemma Idempotent(blockers: map<string, int>, feed: seq<Event>, w: World, again: World)
    ensures var after := Synced(blockers, feed, w);
      && (Stale(after, feed) == {} && Missing(after, feed, again) == []) ==
           (Finished(blockers, feed, w) && AllFound(feed, again))
      && (Finished(blockers, feed, w) && AllFound(feed, again) ==>
            Synced(after, feed, again) == after && Creates(after, feed, again) == [])
    ensures Clean(w) ==> Finished(blockers, feed, w)
  {
    var after := Synced(blockers, feed, w);
    NothingStale(blockers, feed, w);
    CoveredAfter(blockers, feed, w);
    NothingMissing(after, feed, again);
    if Finished(blockers, feed, w) && AllFound(feed, again) {
      Settled(after, feed, again);
    }
    if Clean(w) {
      CleanFinishes(blockers, feed, w);
    }
  }

  lemma Settled(blockers: map<string, int>, feed: seq<Event>, w: World)
    requires Stale(blockers, feed) == {} && Missing(blockers, feed, w) == []
    ensures Synced(blockers, feed, w) == blockers && Creates(blockers, feed, w) == []
  {
    assert Removed(blockers, feed, w) == {};
    assert Kept(blockers, feed, w) == blockers;
  }

  // ---- one sync in the feed's own terms ----

  /** What is recorded of an id: the old blocker, or the answer of the last create
      of it that was recorded. */
  lemma {:induction false} RecordedIs(blockers: map<string, int>, missing: seq<string>, w: World, n: nat, id: string)
    requires n <= |missing| && id in Recorded(blockers, missing, w, n)
    ensures var value := Recorded(blockers, missing, w, n)[id];
      || (id in blockers && value == blockers[id] && !LandsWithin(missing, w, n, id))
      || exists i: nat :: i < n && missing[i] == id && Lands(w, i) && w.created(i).value == value
  {
    if n > 0 {
      var m: nat := n - 1;
      LandsNext(missing, w, m, id);
      if missing[m] == id && Lands(w, m) {
        assert Lands(w, m) && w.created(m).value == Recorded(blockers, missing, w, n)[id];
      } else {
        RecordedIs(blockers, missing, w, m, id);
      }
    }
  }

  /** A blocker whose event left the feed goes exactly when its delete is
      answered, and is otherwise left as it was. */
  lemma StaleGoesExactly(blockers: map<string, int>, feed: seq<Event>, w: World, id: string)
    requires id in blockers && forall e | e in feed :: e.id != id
    ensures id in Synced(blockers, feed, w) <==> !w.deleted(id)
    ensures id in Synced(blockers, feed, w) ==> Synced(blockers, feed, w)[id] == blockers[id]
  {
    var missing := MissingIn(blockers, feed, w);
    MissingHolds(Kept(blockers, feed, w), feed, w, id);
    SyncedHolds(blockers, feed, w, id);
    if id in Synced(blockers, feed, w) && !w.deleteCut {
      RecordedIs(Kept(blockers, feed, w), missing, w, |missing|, id);
    }
  }

  /** A sync in which everything is answered and recorded leaves exactly the
      feed's events that had a blocker or want one: the old ones with their
      blocker, the new ones with a created one. */
  lemma CleanSyncExactly(blockers: map<string, int>, feed: seq<Event>, w: World, id: string)
    requires !w.deleteCut && !w.createCut && (forall x :: w.deleted(x)) && (forall i: nat :: w.readable(i))
    requires forall i: nat :: w.created(i).Some? && w.recorded(i)
    ensures id in Synced(blockers, feed, w) <==>
      exists e | e in feed :: e.id == id && (id in blockers || e.wanted)
    ensures id in Synced(blockers, feed, w) && id in blockers ==> Synced(blockers, feed, w)[id] == blockers[id]
    ensures id in Synced(blockers, feed, w) && id !in blockers ==>
      exists i: nat :: w.created(i) == Some(Synced(blockers, feed, w)[id])
  {
    var kept, missing := Kept(blockers, feed, w), MissingIn(blockers, feed, w);
    assert Clean(w);
    SyncedHolds(blockers, feed, w, id);
    MissingHolds(kept, feed, w, id);
    CleanFinishes(blockers, feed, w);
    if id in Synced(blockers, feed, w) {
      RecordedIs(kept, missing, w, |missing|, id);
    }
    if id in kept {
      MissingCounts(kept, feed, w, id);
      InWhenCounted(missing, id);
    }
  }

  lemma {:induction false} WantedIsThere(feed: seq<Event>, id: string)
    ensures Wanted(feed, id) > 0 ==> id in Ids(feed)
  {
    if feed != [] {
      WantedIsThere(feed[..|feed|-1], id);
      assert feed == feed[..|feed|-1] + [feed[|feed|-1]];
    }
  }

  /** A series of syncs of one feed, each possibly stopped anywhere. */
  ghost function After(blockers: map<string, int>, feed: seq<Event>, worlds: seq<World>): map<string, int>
    decreases |worlds|
  {
    if worlds == [] then blockers else After(Synced(blockers, feed, worlds[0]), feed, worlds[1..])
  }

  ghost function AllCreates(blockers: map<string, int>, feed: seq<Event>, worlds: seq<World>): seq<string>
    decreases |worlds|
  {
    if worlds == [] then []
    else Creates(blockers, feed, worlds[0]) + AllCreates(Synced(blockers, feed, worlds[0]), feed, worlds[1..])
  }

  ghost function AllStrays(blockers: map<string, int>, feed: seq<Event>, worlds: seq<World>): seq<string>
    decreases |worlds|
  {
    if worlds == [] then []
    else Strays(blockers, feed, worlds[0]) + AllStrays(Synced(blockers, feed, worlds[0]), feed, worlds[1..])
  }

  /** A recorded blocker is created and recorded once more over the first. */
  ghost predicate Overwritten(blockers: map<string, int>, feed: seq<Event>, w: World, id: string) {
    id in blockers && !w.deleteCut && LandsAmong(MissingIn(blockers, feed, w), w, id)
  }

  /** In how many syncs of the series. */
  ghost function Overwrites(blockers: map<string, int>, feed: seq<Event>, worlds: seq<World>, id: string): nat
    decreases |worlds|
  {
    if worlds == [] then 0
    else
      (if Overwritten(blockers, feed, worlds[0], id) then 1 else 0) +
      Overwrites(Synced(blockers, feed, worlds[0]), feed, worlds[1..], id)
  }

  /** One sync of an event that appears once: each create is recorded for the
      first time, recorded over another, or not recorded. */
  lemma OneCreate(blockers: map<string, int>, feed: seq<Event>, w: World, id: string)
    requires Wanted(feed, id) == 1
    ensures Count(Creates(blockers, feed, w), id) == Count(Strays(blockers, feed, w), id)
      + (if Overwritten(blockers, feed, w, id) then 1 else 0)
      + if id in Synced(blockers, feed, w) && id !in blockers then 1 else 0
    ensures id in blockers ==> id in Synced(blockers, feed, w)
    ensures Overwritten(blockers, feed, w, id) ==> Overlooked(feed, w, id) == 1
    ensures Readable(w) ==> !Overwritten(blockers, feed, w, id)
  {
    var missing := MissingIn(blockers, feed, w);
    WantedIsThere(feed, id);
    OneSync(blockers, feed, w, id);
    CreatesCount(blockers, feed, w, id);
    LandedExactly(missing, w, |missing|, id);
  }

  lemma AllCounts(blockers: map<string, int>, feed: seq<Event>, worlds: seq<World>, id: string)
    requires worlds != []
    ensures var w, next := worlds[0], Synced(blockers, feed, worlds[0]);
      && Count(AllCreates(blockers, feed, worlds), id) ==
           Count(Creates(blockers, feed, w), id) + Count(AllCreates(next, feed, worlds[1..]), id)
      && Count(AllStrays(blockers, feed, worlds), id) ==
           Count(Strays(blockers, feed, w), id) + Count(AllStrays(next, feed, worlds[1..]), id)
  {
    var w, next := worlds[0], Synced(blockers, feed, worlds[0]);
    CountConcat(Creates(blockers, feed, w), AllCreates(next, feed, worlds[1..]), id);
    CountConcat(Strays(blockers, feed, w), AllStrays(next, feed, worlds[1..]), id);
  }

  /** Stopped at any point, any number of times, an event that appears once in
      the feed is created once, once more for each create that was answered but
      not recorded, and once more for each sync in which the lookup of its
      recorded blocker failed and the create went through. A sync run to the end
      leaves it recorded. */
  lemma {:induction false} ExactlyOnce(blockers: map<string, int>, feed: seq<Event>, worlds: seq<World>, id: string)
    requires Wanted(feed, id) == 1
    ensures Count(AllCreates(blockers, feed, worlds), id) ==
      Count(AllStrays(blockers, feed, worlds), id) + Overwrites(blockers, feed, worlds, id)
      + if id in After(blockers, feed, worlds) && id !in blockers then 1 else 0
    ensures id in blockers ==> id in After(blockers, feed, worlds)
    ensures worlds != [] && Clean(worlds[|worlds|-1]) ==> id in After(blockers, feed, worlds)
    decreases |worlds|
  {
    if worlds != [] {
      var w, rest := worlds[0], worlds[1..];
      WantedIsThere(feed, id);
      var next := Synced(blockers, feed, w);
      OneCreate(blockers, feed, w, id);
      OneSync(blockers, feed, w, id);
      ExactlyOnce(next, feed, rest, id);
      AllCounts(blockers, feed, worlds, id);
    }
  }

  /** With every answered create recorded there are no strays, and with every
      lookup answered nothing recorded is overwritten: then a missing blocker is
      created exactly once and a recorded one never again. */
  lemma {:induction false} OnceWhenAnswered(blockers: map<string, int>, feed: seq<Event>, worlds: seq<World>,
                                            id: string)
    requires Wanted(feed, id) == 1
    ensures (forall w | w in worlds :: Recording(w)) ==> Count(AllStrays(blockers, feed, worlds), id) == 0
    ensures (forall w | w in worlds :: Readable(w)) ==> Overwrites(blockers, feed, worlds, id) == 0
    ensures (forall w | w in worlds :: Readable(w)) && id in blockers ==>
      Count(AllCreates(blockers, feed, worlds), id) == 0
    decreases |worlds|
  {
    if worlds != [] {
      var w, rest := worlds[0], worlds[1..];
      assert w in worlds && forall x | x in rest :: x in worlds;
      WantedIsThere(feed, id);
      var next := Synced(blockers, feed, w);
      OneCreate(blockers, feed, w, id);
      OneSync(blockers, feed, w, id);
      OnceWhenAnswered(next, feed, rest, id);
      AllCounts(blockers, feed, worlds, id);
    }
  }

  /** An id that appears twice is created twice by one clean sync: the missing
      list is settled before anything is created. */
  lemma RepeatedIdCreatesTwice(w: World, id: string)
    requires Clean(w)
    ensures Count(Creates(map[], [Event(id, true), Event(id, true)], w), id) == 2
  {
    var feed := [Event(id, true), Event(id, true)];
    assert feed[..1] == [Event(id, true)] && feed[..1][..0] == [];
    assert feed[1] in feed;
    assert Wanted(feed[..1], id) == 1 && Wanted(feed, id) == 2;
    OneSync(map[], feed, w, id);
  }
}
