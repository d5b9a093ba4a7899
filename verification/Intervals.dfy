/** Interval algebra of backend/engine/focus_time.go: sorting, merging,
    subtracting, and the overlap test every placer uses. Instants are integers,
    an interval holds the instants from its start up to but not its end. */
module Intervals {
  import opened Sorting

  datatype Interval = Interval(start: int, end: int)

  function Start(iv: Interval): int { iv.start }

  function Length(iv: Interval): int { iv.end - iv.start }

  /** Whole minutes, dropping the rest towards zero. */
  function Minutes(seconds: int): int {
    if seconds >= 0 then seconds / 60 else -(-seconds / 60)
  }

  predicate Overlap(a: Interval, b: Interval) {
    a.start < b.end && a.end > b.start
  }

  /** Whole minutes are what fits, on either side of zero. */
  lemma MinutesExactly(seconds: int)
    ensures seconds >= 0 ==> 0 <= seconds - Minutes(seconds) * 60 < 60
    ensures seconds <= 0 ==> 0 <= Minutes(seconds) * 60 - seconds < 60
  {
  }

  predicate OverlapsAny(iv: Interval, busy: seq<Interval>) {
    exists b | b in busy :: Overlap(iv, b)
  }

  predicate Inside(iv: Interval, whole: Interval) {
    whole.start <= iv.start && iv.end <= whole.end
  }

  ghost predicate FitsIn(iv: Interval, free: seq<Interval>) {
    exists f | f in free :: Inside(iv, f)
  }

  ghost predicate Covered(s: seq<Interval>, p: int) {
    exists b | b in s :: b.start <= p < b.end
  }

  /** Non-empty intervals overlap exactly when they share an instant. */
  lemma OverlapExactly(a: Interval, b: Interval)
    requires a.start < a.end && b.start < b.end
    ensures Overlap(a, b) <==> exists p :: Covered([a], p) && Covered([b], p)
  {
    var p := if a.start < b.start then b.start else a.start;
    assert a in [a] && b in [b];
    assert Overlap(a, b) ==> Covered([a], p) && Covered([b], p);
  }

  ghost predicate WellFormed(s: seq<Interval>) {
    forall b | b in s :: b.start <= b.end
  }

  // ---- the overlap scan ----

  /** overlapsMerged and overlapsWith: a scan with an early answer. */
  method OverlapScan(iv: Interval, others: seq<Interval>) returns (hit: bool)
    ensures hit <==> OverlapsAny(iv, others)
  {
    for i := 0 to |others|
      invariant forall k | 0 <= k < i :: !Overlap(iv, others[k])
    {
      if iv.start < others[i].end && iv.end > others[i].start {
        assert others[i] in others;
        return true;
      }
    }
    return false;
  }

  lemma OverlapsLast(iv: Interval, s: seq<Interval>)
    requires s != []
    ensures OverlapsAny(iv, s) <==> OverlapsAny(iv, s[..|s|-1]) || Overlap(iv, s[|s|-1])
  {
    assert s == s[..|s|-1] + [s[|s|-1]];
    OverlapsConcat(iv, s[..|s|-1], [s[|s|-1]]);
    assert s[|s|-1] in [s[|s|-1]];
  }

  lemma OverlapsConcat(iv: Interval, a: seq<Interval>, b: seq<Interval>)
    ensures OverlapsAny(iv, a + b) <==> OverlapsAny(iv, a) || OverlapsAny(iv, b)
  {
  }

  // ---- merging ----

  /** One turn of the merging loop: the last interval is widened in
      place when the next one starts no later than it ends. */
  function Absorb(merged: seq<Interval>, iv: Interval): seq<Interval> {
    if merged == [] then [iv]
    else
      var last := merged[|merged|-1];
      if iv.start > last.end then merged + [iv]
      else if iv.end > last.end then merged[|merged|-1 := Interval(last.start, iv.end)]
      else merged
  }

  function AbsorbAll(s: seq<Interval>): seq<Interval> {
    if s == [] then [] else Absorb(AbsorbAll(s[..|s|-1]), s[|s|-1])
  }

  function Merge(s: seq<Interval>): seq<Interval> {
    AbsorbAll(Sort(Start, s))
  }

  /** mergeIntervals: sorts its argument in place and returns the merged list. */
  method MergeIntervals(ivs: array<Interval>) returns (merged: seq<Interval>)
    modifies ivs
    ensures ivs[..] == Sort(Start, old(ivs[..]))
    ensures merged == Merge(old(ivs[..]))
  {
    ghost var was := ivs[..];
    if ivs.Length == 0 {
      return [];
    }
    InsertionSort(ivs, Start);
    ghost var sorted := ivs[..];
    merged := [ivs[0]];
    assert sorted[..1] == [ivs[0]] && sorted[..1][..0] == [];
    assert AbsorbAll(sorted[..1]) == merged;
    for i := 1 to ivs.Length
      invariant ivs[..] == sorted
      invariant |merged| > 0 && merged == AbsorbAll(sorted[..i])
    {
      var last := merged[|merged|-1];
      assert sorted[..i+1][..i] == sorted[..i] && sorted[..i+1][i] == ivs[i];
      if ivs[i].start <= last.end {
        if ivs[i].end > last.end {
          merged := merged[|merged|-1 := Interval(last.start, ivs[i].end)];
        }
      } else {
        merged := merged + [ivs[i]];
      }
    }
    assert sorted[..ivs.Length] == sorted;
  }

  /** The same, for a caller that keeps its list as a value. */
  method Merged(ivs: seq<Interval>) returns (merged: seq<Interval>)
    ensures merged == Merge(ivs)
  {
    var copy := new Interval[|ivs|](i requires 0 <= i < |ivs| => ivs[i]);
    assert copy[..] == ivs;
    merged := MergeIntervals(copy);
  }

  /** Starts ascend and a gap is left between neighbours. */
  ghost predicate Separated(s: seq<Interval>) {
    && SortedBy(Start, s)
    && forall i | 0 < i < |s| :: s[i-1].end < s[i].start
  }

  lemma AbsorbSeparates(merged: seq<Interval>, x: Interval)
    requires Separated(merged)
    requires merged != [] ==> merged[|merged|-1].start <= x.start
    ensures Separated(Absorb(merged, x))
  {
  }

  lemma {:induction false} AbsorbAllSeparates(s: seq<Interval>)
    requires SortedBy(Start, s)
    ensures Separated(AbsorbAll(s))
    ensures s != [] ==> AbsorbAll(s) != [] && AbsorbAll(s)[|AbsorbAll(s)|-1].start <= s[|s|-1].start
  {
    if s != [] {
      var init, x := s[..|s|-1], s[|s|-1];
      AbsorbAllSeparates(init);
      assert init != [] ==> Start(init[|init|-1]) <= Start(x);
      AbsorbSeparates(AbsorbAll(init), x);
    }
  }

  lemma {:induction false} AbsorbAllWellFormed(s: seq<Interval>)
    requires WellFormed(s)
    ensures WellFormed(AbsorbAll(s))
  {
    if s != [] {
      assert s[|s|-1] in s && forall b | b in s[..|s|-1] :: b in s;
      AbsorbAllWellFormed(s[..|s|-1]);
    }
  }

  /** For a non-empty interval, overlapping the widened interval is overlapping
      one of the two it replaces. */
  lemma AbsorbOverlaps(merged: seq<Interval>, x: Interval, iv: Interval)
    requires iv.start < iv.end
    requires merged != [] ==> merged[|merged|-1].start <= x.start
    ensures OverlapsAny(iv, Absorb(merged, x)) <==> OverlapsAny(iv, merged) || Overlap(iv, x)
  {
    if merged != [] {
      var front, last := merged[..|merged|-1], merged[|merged|-1];
      assert merged == front + [last] && last in merged;
      OverlapsConcat(iv, front, [last]);
      OverlapsConcat(iv, merged, [x]);
      if x.start <= last.end && x.end > last.end {
        OverlapsConcat(iv, front, [Interval(last.start, x.end)]);
        assert Absorb(merged, x) == front + [Interval(last.start, x.end)];
        assert Interval(last.start, x.end) in Absorb(merged, x);
      }
      assert x.start <= last.end && x.end <= last.end && Overlap(iv, x) ==> Overlap(iv, last);
    }
  }

  lemma {:induction false} AbsorbAllOverlaps(s: seq<Interval>, iv: Interval)
    requires SortedBy(Start, s) && iv.start < iv.end
    ensures OverlapsAny(iv, AbsorbAll(s)) <==> OverlapsAny(iv, s)
  {
    if s != [] {
      var init, x := s[..|s|-1], s[|s|-1];
      AbsorbAllOverlaps(init, iv);
      AbsorbAllSeparates(init);
      assert init != [] ==> Start(init[|init|-1]) <= Start(x);
      AbsorbOverlaps(AbsorbAll(init), x, iv);
      assert s == init + [x];
      OverlapsConcat(iv, init, [x]);
    }
  }

  /** Merging is invisible to every non-empty interval, whatever is merged. */
  lemma MergeKeepsOverlaps(s: seq<Interval>, iv: Interval)
    requires iv.start < iv.end
    ensures OverlapsAny(iv, Merge(s)) <==> OverlapsAny(iv, s)
  {
    SortIsStable(Start, s, 0);
    SortMembers(Start, s);
    AbsorbAllOverlaps(Sort(Start, s), iv);
  }

  /** Sorted, strictly apart, the same instants. */
  lemma MergeIsCanonical(s: seq<Interval>, p: int)
    ensures Separated(Merge(s))
    ensures WellFormed(s) ==> WellFormed(Merge(s))
    ensures Covered(Merge(s), p) <==> Covered(s, p)
  {
    SortIsStable(Start, s, 0);
    SortMembers(Start, s);
    var one := Interval(p, p + 1);
    AbsorbAllSeparates(Sort(Start, s));
    if WellFormed(s) {
      AbsorbAllWellFormed(Sort(Start, s));
    }
    AbsorbAllOverlaps(Sort(Start, s), one);
    assert forall b :: Overlap(one, b) <==> b.start <= p < b.end;
  }

  // ---- subtracting ----

  /** What one busy interval leaves of one free one. */
  function CutOne(f: Interval, b: Interval): seq<Interval> {
    if b.end < f.start || b.start > f.end then [f]
    else
      (if f.start < b.start then [Interval(f.start, b.start)] else []) +
      (if b.end < f.end then [Interval(b.end, f.end)] else [])
  }

  function CutAll(free: seq<Interval>, b: Interval): seq<Interval> {
    if free == [] then [] else CutAll(free[..|free|-1], b) + CutOne(free[|free|-1], b)
  }

  function Cuts(free: seq<Interval>, busy: seq<Interval>): seq<Interval> {
    if busy == [] then free else CutAll(Cuts(free, busy[..|busy|-1]), busy[|busy|-1])
  }

  function Subtract(whole: Interval, busy: seq<Interval>): seq<Interval> {
    Cuts([whole], busy)
  }

  /** subtractIntervals: the free list is rebuilt once per busy interval. */
  method SubtractIntervals(whole: Interval, busy: seq<Interval>) returns (free: seq<Interval>)
    ensures free == Subtract(whole, busy)
  {
    free := [whole];
    for i := 0 to |busy|
      invariant free == Cuts([whole], busy[..i])
    {
      assert busy[..i+1][..i] == busy[..i];
      free := CutFree(free, busy[i]);
    }
    assert busy[..|busy|] == busy;
  }

  method CutFree(free: seq<Interval>, b: Interval) returns (next: seq<Interval>)
    ensures next == CutAll(free, b)
  {
    next := [];
    for j := 0 to |free|
      invariant next == CutAll(free[..j], b)
    {
      var f := free[j];
      assert free[..j+1][..j] == free[..j];
      if b.end < f.start || b.start > f.end {
        next := next + [f];
        continue;
      }
      if f.start < b.start {
        next := next + [Interval(f.start, b.start)];
      }
      if b.end < f.end {
        next := next + [Interval(b.end, f.end)];
      }
    }
    assert free[..|free|] == free;
  }

  lemma FitsConcat(iv: Interval, a: seq<Interval>, b: seq<Interval>)
    ensures FitsIn(iv, a + b) <==> FitsIn(iv, a) || FitsIn(iv, b)
  {
  }

  lemma CutOneFits(f: Interval, b: Interval, iv: Interval)
    requires iv.start < iv.end
    ensures FitsIn(iv, CutOne(f, b)) <==> Inside(iv, f) && !Overlap(iv, b)
  {
    if Inside(iv, f) && !Overlap(iv, b) {
      assert iv.start >= b.end || iv.end <= b.start;
      if !(b.end < f.start || b.start > f.end) {
        assert iv.start >= b.end ==> Interval(b.end, f.end) in CutOne(f, b);
        assert iv.end <= b.start ==> Interval(f.start, b.start) in CutOne(f, b);
      } else {
        assert f in CutOne(f, b);
      }
    }
  }

  lemma {:induction false} CutAllFits(free: seq<Interval>, b: Interval, iv: Interval)
    requires iv.start < iv.end
    ensures FitsIn(iv, CutAll(free, b)) <==> FitsIn(iv, free) && !Overlap(iv, b)
  {
    if free != [] {
      var init, f := free[..|free|-1], free[|free|-1];
      CutAllFits(init, b, iv);
      CutOneFits(f, b, iv);
      FitsConcat(iv, CutAll(init, b), CutOne(f, b));
      assert free == init + [f];
      FitsConcat(iv, init, [f]);
    }
  }

  lemma {:induction false} CutsFit(free: seq<Interval>, busy: seq<Interval>, iv: Interval)
    requires iv.start < iv.end
    ensures FitsIn(iv, Cuts(free, busy)) <==> FitsIn(iv, free) && !OverlapsAny(iv, busy)
  {
    if busy != [] {
      var init, b := busy[..|busy|-1], busy[|busy|-1];
      CutsFit(free, init, iv);
      CutAllFits(Cuts(free, init), b, iv);
      OverlapsLast(iv, busy);
    }
  }

  /** The algebra's main law: with no assumption on the busy list, a non-empty
      interval fits in one free piece exactly when it lies in the whole and
      overlaps nothing busy; merging the busy list first changes nothing. */
  lemma FreeExactly(whole: Interval, busy: seq<Interval>, iv: Interval)
    requires iv.start < iv.end
    ensures FitsIn(iv, Subtract(whole, busy)) <==> Inside(iv, whole) && !OverlapsAny(iv, busy)
    ensures FitsIn(iv, Subtract(whole, Merge(busy))) <==> Inside(iv, whole) && !OverlapsAny(iv, busy)
  {
    CutsFit([whole], busy, iv);
    CutsFit([whole], Merge(busy), iv);
    MergeKeepsOverlaps(busy, iv);
  }

  /** The free pieces cover exactly the instants of the whole in no busy interval. */
  lemma FreeInstants(whole: Interval, busy: seq<Interval>, p: int)
    ensures Covered(Subtract(whole, busy), p) <==> whole.start <= p < whole.end && !Covered(busy, p)
  {
    var one := Interval(p, p + 1);
    FreeExactly(whole, busy, one);
    assert forall b :: Overlap(one, b) <==> b.start <= p < b.end;
    assert forall f :: Inside(one, f) <==> f.start <= p < f.end;
  }

  // ---- order and measure ----

  /** Non-empty pieces in order, none starting before the previous one ends. */
  ghost predicate Pieces(s: seq<Interval>) {
    && (forall f | f in s :: f.start < f.end)
    && forall i, j | 0 <= i < j < |s| :: s[i].end <= s[j].start
  }

  lemma PiecesConcat(a: seq<Interval>, b: seq<Interval>, at: int)
    requires Pieces(a) && Pieces(b)
    requires forall f | f in a :: f.end <= at
    requires forall f | f in b :: at <= f.start
    ensures Pieces(a + b)
  {
  }

  lemma CutOnePieces(f: Interval, b: Interval)
    requires f.start < f.end && b.start <= b.end
    ensures Pieces(CutOne(f, b)) && forall g | g in CutOne(f, b) :: Inside(g, f)
  {
  }

  lemma {:induction false} CutAllPieces(free: seq<Interval>, b: Interval)
    requires Pieces(free) && b.start <= b.end
    ensures Pieces(CutAll(free, b))
    ensures forall g | g in CutAll(free, b) :: exists f | f in free :: Inside(g, f)
  {
    if free != [] {
      var init, f := free[..|free|-1], free[|free|-1];
      assert free == init + [f];
      assert forall i | 0 <= i < |init| :: init[i] == free[i] && init[i].end <= f.start;
      CutAllPieces(init, b);
      CutOnePieces(f, b);
      forall g | g in CutAll(init, b) ensures g.end <= f.start {
        var e :| e in init && Inside(g, e);
      }
      PiecesConcat(CutAll(init, b), CutOne(f, b), f.start);
    }
  }

  /** Sorted, disjoint and non-empty, for intervals that do not end before they start. */
  lemma {:induction false} SubtractPieces(whole: Interval, busy: seq<Interval>)
    requires WellFormed(busy) && whole.start < whole.end
    ensures Pieces(Subtract(whole, busy))
    ensures forall f | f in Subtract(whole, busy) :: Inside(f, whole)
  {
    if busy != [] {
      var init, b := busy[..|busy|-1], busy[|busy|-1];
      assert forall x | x in init :: x in busy;
      SubtractPieces(whole, init);
      CutAllPieces(Subtract(whole, init), b);
    }
    forall f | f in Subtract(whole, busy) ensures Inside(f, whole) {
      assert Inside(f, f) && f.start < f.end;
      FreeExactly(whole, busy, f);
    }
  }

  /** Free from origin on up to end, and not from any earlier instant. */
  ghost predicate FreeFrom(whole: Interval, busy: seq<Interval>, origin: int, end: int) {
    && Inside(Interval(origin, end), whole) && !OverlapsAny(Interval(origin, end), busy)
    && (origin > whole.start ==> OverlapsAny(Interval(origin - 1, end), busy))
  }

  ghost predicate PieceFrom(free: seq<Interval>, origin: int, end: int) {
    exists f | f in free :: f.start == origin && end <= f.end
  }

  lemma PiecesMeetOnce(free: seq<Interval>, f: Interval, g: Interval, p: int)
    requires Pieces(free) && f in free && g in free && f.start <= p < f.end && g.start <= p < g.end
    ensures f == g
  {
    var i :| 0 <= i < |free| && free[i] == f;
    var j :| 0 <= j < |free| && free[j] == g;
  }

  /** A piece of free time starts where time is free from. */
  lemma PieceStartsExactly(whole: Interval, busy: seq<Interval>, origin: int, end: int)
    requires WellFormed(busy) && whole.start < whole.end && origin < end
    ensures PieceFrom(Subtract(whole, Merge(busy)), origin, end) <==> FreeFrom(whole, busy, origin, end)
  {
    var free := Subtract(whole, Merge(busy));
    MergeIsCanonical(busy, 0);
    SubtractPieces(whole, Merge(busy));
    FreeExactly(whole, busy, Interval(origin, end));
    FreeExactly(whole, busy, Interval(origin - 1, end));
    if f :| f in free && f.start == origin && end <= f.end {
      assert Inside(Interval(origin, end), f);
      if FitsIn(Interval(origin - 1, end), free) {
        var g :| g in free && Inside(Interval(origin - 1, end), g);
        PiecesMeetOnce(free, f, g, origin);
      }
    }
    if FreeFrom(whole, busy, origin, end) {
      var f :| f in free && Inside(Interval(origin, end), f);
      assert f.start < origin ==> Inside(Interval(origin - 1, end), f);
    }
  }

  function Total(s: seq<Interval>): int {
    if s == [] then 0 else Total(s[..|s|-1]) + (s[|s|-1].end - s[|s|-1].start)
  }

  /** How many instants from lo up to hi the list covers. */
  ghost function Measure(s: seq<Interval>, lo: int, hi: int): nat
    decreases hi - lo
  {
    if lo >= hi then 0 else Measure(s, lo, hi - 1) + if Covered(s, hi - 1) then 1 else 0
  }

  lemma {:induction false} MeasureSame(s: seq<Interval>, t: seq<Interval>, lo: int, hi: int)
    requires forall p | lo <= p < hi :: Covered(s, p) <==> Covered(t, p)
    ensures Measure(s, lo, hi) == Measure(t, lo, hi)
    decreases hi - lo
  {
    if lo < hi { MeasureSame(s, t, lo, hi - 1); }
  }

  lemma {:induction false} MeasureComplement(s: seq<Interval>, t: seq<Interval>, lo: int, hi: int)
    requires lo <= hi && forall p | lo <= p < hi :: Covered(s, p) <==> !Covered(t, p)
    ensures Measure(s, lo, hi) + Measure(t, lo, hi) == hi - lo
    decreases hi - lo
  {
    if lo < hi { MeasureComplement(s, t, lo, hi - 1); }
  }

  lemma {:induction false} MeasureSplit(s: seq<Interval>, lo: int, mid: int, hi: int)
    requires lo <= mid <= hi
    ensures Measure(s, lo, hi) == Measure(s, lo, mid) + Measure(s, mid, hi)
    decreases hi - mid
  {
    if mid < hi { MeasureSplit(s, lo, mid, hi - 1); }
  }

  lemma {:induction false} MeasureFull(s: seq<Interval>, lo: int, hi: int)
    requires lo <= hi && forall p | lo <= p < hi :: Covered(s, p)
    ensures Measure(s, lo, hi) == hi - lo
    decreases hi - lo
  {
    if lo < hi { MeasureFull(s, lo, hi - 1); }
  }

  lemma MeasureNone(s: seq<Interval>, lo: int, hi: int)
    requires lo <= hi && forall p | lo <= p < hi :: !Covered(s, p)
    ensures Measure(s, lo, hi) == 0
  {
    var all := [Interval(lo, hi)];
    assert forall p | lo <= p < hi :: all[0] in all && Covered(all, p);
    MeasureFull(all, lo, hi);
    MeasureComplement(s, all, lo, hi);
  }

  lemma MeasureLast(s: seq<Interval>, lo: int, hi: int)
    requires s != [] && forall g | g in s[..|s|-1] :: g.end <= s[|s|-1].start
    requires lo <= s[|s|-1].start <= s[|s|-1].end <= hi
    ensures Measure(s, lo, hi) == Measure(s[..|s|-1], lo, s[|s|-1].start) + (s[|s|-1].end - s[|s|-1].start)
  {
    var init, f := s[..|s|-1], s[|s|-1];
    assert s == init + [f];
    forall p ensures Covered(s, p) <==> Covered(init, p) || f.start <= p < f.end {
      assert f in s;
    }
    MeasureSame(init, s, lo, f.start);
    MeasureSplit(s, lo, f.start, f.end);
    MeasureSplit(s, lo, f.end, hi);
    MeasureFull(s, f.start, f.end);
    MeasureNone(s, f.end, hi);
  }

  /** The summed lengths of ordered pieces count their instants. */
  lemma {:induction false} TotalIsMeasure(s: seq<Interval>, lo: int, hi: int)
    requires Pieces(s) && lo <= hi && forall f | f in s :: lo <= f.start && f.end <= hi
    ensures Total(s) == Measure(s, lo, hi)
  {
    if s == [] {
      MeasureNone(s, lo, hi);
    } else {
      var init, f := s[..|s|-1], s[|s|-1];
      assert f in s && forall g | g in init :: g in s;
      assert forall i | 0 <= i < |init| :: init[i] == s[i] && init[i].end <= f.start;
      TotalIsMeasure(init, lo, f.start);
      MeasureLast(s, lo, hi);
    }
  }

  /** Conservation: free time plus busy time is the whole. */
  lemma FreePlusBusy(whole: Interval, busy: seq<Interval>)
    requires WellFormed(busy) && whole.start < whole.end
    ensures Total(Subtract(whole, busy)) + Measure(busy, whole.start, whole.end) == whole.end - whole.start
  {
    var free := Subtract(whole, busy);
    SubtractPieces(whole, busy);
    TotalIsMeasure(free, whole.start, whole.end);
    forall p | whole.start <= p < whole.end ensures Covered(free, p) <==> !Covered(busy, p) {
      FreeInstants(whole, busy, p);
    }
    MeasureComplement(free, busy, whole.start, whole.end);
  }

  // ---- the largest gap ----

  /** A longest stretch of the whole that overlaps nothing busy has length g
      (0 when there is none). */
  ghost predicate IsLargestGap(whole: Interval, busy: seq<Interval>, g: int) {
    && g >= 0
    && (forall iv: Interval | iv.start < iv.end && Inside(iv, whole) && !OverlapsAny(iv, busy) ::
      iv.end - iv.start <= g)
    && (g > 0 ==> exists iv: Interval :: Inside(iv, whole) && !OverlapsAny(iv, busy) && iv.end - iv.start == g)
  }

  function Largest(slots: seq<Interval>): int {
    if slots == [] then 0
    else
      var d, rest := slots[|slots|-1].end - slots[|slots|-1].start, Largest(slots[..|slots|-1]);
      if d > rest then d else rest
  }

  /** largestSlot. */
  method LargestSlot(slots: seq<Interval>) returns (max: int)
    ensures max == Largest(slots)
  {
    max := 0;
    for i := 0 to |slots|
      invariant max == Largest(slots[..i])
    {
      var d := slots[i].end - slots[i].start;
      assert slots[..i+1][..i] == slots[..i];
      if d > max {
        max := d;
      }
    }
    assert slots[..|slots|] == slots;
  }

  lemma {:induction false} LargestBounds(slots: seq<Interval>)
    ensures Largest(slots) >= 0 && forall f | f in slots :: f.end - f.start <= Largest(slots)
    ensures Largest(slots) > 0 ==> exists f | f in slots :: f.end - f.start == Largest(slots)
  {
    if slots != [] {
      var init, last := slots[..|slots|-1], slots[|slots|-1];
      LargestBounds(init);
      assert slots == init + [last] && last in slots;
    }
  }

  function LargestFree(whole: Interval, busy: seq<Interval>): int {
    Largest(Subtract(whole, Merge(busy)))
  }

  /** The largest free piece is the largest gap. */
  lemma LargestIsGap(whole: Interval, busy: seq<Interval>)
    ensures IsLargestGap(whole, busy, LargestFree(whole, busy))
  {
    var free, g := Subtract(whole, Merge(busy)), LargestFree(whole, busy);
    LargestBounds(free);
    forall iv: Interval | iv.start < iv.end && Inside(iv, whole) && !OverlapsAny(iv, busy)
      ensures iv.end - iv.start <= g
    {
      FreeExactly(whole, busy, iv);
      var f :| f in free && Inside(iv, f);
    }
    if g > 0 {
      var f :| f in free && f.end - f.start == g;
      assert Inside(f, f);
      FreeExactly(whole, busy, f);
    }
  }

  ghost function LargestGap(whole: Interval, busy: seq<Interval>): (g: int)
    ensures IsLargestGap(whole, busy, g)
  {
    LargestIsGap(whole, busy);
    var g :| IsLargestGap(whole, busy, g);
    g
  }

  /** Merge, subtract, take the largest piece: the largest gap. */
  method FindLargestGap(whole: Interval, busy: seq<Interval>) returns (g: int)
    ensures g == LargestGap(whole, busy)
  {
    var merged := Merged(busy);
    var free := SubtractIntervals(whole, merged);
    g := LargestSlot(free);
    LargestIsGap(whole, busy);
    LargestGapUnique(whole, busy, g, LargestGap(whole, busy));
  }

  lemma LargestGapUnique(whole: Interval, busy: seq<Interval>, g: int, h: int)
    requires IsLargestGap(whole, busy, g) && IsLargestGap(whole, busy, h)
    ensures g == h
  {
  }
}
