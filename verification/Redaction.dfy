/** Secret redaction (backend/nlp/llm_factory.go). */
module Redaction {
  import opened Sorting

  const REDACTED: string := "[redacted]"

  ghost predicate OccursAt(s: string, k: string, i: nat) {
    i + |k| <= |s| && s[i..i+|k|] == k
  }

  ghost predicate Contains(s: string, k: string) {
    exists i: nat :: OccursAt(s, k, i)
  }

  /** strings.ReplaceAll for a non-empty key: from the left, without overlaps. */
  function ReplaceAll(s: string, k: string): string
    requires k != ""
    decreases |s|
  {
    if |s| < |k| then s
    else if s[..|k|] == k then REDACTED + ReplaceAll(s[|k|..], k)
    else [s[0]] + ReplaceAll(s[1..], k)
  }

  /** Laid d places into the marker (before it when d is negative), p and the
      marker agree wherever they meet. */
  ghost predicate AgreesAt(p: string, d: int) {
    forall j | 0 <= j < |p| && 0 <= j + d < |REDACTED| :: p[j] == REDACTED[j+d]
  }

  /** p can be laid over the marker: inside it, around it, or across an end. */
  ghost predicate OverlapsMarker(p: string) {
    exists d :: -|p| < d < |REDACTED| && AgreesAt(p, d)
  }

  lemma StartAgrees(rest: string, p: string, n: nat)
    requires n <= |p| && p[n..] <= REDACTED + rest
    ensures AgreesAt(p, 0 - n)
  {
    assert forall j | n <= j < |p| :: p[j] == p[n..][j-n];
  }

  lemma InsideAgrees(rest: string, p: string, i: nat)
    requires OccursAt(REDACTED + rest, p, i)
    ensures AgreesAt(p, i)
  {
    var t := REDACTED + rest;
    assert forall j | 0 <= j < |p| :: p[j] == t[i..i+|p|][j];
  }

  /** No start of the result is an end of p, unless it was there before and was
      not the key. */
  lemma {:induction false} PrefixSurvives(s: string, k: string, p: string, n: nat)
    requires k != "" && n < |p| && !OverlapsMarker(p)
    ensures p[n..] <= ReplaceAll(s, k) ==> p[n..] <= s && (|s| < |k| || s[..|k|] != k)
    decreases |s|
  {
    var q, r := p[n..], ReplaceAll(s, k);
    if |s| >= |k| && q <= r {
      if s[..|k|] == k {
        StartAgrees(ReplaceAll(s[|k|..], k), p, n);
      } else if n + 1 < |p| {
        assert r[1..] == ReplaceAll(s[1..], k) && p[n+1..] == q[1..];
        PrefixSurvives(s[1..], k, p, n + 1);
        assert s == [s[0]] + s[1..];
      }
    }
  }

  lemma NotPrefix(s: string, p: string)
    requires !Contains(s, p)
    ensures !(p <= s)
  {
    assert !OccursAt(s, p, 0);
  }

  lemma ContainsTail(s: string, p: string, n: nat)
    requires n <= |s| && Contains(s[n..], p)
    ensures Contains(s, p)
  {
    var i: nat :| OccursAt(s[n..], p, i);
    assert s[n..][i..i+|p|] == s[n+i..n+i+|p|];
    assert OccursAt(s, p, n + i);
  }

  /** An occurrence that starts inside the marker lies over it. */
  lemma NotInMarker(rest: string, p: string, i: nat)
    requires p != "" && !OverlapsMarker(p) && i < |REDACTED|
    ensures !OccursAt(REDACTED + rest, p, i)
  {
    if OccursAt(REDACTED + rest, p, i) {
      InsideAgrees(rest, p, i);
    }
  }

  /** A text put in front brings back p only across its own start. */
  lemma NoneShifted(head: string, rest: string, p: string, i: nat)
    requires !Contains(rest, p) && i >= |head|
    ensures !OccursAt(head + rest, p, i)
  {
    if i + |p| <= |head + rest| {
      assert (head + rest)[i..i+|p|] == rest[i-|head|..i-|head|+|p|];
      assert !OccursAt(rest, p, i - |head|);
    }
  }

  lemma MarkerInFront(rest: string, p: string)
    requires p != "" && !OverlapsMarker(p) && !Contains(rest, p)
    ensures !Contains(REDACTED + rest, p)
  {
    forall i: nat ensures !OccursAt(REDACTED + rest, p, i) {
      if i < |REDACTED| { NotInMarker(rest, p, i); } else { NoneShifted(REDACTED, rest, p, i); }
    }
  }

  lemma CharInFront(c: char, rest: string, p: string)
    requires !Contains(rest, p) && !(p <= [c] + rest)
    ensures !Contains([c] + rest, p)
  {
    forall i: nat ensures !OccursAt([c] + rest, p, i) {
      if i > 0 { NoneShifted([c], rest, p, i); }
    }
  }

  /** Replacing k leaves no k, and brings back no other secret, of those that
      cannot be laid over the marker. */
  lemma {:induction false} ReplaceRemoves(s: string, k: string, p: string)
    requires k != "" && p != "" && !OverlapsMarker(p) && (p == k || !Contains(s, p))
    ensures !Contains(ReplaceAll(s, k), p)
    decreases |s|
  {
    if |s| >= |k| {
      var n := if s[..|k|] == k then |k| else 1;
      if p != k && Contains(s[n..], p) {
        ContainsTail(s, p, n);
      }
      ReplaceRemoves(s[n..], k, p);
      if s[..|k|] == k {
        MarkerInFront(ReplaceAll(s[|k|..], k), p);
      } else {
        PrefixSurvives(s, k, p, 0);
        assert p[0..] == p;
        if p != k { NotPrefix(s, p); }
        CharInFront(s[0], ReplaceAll(s[1..], k), p);
      }
    }
  }

  lemma {:induction false} ReplaceAbsent(s: string, k: string)
    requires k != "" && !Contains(s, k)
    ensures ReplaceAll(s, k) == s
    decreases |s|
  {
    if |s| >= |k| {
      assert !OccursAt(s, k, 0);
      if Contains(s[1..], k) {
        ContainsTail(s, k, 1);
      }
      ReplaceAbsent(s[1..], k);
    }
  }

  function RedactIn(msg: string, keys: seq<string>): string
    requires "" !in keys
  {
    if keys == [] then msg else ReplaceAll(RedactIn(msg, keys[..|keys|-1]), keys[|keys|-1])
  }

  function Longest(s: string): int { -|s| }

  lemma {:induction false} NothingLeft(msg: string, keys: seq<string>, p: string)
    requires "" !in keys && p in keys && !OverlapsMarker(p)
    ensures !Contains(RedactIn(msg, keys), p)
  {
    var init, k := keys[..|keys|-1], keys[|keys|-1];
    assert keys == init + [k];
    if p != k {
      NothingLeft(msg, init, p);
    }
    ReplaceRemoves(RedactIn(msg, init), k, p);
  }

  lemma {:induction false} CleanStays(msg: string, keys: seq<string>)
    requires "" !in keys && forall k | k in keys :: !Contains(msg, k)
    ensures RedactIn(msg, keys) == msg
  {
    if keys != [] {
      var init, k := keys[..|keys|-1], keys[|keys|-1];
      assert keys == init + [k] && k in keys;
      CleanStays(msg, init);
      ReplaceAbsent(msg, k);
    }
  }

  lemma ShorterMissesLonger(s: string, k: string)
    requires |k| >= |s| && k != s
    ensures !Contains(s, k)
  {
    forall i: nat ensures !OccursAt(s, k, i) {
      if i + |k| <= |s| {
        assert s[i..i+|k|] == s;
      }
    }
  }

  lemma ReplaceWhole(k: string)
    requires k != ""
    ensures ReplaceAll(k, k) == REDACTED
  {
    assert k[..|k|] == k && k[|k|..] == "";
  }

  /** Keys no shorter than the message, and other than it, leave it alone. */
  lemma LongerLeave(msg: string, keys: seq<string>)
    requires "" !in keys && forall k | k in keys :: |k| >= |msg| && k != msg
    ensures RedactIn(msg, keys) == msg
  {
    forall k | k in keys ensures !Contains(msg, k) {
      ShorterMissesLonger(msg, k);
    }
    CleanStays(msg, keys);
  }

  lemma MarkerStays(k: string)
    requires k != "" && !Contains(REDACTED, k)
    ensures ReplaceAll(REDACTED, k) == REDACTED
  {
    ReplaceAbsent(REDACTED, k);
  }

  lemma EarlierAreLonger(keys: seq<string>, n: nat)
    requires n < |keys| && keys[n] !in keys[..n] && SortedBy(Longest, keys)
    ensures forall x | x in keys[..n] :: |x| >= |keys[n]| && x != keys[n]
  {
    forall i | 0 <= i < n ensures |keys[..n][i]| >= |keys[n]| {
      assert Longest(keys[i]) <= Longest(keys[n]);
    }
  }

  lemma WholeLast(msg: string, keys: seq<string>)
    requires keys != [] && keys[|keys|-1] == msg && msg !in keys[..|keys|-1]
    requires "" !in keys && SortedBy(Longest, keys)
    ensures RedactIn(msg, keys) == REDACTED
  {
    EarlierAreLonger(keys, |keys| - 1);
    LongerLeave(msg, keys[..|keys|-1]);
    assert msg in keys;
    ReplaceWhole(msg);
  }

  /** With the longest keys first, a message that is one of the keys becomes
      exactly the marker, even when other keys are parts of it. */
  lemma {:induction false} WholeKey(msg: string, keys: seq<string>, n: nat)
    requires n < |keys| && keys[n] == msg && msg !in keys[..n]
    requires "" !in keys && SortedBy(Longest, keys) && forall k | k in keys :: !Contains(REDACTED, k)
    ensures RedactIn(msg, keys) == REDACTED
  {
    var init, k := keys[..|keys|-1], keys[|keys|-1];
    assert keys == init + [k] && k in keys;
    if n < |init| {
      assert init[..n] == keys[..n];
      WholeKey(msg, init, n);
      MarkerStays(k);
    } else {
      assert init == keys[..n];
      WholeLast(msg, keys);
    }
  }

  lemma {:induction false} FirstIndex(keys: seq<string>, k: string) returns (n: nat)
    requires k in keys
    ensures n < |keys| && keys[n] == k && k !in keys[..n]
  {
    if keys[0] == k {
      n := 0;
    } else {
      var m := FirstIndex(keys[1..], k);
      n := m + 1;
      assert keys[..n] == [keys[0]] + keys[1..][..m];
    }
  }

  function NonEmpty(secrets: seq<string>): seq<string> {
    if secrets == [] then []
    else NonEmpty(secrets[..|secrets|-1]) + if secrets[|secrets|-1] == "" then [] else [secrets[|secrets|-1]]
  }

  lemma {:induction false} NonEmptyHolds(secrets: seq<string>)
    ensures forall k :: k in NonEmpty(secrets) <==> k in secrets && k != ""
  {
    if secrets != [] {
      NonEmptyHolds(secrets[..|secrets|-1]);
      assert secrets == secrets[..|secrets|-1] + [secrets[|secrets|-1]];
    }
  }

  /** The non-empty secrets, longest first. */
  function Keys(secrets: seq<string>): seq<string> { Sort(Longest, NonEmpty(secrets)) }

  lemma KeysHold(secrets: seq<string>)
    ensures SortedBy(Longest, Keys(secrets))
    ensures forall k :: k in Keys(secrets) <==> k in secrets && k != ""
  {
    NonEmptyHolds(secrets);
    SortIsStable(Longest, NonEmpty(secrets), 0);
    SortMembers(Longest, NonEmpty(secrets));
  }

  ghost function Redacted(msg: string, secrets: seq<string>): string {
    KeysHold(secrets);
    RedactIn(msg, Keys(secrets))
  }

  method SortedKeys(secrets: seq<string>) returns (keys: seq<string>)
    ensures keys == Keys(secrets)
  {
    var kept: seq<string> := [];
    for i := 0 to |secrets|
      invariant kept == NonEmpty(secrets[..i])
    {
      assert secrets[..i+1][..i] == secrets[..i];
      if secrets[i] != "" {
        kept := kept + [secrets[i]];
      }
    }
    assert secrets[..|secrets|] == secrets;
    var a := new string[|kept|](i requires 0 <= i < |kept| => kept[i]);
    assert a[..] == kept;
    InsertionSort(a, Longest);
    keys := a[..];
  }

  /** What is left: no secret that cannot be laid over the marker, only the
      marker of a message that is itself a secret, and all of a message without
      secrets. */
  lemma RedactedMeans(msg: string, secrets: seq<string>)
    ensures forall p | p in secrets && p != "" && !OverlapsMarker(p) :: !Contains(Redacted(msg, secrets), p)
    ensures msg in secrets && msg != "" && (forall p | p in secrets && p != "" :: !Contains(REDACTED, p)) ==>
      Redacted(msg, secrets) == REDACTED
    ensures (forall p | p in secrets && p != "" :: !Contains(msg, p)) ==> Redacted(msg, secrets) == msg
  {
    var keys := Keys(secrets);
    KeysHold(secrets);
    forall p | p in secrets && p != "" && !OverlapsMarker(p) ensures !Contains(Redacted(msg, secrets), p) {
      NothingLeft(msg, keys, p);
    }
    if msg in keys && forall p | p in keys :: !Contains(REDACTED, p) {
      var n := FirstIndex(keys, msg);
      WholeKey(msg, keys, n);
    }
    if forall p | p in keys :: !Contains(msg, p) {
      CleanStays(msg, keys);
    }
  }

  /** RedactSecrets. */
  method RedactSecrets(msg: string, secrets: seq<string>) returns (r: string)
    ensures r == Redacted(msg, secrets)
    ensures forall p | p in secrets && p != "" && !OverlapsMarker(p) :: !Contains(r, p)
    ensures msg in secrets && msg != "" && (forall p | p in secrets && p != "" :: !Contains("[redacted]", p)) ==>
      r == "[redacted]"
    ensures (forall p | p in secrets && p != "" :: !Contains(msg, p)) ==> r == msg
  {
    var keys := SortedKeys(secrets);
    KeysHold(secrets);
    r := RedactKeys(msg, keys);
    RedactedMeans(msg, secrets);
  }

  /** Its loop over the keys. */
  method RedactKeys(msg: string, keys: seq<string>) returns (r: string)
    requires "" !in keys
    ensures r == RedactIn(msg, keys)
  {
    r := msg;
    for i := 0 to |keys|
      invariant r == RedactIn(msg, keys[..i])
    {
      assert keys[..i+1][..i] == keys[..i] && keys[i] in keys;
      r := Replaced(r, keys[i]);
    }
    assert keys[..|keys|] == keys;
  }

  lemma Regroup(r: string, x: string, y: string)
    ensures r + (x + y) == (r + x) + y
  {
  }

  /** r is what the first i characters become. */
  ghost predicate Scanned(s: string, k: string, r: string, i: nat)
    requires k != ""
  {
    i <= |s| && ReplaceAll(s, k) == r + ReplaceAll(s[i..], k)
  }

  lemma ScanStarts(s: string, k: string)
    requires k != ""
    ensures Scanned(s, k, "", 0)
  {
    assert s[0..] == s;
    assert "" + ReplaceAll(s, k) == ReplaceAll(s, k);
  }

  lemma ScanKey(s: string, k: string, r: string, i: nat)
    requires k != "" && Scanned(s, k, r, i) && OccursAt(s, k, i)
    ensures Scanned(s, k, r + REDACTED, i + |k|)
  {
    var t := s[i..];
    assert t[..|k|] == s[i..i+|k|] && t[|k|..] == s[i+|k|..];
    Regroup(r, REDACTED, ReplaceAll(t[|k|..], k));
  }

  lemma ScanChar(s: string, k: string, r: string, i: nat)
    requires k != "" && Scanned(s, k, r, i) && i + |k| <= |s| && !OccursAt(s, k, i)
    ensures Scanned(s, k, r + [s[i]], i + 1)
  {
    var t := s[i..];
    assert t[..|k|] == s[i..i+|k|] && t[1..] == s[i+1..] && t[0] == s[i];
    Regroup(r, [t[0]], ReplaceAll(t[1..], k));
  }

  lemma ScanEnds(s: string, k: string, r: string, i: nat)
    requires k != "" && Scanned(s, k, r, i) && i + |k| > |s|
    ensures r + s[i..] == ReplaceAll(s, k)
  {
  }

  // ---- what replacing means ----

  /** The parts, with a separator between each two. */
  ghost function Joined(parts: seq<string>, sep: string): string
    requires parts != []
  {
    if |parts| == 1 then parts[0] else parts[0] + (sep + Joined(parts[1..], sep))
  }

  /** No key starts in the part, also not one that runs on into what follows. */
  ghost predicate StartsNoKey(part: string, next: string, k: string) {
    forall j: nat | j < |part| :: !OccursAt(part + next, k, j)
  }

  /** What stands between the keys, counted from the left. */
  ghost predicate BetweenKeys(parts: seq<string>, k: string) {
    forall i | 0 <= i < |parts| :: StartsNoKey(parts[i], if i < |parts| - 1 then k else "", k)
  }

  lemma JoinedKey(parts: seq<string>, sep: string)
    requires parts != []
    ensures Joined([""] + parts, sep) == sep + Joined(parts, sep)
  {
    var all := [""] + parts;
    assert all[1..] == parts && "" + (sep + Joined(parts, sep)) == sep + Joined(parts, sep);
  }

  lemma JoinedChar(c: char, parts: seq<string>, sep: string)
    requires parts != []
    ensures Joined([[c] + parts[0]] + parts[1..], sep) == [c] + Joined(parts, sep)
  {
    var all := [[c] + parts[0]] + parts[1..];
    if |parts| > 1 {
      assert all[1..] == parts[1..];
      Regroup([c], parts[0], sep + Joined(parts[1..], sep));
    }
  }

  lemma CharBetween(c: char, part: string, next: string, rest: string, k: string)
    requires k != "" && StartsNoKey(part, next, k) && !(k <= [c] + (part + (next + rest)))
    ensures StartsNoKey([c] + part, next, k)
  {
    var all := [c] + part + next;
    assert all + rest == [c] + (part + (next + rest)) && all[1..] == part + next;
    assert OccursAt(all, k, 0) ==> k <= all + rest;
    forall j: nat | 0 < j < |[c] + part| ensures !OccursAt(all, k, j) {
      assert !OccursAt(part + next, k, j - 1);
      assert j + |k| <= |all| ==> all[j..j+|k|] == (part + next)[j-1..j-1+|k|];
    }
  }

  lemma CharBetweenKeys(c: char, parts: seq<string>, k: string)
    requires k != "" && parts != [] && BetweenKeys(parts, k) && !(k <= [c] + Joined(parts, k))
    ensures BetweenKeys([[c] + parts[0]] + parts[1..], k)
  {
    var all, next := [[c] + parts[0]] + parts[1..], if |parts| > 1 then k else "";
    var rest := if |parts| > 1 then Joined(parts[1..], k) else "";
    assert Joined(parts, k) == parts[0] + (next + rest) by {
      assert |parts| == 1 ==> parts[0] + ("" + "") == parts[0];
    }
    CharBetween(c, parts[0], next, rest, k);
    forall i | 0 <= i < |all| ensures StartsNoKey(all[i], if i < |all| - 1 then k else "", k) {
      if i > 0 {
        assert all[i] == parts[i];
      }
    }
  }

  /** Replacing puts the marker in the place of every key, found from the left
      without overlaps, and changes nothing in between. */
  lemma {:induction false} ReplaceIsJoin(s: string, k: string) returns (parts: seq<string>)
    requires k != ""
    ensures parts != [] && BetweenKeys(parts, k)
    ensures s == Joined(parts, k) && ReplaceAll(s, k) == Joined(parts, "[redacted]")
    decreases |s|
  {
    if |s| < |k| {
      parts := [s];
    } else if s[..|k|] == k {
      var rest := ReplaceIsJoin(s[|k|..], k);
      parts := [""] + rest;
      JoinedKey(rest, k);
      JoinedKey(rest, "[redacted]");
      assert forall i | 0 < i < |parts| :: parts[i] == rest[i-1];
    } else {
      var rest := ReplaceIsJoin(s[1..], k);
      parts := [[s[0]] + rest[0]] + rest[1..];
      JoinedChar(s[0], rest, k);
      JoinedChar(s[0], rest, "[redacted]");
      assert s == [s[0]] + s[1..];
      CharBetweenKeys(s[0], rest, k);
    }
  }

  /** strings.ReplaceAll as a scan. */
  method Replaced(s: string, k: string) returns (r: string)
    requires k != ""
    ensures r == ReplaceAll(s, k)
  {
    r := "";
    var i := 0;
    ScanStarts(s, k);
    while i + |k| <= |s|
      invariant 0 <= i <= |s| && Scanned(s, k, r, i)
      decreases |s| - i
    {
      if s[i..i+|k|] == k {
        ScanKey(s, k, r, i);
        r, i := r + REDACTED, i + |k|;
      } else {
        ScanChar(s, k, r, i);
        r, i := r + [s[i]], i + 1;
      }
    }
    ScanEnds(s, k, r, i);
    r := r + s[i..];
  }

  // ---- which secrets can be left ----

  /** The secret is left in what becomes of this message. */
  ghost predicate IsLeft(p: string, msg: string, secrets: seq<string>) {
    p in secrets && Contains(Redacted(msg, secrets), p)
  }

  /** A secret can be left, for some message and some list of secrets, exactly
      when it can be laid over the marker. */
  lemma LeftExactly(p: string)
    requires p != ""
    ensures (exists msg, secrets :: IsLeft(p, msg, secrets)) <==> OverlapsMarker(p)
  {
    if OverlapsMarker(p) {
      var d :| -|p| < d < |REDACTED| && AgreesAt(p, d);
      var msg, secrets := LeftOver(p, d);
    }
    forall msg, secrets | IsLeft(p, msg, secrets) ensures OverlapsMarker(p) {
      KeysHold(secrets);
      if !OverlapsMarker(p) {
        NothingLeft(msg, Keys(secrets), p);
      }
    }
  }

  /** A character that is none of three. */
  function Spare(x: char, y: char, z: char): (c: char)
    ensures c != x && c != y && c != z
  {
    if 'a' != x && 'a' != y && 'a' != z then 'a'
    else if 'b' != x && 'b' != y && 'b' != z then 'b'
    else if 'c' != x && 'c' != y && 'c' != z then 'c'
    else 'd'
  }

  lemma OccursInTail(s: string, k: string, i: nat)
    requires s != "" && OccursAt(s[1..], k, i)
    ensures OccursAt(s, k, i + 1)
  {
    assert s[1..][i..i+|k|] == s[i+1..i+1+|k|];
  }

  /** What comes before the first key is copied. */
  lemma {:induction false} CopiedUpTo(s: string, k: string, m: nat)
    requires k != "" && m <= |s| && forall i: nat | i < m :: !OccursAt(s, k, i)
    ensures ReplaceAll(s, k) == s[..m] + ReplaceAll(s[m..], k)
    decreases |s|
  {
    if m == 0 {
      assert s[..0] == "" && s[0..] == s;
    } else if |s| < |k| {
      assert s[..m] + s[m..] == s;
    } else {
      assert !OccursAt(s, k, 0);
      var t := s[1..];
      forall i: nat | i < m - 1 ensures !OccursAt(t, k, i) {
        if OccursAt(t, k, i) {
          OccursInTail(s, k, i);
        }
      }
      CopiedUpTo(t, k, m - 1);
      CopyOne(s, t, m, ReplaceAll(s[m..], k));
    }
  }

  lemma CopyOne(s: string, t: string, m: nat, rest: string)
    requires 0 < m <= |s| && t == s[1..]
    ensures t[m-1..] == s[m..] && [s[0]] + (t[..m-1] + rest) == s[..m] + rest
  {
    assert s[..m] == [s[0]] + t[..m-1];
    Regroup([s[0]], t[..m-1], rest);
  }

  /** The parts of p that stick out of the marker. */
  function Before(p: string, d: int): string
    requires -|p| < d
  {
    if d < 0 then p[..-d] else ""
  }

  function Behind(p: string, d: int): string
    requires d < |REDACTED|
  {
    if |REDACTED| - d < |p| then p[|REDACTED|-d..] else ""
  }

  lemma LaidOverAt(p: string, d: int, j: int)
    requires -|p| < d < |REDACTED| && AgreesAt(p, d) && 0 <= j < |p|
    ensures var all, o := Before(p, d) + REDACTED + Behind(p, d), if d < 0 then 0 else d;
      o + j < |all| && all[o+j] == p[j]
  {
    var left, right, o := Before(p, d), Behind(p, d), if d < 0 then 0 else d;
    var all := left + REDACTED + right;
    if j + d < 0 {
      assert all[o+j] == left[j];
    } else if j + d < |REDACTED| {
      assert all[o+j] == REDACTED[j+d];
    } else {
      assert all[o+j] == right[j+d-|REDACTED|];
    }
  }

  lemma LaidOver(p: string, d: int)
    requires -|p| < d < |REDACTED| && AgreesAt(p, d)
    ensures Contains(Before(p, d) + REDACTED + Behind(p, d), p)
  {
    var o := if d < 0 then 0 else d;
    var all := Before(p, d) + REDACTED + Behind(p, d);
    forall j | 0 <= j < |p| ensures o + j < |all| && all[o+j] == p[j] {
      LaidOverAt(p, d, j);
    }
    if p != "" {
      LaidOverAt(p, d, |p| - 1);
    }
    OccursFrom(all, p, o);
  }

  lemma OccursFrom(all: string, p: string, o: nat)
    requires o + |p| <= |all| && forall j | 0 <= j < |p| :: all[o+j] == p[j]
    ensures OccursAt(all, p, o) && Contains(all, p)
  {
    assert all[o..o+|p|] == p;
    assert OccursAt(all, p, o);
  }

  /** p is not in a run of another character, with less than p on either side. */
  lemma NotAcross(left: string, k: string, right: string, p: string)
    requires |k| == |p| > 0 && |left| < |p| && |right| < |p|
    requires forall i | 0 <= i < |k| :: k[i] != p[0] && k[i] != p[|p|-1]
    ensures !Contains(left + k + right, p)
  {
    var s := left + k + right;
    forall i: nat ensures !OccursAt(s, p, i) {
      if i + |p| <= |s| {
        var at := s[i..i+|p|];
        if i < |left| {
          assert at[|p|-1] == k[i+|p|-1-|left|];
        } else {
          assert at[0] == k[i-|left|];
        }
      }
    }
  }

  /** Put a run of another character where the marker would go, as a second
      secret of the same length: it is replaced after p, and p appears. */
  lemma LeftOver(p: string, d: int) returns (msg: string, secrets: seq<string>)
    requires p != "" && -|p| < d < |REDACTED| && AgreesAt(p, d)
    ensures IsLeft(p, msg, secrets)
  {
    var left, right := Before(p, d), Behind(p, d);
    var z := Spare(p[0], p[|p|-1], if left == "" then p[0] else left[|left|-1]);
    var k := seq(|p|, _ => z);
    msg, secrets := left + k + right, [p, k];
    NotAcross(left, k, right, p);
    ReplaceAbsent(msg, p);
    RunReplaced(left, k, right, z);
    KeysOfTwo(p, k);
    RedactInTwo(msg, p, k);
    LaidOver(p, d);
  }

  lemma RunNotInFront(left: string, k: string, rest: string, z: char, i: nat)
    requires i < |left| < |k| && left[|left|-1] != z && forall n | 0 <= n < |k| :: k[n] == z
    ensures !OccursAt(left + rest, k, i)
  {
    var s := left + rest;
    if i + |k| <= |s| {
      assert s[i..i+|k|][|left|-1-i] == left[|left|-1];
    }
  }

  lemma KeyAtFront(k: string, right: string)
    requires k != "" && |right| < |k|
    ensures ReplaceAll(k + right, k) == REDACTED + right
  {
    var s := k + right;
    assert s[..|k|] == k && s[|k|..] == right;
  }

  lemma RunReplaced(left: string, k: string, right: string, z: char)
    requires |left| < |k| && |right| < |k| && (left == "" || left[|left|-1] != z)
    requires forall i | 0 <= i < |k| :: k[i] == z
    ensures ReplaceAll(left + k + right, k) == left + REDACTED + right
  {
    var rest := k + right;
    var s := left + rest;
    forall i: nat | i < |left| ensures !OccursAt(s, k, i) {
      RunNotInFront(left, k, rest, z, i);
    }
    CopiedUpTo(s, k, |left|);
    assert s[..|left|] == left && s[|left|..] == rest;
    KeyAtFront(k, right);
    Regroup(left, k, right);
    Regroup(left, REDACTED, right);
  }

  lemma RedactInTwo(msg: string, p: string, k: string)
    requires p != "" && k != ""
    ensures RedactIn(msg, [p, k]) == ReplaceAll(ReplaceAll(msg, p), k)
  {
    assert [p, k][..1] == [p] && [p][..0] == [];
    assert RedactIn(msg, [p]) == ReplaceAll(msg, p);
  }

  lemma KeysOfTwo(p: string, k: string)
    requires p != "" && |k| == |p|
    ensures Keys([p, k]) == [p, k]
  {
    assert [p, k][..1] == [p] && [p][..0] == [];
    assert NonEmpty([p]) == [p];
    assert NonEmpty([p, k]) == [p, k];
    assert Sort(Longest, [p]) == [p];
  }

  /** A bracket is not enough to be left: this one never is. */
  lemma SomeBracketsAreSafe()
    ensures !OverlapsMarker("a[b")
  {
    forall d | -3 < d < |REDACTED| ensures !AgreesAt("a[b", d) {
      if d == -2 {
        assert "a[b"[2] != REDACTED[0];
      } else if d == -1 {
        assert "a[b"[2] != REDACTED[1];
      } else if d != 4 {
        assert "a[b"[0] != REDACTED[d];
      } else {
        assert "a[b"[1] != REDACTED[5];
      }
    }
  }
}
