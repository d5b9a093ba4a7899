/** The operator's approved gateways: host names, path prefixes and the comma
    list (backend/config/llm_user_destinations.go, backend/config/llm_hosts.go). */
module Gateways {
  import opened Options

  datatype Gateway = Gateway(host: string, prefix: string)

  // ---- strings ----

  /** strings.Split on one character. */
  function Split(s: string, c: char): (parts: seq<string>)
    ensures parts != []
  {
    if s == "" then [""]
    else
      Glue(s[0], c, Split(s[1..], c))
  }

  /** One more character in front: a separator opens an empty part. */
  function Glue(x: char, c: char, parts: seq<string>): (r: seq<string>)
    requires parts != []
    ensures r != []
  {
    if x == c then [""] + parts else [[x] + parts[0]] + parts[1..]
  }

  lemma GlueJoin(x: char, c: char, a: seq<string>, b: seq<string>)
    requires a != []
    ensures Glue(x, c, a + b) == Glue(x, c, a) + b
  {
    assert (a + b)[1..] == a[1..] + b;
  }

  /** Splitting a join is joining the splits. */
  lemma {:induction false} SplitJoin(a: string, c: char, b: string)
    ensures Split(a + [c] + b, c) == Split(a, c) + Split(b, c)
  {
    if a == "" {
      assert (a + [c] + b)[1..] == b;
    } else {
      SplitJoin(a[1..], c, b);
      assert (a + [c] + b)[1..] == a[1..] + [c] + b;
      GlueJoin(a[0], c, Split(a[1..], c), Split(b, c));
    }
  }

  /** A text without the separator is its only part. */
  lemma {:induction false} SplitNone(s: string, c: char)
    requires c !in s
    ensures Split(s, c) == [s]
  {
    if s != "" {
      assert s[0] in s && forall x | x in s[1..] :: x in s;
      SplitNone(s[1..], c);
      assert [s[0]] + s[1..] == s;
    }
  }

  function LowerChar(c: char): char {
    if 'A' <= c <= 'Z' then c - 'A' + 'a' else c
  }

  function Lower(s: string): string {
    seq(|s|, i requires 0 <= i < |s| => LowerChar(s[i]))
  }

  function LowerAll(parts: seq<string>): seq<string> {
    seq(|parts|, i requires 0 <= i < |parts| => Lower(parts[i]))
  }

  lemma GlueLower(x: char, c: char, parts: seq<string>)
    requires parts != [] && (LowerChar(x) == c <==> x == c)
    ensures Glue(LowerChar(x), c, LowerAll(parts)) == LowerAll(Glue(x, c, parts))
  {
    if x != c {
      assert Lower([x] + parts[0]) == [LowerChar(x)] + Lower(parts[0]);
      assert LowerAll(parts)[1..] == LowerAll(parts[1..]);
      assert LowerAll([[x] + parts[0]] + parts[1..]) == [Lower([x] + parts[0])] + LowerAll(parts[1..]);
    } else {
      assert LowerAll([""] + parts) == [""] + LowerAll(parts);
    }
  }

  lemma {:induction false} SplitLower(s: string, c: char)
    requires forall x: char :: LowerChar(x) == c <==> x == c
    ensures Split(Lower(s), c) == LowerAll(Split(s, c))
  {
    if s != "" {
      SplitLower(s[1..], c);
      assert Lower(s)[1..] == Lower(s[1..]);
      GlueLower(s[0], c, Split(s[1..], c));
    }
  }

  /** No part holds the separator, and the parts hold nothing else. */
  lemma {:induction false} SplitChars(s: string, c: char, x: char)
    requires x in s && x != c
    ensures exists p | p in Split(s, c) :: x in p
  {
    var rest := Split(s[1..], c);
    if s[0] == x {
      assert ([s[0]] + rest[0])[0] == x && Split(s, c)[0] == [s[0]] + rest[0];
      assert Split(s, c)[0] in Split(s, c);
    } else {
      SplitChars(s[1..], c, x);
      var p :| p in rest && x in p;
      if s[0] == c {
        assert p in [""] + rest;
      } else if p == rest[0] {
        assert x in [s[0]] + rest[0] && Split(s, c)[0] == [s[0]] + rest[0];
        assert Split(s, c)[0] in Split(s, c);
      } else {
        assert p in rest[1..];
      }
    }
  }

  /** Where the first slash is. */
  function SlashAt(s: string): (r: Option<nat>)
    ensures r.Some? ==> r.value < |s| && s[r.value] == '/' && '/' !in s[..r.value]
    ensures r.None? ==> '/' !in s
  {
    if s == "" then None
    else if s[0] == '/' then Some(0)
    else
      var rest := SlashAt(s[1..]);
      assert s == [s[0]] + s[1..];
      if rest.Some? then assert s[..rest.value + 1] == [s[0]] + s[1..][..rest.value]; Some(rest.value + 1) else None
  }

  /** Where "://" first is. */
  function SchemeAt(s: string): (r: Option<nat>)
    ensures r.Some? ==> r.value + 3 <= |s|
  {
    if |s| < 3 then None
    else if s[..3] == "://" then Some(0)
    else
      var rest := SchemeAt(s[1..]);
      if rest.Some? then Some(rest.value + 1) else None
  }

  /** strings.EqualFold with "https": the long s folds to s. */
  predicate FoldsToHttps(s: string) {
    && |s| == 5
    && LowerChar(s[0]) == 'h' && LowerChar(s[1]) == 't' && LowerChar(s[2]) == 't' && LowerChar(s[3]) == 'p'
    && (LowerChar(s[4]) == 's' || s[4] == '\U{17F}')
  }

  lemma FoldExactly(s: string)
    ensures FoldsToHttps(s) <==>
      && |s| == 5 && s[0] in ['h', 'H'] && s[1] in ['t', 'T'] && s[2] in ['t', 'T'] && s[3] in ['p', 'P']
      && s[4] in ['s', 'S', '\U{17F}']
  {
  }

  lemma LowerExactly(s: string)
    ensures |Lower(s)| == |s| && forall i | 0 <= i < |s| ::
      Lower(s)[i] as int == if 'A' <= s[i] <= 'Z' then s[i] as int + 32 else s[i] as int
  {
  }

  // ---- host names ----

  predicate Digit(c: char) { '0' <= c <= '9' }

  predicate Alnum(c: char) { 'a' <= c <= 'z' || 'A' <= c <= 'Z' || Digit(c) }

  predicate ValidLabel(s: string) {
    && 1 <= |s| <= 63 && s[0] != '-' && s[|s|-1] != '-'
    && forall i | 0 <= i < |s| :: Alnum(s[i]) || s[i] == '-'
  }

  /** ValidDNSLabel. */
  method IsValidLabel(s: string) returns (ok: bool)
    ensures ok <==> ValidLabel(s)
    ensures ok <==>
      && 1 <= |s| <= 63 && s[0] != '-' && s[|s|-1] != '-'
      && forall c | c in s :: 'a' <= c <= 'z' || 'A' <= c <= 'Z' || '0' <= c <= '9' || c == '-'
  {
    if |s| == 0 || |s| > 63 || s[0] == '-' || s[|s|-1] == '-' {
      return false;
    }
    for i := 0 to |s|
      invariant forall k | 0 <= k < i :: Alnum(s[k]) || s[k] == '-'
    {
      if !Alnum(s[i]) && s[i] != '-' {
        assert s[i] in s;
        return false;
      }
    }
    return true;
  }

  /** One field of a dotted IPv4 address. */
  predicate Octet(f: string) {
    && 1 <= |f| <= 3 && (forall i | 0 <= i < |f| :: Digit(f[i]))
    && (|f| > 1 ==> f[0] != '0')
    && (|f| == 3 ==> f[0] < '2' || (f[0] == '2' && (f[1] < '5' || (f[1] == '5' && f[2] <= '5'))))
  }

  /** The number a text of digits writes. */
  ghost function Number(f: string): int {
    if f == "" then 0 else Number(f[..|f|-1]) * 10 + (f[|f|-1] as int - '0' as int)
  }

  /** It is a number up to 255 in digits, written without a leading zero. */
  lemma OctetExactly(f: string)
    ensures Octet(f) <==>
      && f != "" && (forall c | c in f :: '0' <= c <= '9')
      && (f == "0" || f[0] != '0') && |f| <= 3 && Number(f) <= 255
  {
    if f != "" && |f| <= 3 && forall i | 0 <= i < |f| :: Digit(f[i]) {
      NumberOfThree(f);
      assert |f| == 1 ==> f == [f[0]];
    }
    assert forall i | 0 <= i < |f| :: f[i] in f;
  }

  lemma NumberOfThree(f: string)
    requires 1 <= |f| <= 3
    ensures Number(f) == (if |f| == 3 then (f[0] as int - 48) * 100 else 0)
      + (if |f| >= 2 then (f[|f|-2] as int - 48) * 10 else 0) + (f[|f|-1] as int - 48)
  {
    assert Number(f[..|f|-1]) == Number(f[..|f|-1]);
    if |f| == 3 {
      assert f[..2][..1] == f[..1] && f[..1][..0] == "";
      assert Number(f[..1]) == f[0] as int - 48;
    } else if |f| == 2 {
      assert f[..1][..0] == "";
      assert Number(f[..1]) == f[0] as int - 48;
    }
  }

  /** The address literals a host of valid labels could be. */
  predicate Ipv4(s: string) {
    var fields := Split(s, '.');
    |fields| == 4 && forall i | 0 <= i < |fields| :: Octet(fields[i])
  }

  predicate ValidHost(s: string) {
    && s != "" && |s| <= 253 && !Ipv4(s)
    && forall i | 0 <= i < |Split(s, '.')| :: ValidLabel(Split(s, '.')[i])
  }

  /** ValidDNSHostName. */
  method IsValidHost(s: string) returns (ok: bool)
    ensures ok <==> ValidHost(s)
    ensures ok <==>
      && 1 <= |s| <= 253 && (forall part | part in Split(s, '.') :: ValidLabel(part))
      && !(|Split(s, '.')| == 4 && forall part | part in Split(s, '.') :: Octet(part))
  {
    if s == "" || |s| > 253 {
      return false;
    }
    if Ipv4(s) {
      return false;
    }
    var labels := Split(s, '.');
    for i := 0 to |labels|
      invariant forall k | 0 <= k < i :: ValidLabel(labels[k])
    {
      var valid := IsValidLabel(labels[i]);
      if !valid {
        return false;
      }
    }
    return true;
  }

  // ---- prefixes ----

  predicate SegmentChar(c: char) { Alnum(c) || c == '.' || c == '_' || c == '~' || c == '-' }

  predicate ValidSegment(s: string) {
    s != "" && s != "." && s != ".." && forall i | 0 <= i < |s| :: SegmentChar(s[i])
  }

  function TrimSlash(path: string): string {
    if path != "" && path[|path|-1] == '/' then path[..|path|-1] else path
  }

  predicate ValidPrefix(path: string) {
    path == "" || forall i | 0 <= i < |Split(path[1..], '/')| :: ValidSegment(Split(path[1..], '/')[i])
  }

  /** One more segment: it keeps a prefix a prefix exactly when it is a word of
      letters, digits, dots, underscores, tildes and hyphens, and not a dot or two. */
  lemma PrefixGrows(path: string, seg: string)
    requires '/' !in seg && (path == "" || path[0] == '/')
    ensures ValidPrefix(path + "/" + seg) <==>
      && ValidPrefix(path) && seg !in ["", ".", ".."]
      && forall c | c in seg ::
           'a' <= c <= 'z' || 'A' <= c <= 'Z' || '0' <= c <= '9' || c == '.' || c == '_' || c == '~' || c == '-'
  {
    SplitNone(seg, '/');
    SegmentExactly(seg);
    var all := path + "/" + seg;
    var before: seq<string> := if path == "" then [] else Split(path[1..], '/');
    if path == "" {
      assert all[1..] == seg;
    } else {
      assert all[1..] == path[1..] + ['/'] + seg;
      SplitJoin(path[1..], '/', seg);
    }
    assert Split(all[1..], '/') == before + [seg];
    LastSegment(before, seg);
  }

  lemma LastSegment(parts: seq<string>, seg: string)
    ensures var all := parts + [seg];
      (forall i | 0 <= i < |all| :: ValidSegment(all[i])) ==
      ((forall i | 0 <= i < |parts| :: ValidSegment(parts[i])) && ValidSegment(seg))
  {
    var all := parts + [seg];
    assert all[|parts|] == seg && forall i | 0 <= i < |parts| :: all[i] == parts[i];
  }

  lemma SegmentExactly(seg: string)
    ensures ValidSegment(seg) <==> seg !in ["", ".", ".."] && forall c | c in seg ::
      'a' <= c <= 'z' || 'A' <= c <= 'Z' || '0' <= c <= '9' || c == '.' || c == '_' || c == '~' || c == '-'
  {
    assert forall i | 0 <= i < |seg| :: seg[i] in seg;
  }

  /** gatewayPrefix. */
  method GatewayPrefix(path: string) returns (r: Option<string>)
    ensures r == if ValidPrefix(TrimSlash(path)) then Some(TrimSlash(path)) else None
  {
    var trimmed := TrimSlash(path);
    if trimmed == "" {
      return Some("");
    }
    var segments := Split(trimmed[1..], '/');
    for i := 0 to |segments|
      invariant forall k | 0 <= k < i :: ValidSegment(segments[k])
    {
      var seg := segments[i];
      if seg == "" || seg == "." || seg == ".." {
        return None;
      }
      for j := 0 to |seg|
        invariant forall k | 0 <= k < j :: SegmentChar(seg[k])
      {
        if !SegmentChar(seg[j]) {
          return None;
        }
      }
    }
    return Some(trimmed);
  }

  // ---- entries ----

  /** The text after the scheme, None when the entry cannot be one. */
  function AfterScheme(entry: string): Option<string> {
    var at := SchemeAt(entry);
    if at.Some? then if FoldsToHttps(entry[..at.value]) then Some(entry[at.value+3..]) else None
    else if '/' in entry then None
    else Some(entry)
  }

  function HostOf(rest: string): string {
    if SlashAt(rest).Some? then rest[..SlashAt(rest).value] else rest
  }

  function PathOf(rest: string): string {
    if SlashAt(rest).Some? then rest[SlashAt(rest).value..] else ""
  }

  function Entry(entry: string): Option<Gateway> {
    var rest := AfterScheme(entry);
    if rest.None? || !ValidHost(HostOf(rest.value)) || !ValidPrefix(TrimSlash(PathOf(rest.value))) then None
    else Some(Gateway(Lower(HostOf(rest.value)), TrimSlash(PathOf(rest.value))))
  }

  /** gatewayEntry. */
  method GatewayEntry(entry: string) returns (r: Option<Gateway>)
    ensures r == Entry(entry)
  {
    var rest := entry;
    var at := SchemeAt(entry);
    if at.Some? {
      if !FoldsToHttps(entry[..at.value]) {
        return None;
      }
      rest := entry[at.value+3..];
    } else if '/' in entry {
      return None;
    }
    assert AfterScheme(entry) == Some(rest);
    var host, path := rest, "";
    var slash := SlashAt(rest);
    if slash.Some? {
      host, path := rest[..slash.value], rest[slash.value..];
    }
    assert host == HostOf(rest) && path == PathOf(rest);
    var validHost := IsValidHost(host);
    if !validHost {
      return None;
    }
    var prefix := GatewayPrefix(path);
    if prefix.None? {
      return None;
    }
    return Some(Gateway(Lower(host), prefix.value));
  }

  function Render(g: Gateway): string { "https://" + g.host + g.prefix }

  lemma LowerIsStable(s: string)
    ensures Lower(Lower(s)) == Lower(s) && |Lower(s)| == |s|
    ensures Octet(Lower(s)) ==> Octet(s)
    ensures ValidLabel(s) ==> ValidLabel(Lower(s))
  {
    assert forall i | 0 <= i < |s| :: Digit(LowerChar(s[i])) ==> LowerChar(s[i]) == s[i];
    if Octet(Lower(s)) {
      assert Lower(s) == s;
    }
  }

  lemma LowerIpv4(s: string)
    requires Ipv4(Lower(s))
    ensures Ipv4(s)
  {
    SplitLower(s, '.');
    var parts := Split(s, '.');
    forall i | 0 <= i < |parts| ensures Octet(parts[i]) {
      assert LowerAll(parts)[i] == Lower(parts[i]);
      LowerIsStable(parts[i]);
    }
  }

  lemma LowerHost(s: string)
    requires ValidHost(s)
    ensures ValidHost(Lower(s)) && '/' !in Lower(s)
  {
    SplitLower(s, '.');
    var parts := Split(s, '.');
    forall i | 0 <= i < |parts|
      ensures ValidLabel(Lower(parts[i]))
    {
      LowerIsStable(parts[i]);
    }
    if Ipv4(Lower(s)) {
      LowerIpv4(s);
    }
    if '/' in Lower(s) {
      SplitChars(Lower(s), '.', '/');
    }
  }

  lemma EndsInSlash(path: string)
    requires path != "" && path[|path|-1] == '/'
    ensures !ValidPrefix(path)
  {
    var inner := path[1..];
    if inner != "" {
      var front := inner[..|inner|-1];
      assert inner == front + ['/'] + "";
      SplitJoin(front, '/', "");
    }
    var parts := Split(inner, '/');
    assert parts[|parts|-1] == "" && !ValidSegment(parts[|parts|-1]);
  }

  /** A valid prefix does not end in a slash. */
  lemma PrefixIsTrimmed(path: string)
    requires ValidPrefix(path)
    ensures TrimSlash(path) == path
  {
    if TrimSlash(path) != path {
      EndsInSlash(path);
    }
  }

  lemma {:induction false} FirstSlash(host: string, path: string)
    requires '/' !in host && path != "" && path[0] == '/'
    ensures SlashAt(host + path) == Some(|host|)
  {
    if host == "" {
      assert host + path == path;
    } else {
      assert host[0] in host && forall c | c in host[1..] :: c in host;
      FirstSlash(host[1..], path);
      assert (host + path)[1..] == host[1..] + path;
    }
  }

  lemma SlashSplits(host: string, path: string)
    requires '/' !in host && (path == "" || path[0] == '/')
    ensures HostOf(host + path) == host && PathOf(host + path) == path
  {
    if path == "" {
      assert host + path == host;
    } else {
      FirstSlash(host, path);
    }
  }

  // ---- the grammar of an entry ----

  /** The entry writes this host and prefix: the host alone, or https in any
      case, "://", host and prefix, with one more slash at most. */
  predicate Writes(entry: string, host: string, prefix: string) {
    || (entry == host && prefix == "")
    || (8 <= |entry| && FoldsToHttps(entry[..5]) && entry[5..8] == "://"
        && (entry[8..] == host + prefix || entry[8..] == host + prefix + "/"))
  }

  /** A prefix is empty, or slashes each followed by a plain segment. */
  predicate PlainPrefix(prefix: string) {
    prefix == "" || (prefix[0] == '/' && ValidPrefix(prefix))
  }

  ghost predicate Spells(entry: string, host: string, g: Gateway) {
    ValidHost(host) && PlainPrefix(g.prefix) && g.host == Lower(host) && Writes(entry, host, g.prefix)
  }

  lemma HostHasNoSlash(host: string)
    requires ValidHost(host)
    ensures '/' !in host
  {
    if '/' in host {
      SplitChars(host, '.', '/');
    }
  }

  lemma {:induction false} NoSlashNoScheme(s: string)
    requires '/' !in s
    ensures SchemeAt(s).None?
  {
    if |s| >= 3 {
      assert s[1] in s && s[..3][1] == s[1];
      assert forall c | c in s[1..] :: c in s;
      NoSlashNoScheme(s[1..]);
    }
  }

  lemma {:induction false} SchemeIsThere(s: string)
    ensures SchemeAt(s).Some? ==> s[SchemeAt(s).value..SchemeAt(s).value+3] == "://"
  {
    if |s| >= 3 && s[..3] != "://" {
      SchemeIsThere(s[1..]);
      var rest := SchemeAt(s[1..]);
      if rest.Some? {
        assert s[1..][rest.value..rest.value+3] == s[rest.value+1..rest.value+4];
      }
    }
  }

  /** Nothing before it is a colon, so the scheme ends there. */
  lemma {:induction false} SchemeFound(s: string, n: nat)
    requires n + 3 <= |s| && s[n..n+3] == "://" && forall i | 0 <= i < n :: s[i] != ':'
    ensures SchemeAt(s) == Some(n)
  {
    if n == 0 {
      assert s[..3] == s[0..3];
    } else {
      assert s[..3][0] == s[0];
      assert s[1..][n-1..n+2] == s[n..n+3];
      SchemeFound(s[1..], n - 1);
    }
  }

  lemma TrimmedOnce(prefix: string)
    requires PlainPrefix(prefix)
    ensures TrimSlash(prefix) == prefix && TrimSlash(prefix + "/") == prefix
  {
    PrefixIsTrimmed(prefix);
  }

  lemma BareAfterScheme(entry: string)
    requires '/' !in entry
    ensures AfterScheme(entry) == Some(entry)
  {
    NoSlashNoScheme(entry);
  }

  lemma FoldHasNoColon(scheme: string)
    requires FoldsToHttps(scheme)
    ensures forall i | 0 <= i < 5 :: scheme[i] != ':'
  {
  }

  lemma SchemedAfterScheme(entry: string)
    requires 8 <= |entry| && FoldsToHttps(entry[..5]) && entry[5..8] == "://"
    ensures AfterScheme(entry) == Some(entry[8..])
  {
    FoldHasNoColon(entry[..5]);
    assert forall i | 0 <= i < 5 :: entry[i] == entry[..5][i];
    SchemeFound(entry, 5);
  }

  lemma EntryOf(entry: string, host: string, path: string)
    requires AfterScheme(entry) == Some(host + path) && ValidHost(host) && (path == "" || path[0] == '/')
    requires ValidPrefix(TrimSlash(path))
    ensures Entry(entry) == Some(Gateway(Lower(host), TrimSlash(path)))
  {
    HostHasNoSlash(host);
    SlashSplits(host, path);
  }

  lemma BareIsAccepted(host: string)
    requires ValidHost(host)
    ensures Entry(host) == Some(Gateway(Lower(host), ""))
  {
    HostHasNoSlash(host);
    BareAfterScheme(host);
    assert host + "" == host;
    EntryOf(host, host, "");
  }

  lemma SchemedIsAccepted(entry: string, host: string, path: string)
    requires 8 <= |entry| && FoldsToHttps(entry[..5]) && entry[5..8] == "://" && entry[8..] == host + path
    requires ValidHost(host) && ValidPrefix(TrimSlash(path)) && (path == "" || path[0] == '/')
    ensures Entry(entry) == Some(Gateway(Lower(host), TrimSlash(path)))
  {
    SchemedAfterScheme(entry);
    EntryOf(entry, host, path);
  }

  lemma SpelledIsAccepted(entry: string, host: string, g: Gateway)
    requires Spells(entry, host, g)
    ensures Entry(entry) == Some(g)
  {
    TrimmedOnce(g.prefix);
    if entry == host && g.prefix == "" {
      BareIsAccepted(host);
    } else if entry[8..] == host + g.prefix {
      SchemedIsAccepted(entry, host, g.prefix);
    } else {
      assert host + (g.prefix + "/") == host + g.prefix + "/";
      SchemedIsAccepted(entry, host, g.prefix + "/");
    }
  }

  lemma RestParts(rest: string)
    ensures rest == HostOf(rest) + PathOf(rest) && (PathOf(rest) == "" || PathOf(rest)[0] == '/')
    ensures '/' !in rest ==> HostOf(rest) == rest && PathOf(rest) == ""
  {
  }

  lemma EntryParts(entry: string) returns (host: string, path: string)
    requires Entry(entry).Some?
    ensures AfterScheme(entry) == Some(host + path) && ValidHost(host) && ValidPrefix(TrimSlash(path))
    ensures Entry(entry).value == Gateway(Lower(host), TrimSlash(path))
    ensures path == "" || path[0] == '/'
    ensures SchemeAt(entry).None? ==> path == "" && host == entry
  {
    var rest := AfterScheme(entry).value;
    host, path := HostOf(rest), PathOf(rest);
    RestParts(rest);
  }

  lemma SchemeParts(entry: string)
    requires SchemeAt(entry).Some? && AfterScheme(entry).Some?
    ensures 8 <= |entry| && FoldsToHttps(entry[..5]) && entry[5..8] == "://" && AfterScheme(entry).value == entry[8..]
  {
    SchemeIsThere(entry);
    assert SchemeAt(entry).value == 5;
  }

  lemma TrimsOneSlash(path: string)
    requires path == "" || path[0] == '/'
    ensures path == TrimSlash(path) || path == TrimSlash(path) + "/"
    ensures TrimSlash(path) == "" || TrimSlash(path)[0] == '/'
  {
  }

  lemma WritesSchemed(entry: string, host: string, path: string, prefix: string)
    requires 8 <= |entry| && FoldsToHttps(entry[..5]) && entry[5..8] == "://" && entry[8..] == host + path
    requires path == prefix || path == prefix + "/"
    ensures Writes(entry, host, prefix)
  {
    assert host + (prefix + "/") == host + prefix + "/";
  }

  lemma AcceptedIsSpelled(entry: string) returns (host: string)
    requires Entry(entry).Some?
    ensures Spells(entry, host, Entry(entry).value)
  {
    var path;
    host, path := EntryParts(entry);
    TrimsOneSlash(path);
    if SchemeAt(entry).Some? {
      SchemeParts(entry);
      WritesSchemed(entry, host, path, TrimSlash(path));
    }
  }

  /** An entry is accepted as a gateway exactly when it spells it. */
  lemma EntryExactly(entry: string, g: Gateway)
    ensures Entry(entry) == Some(g) <==> exists host :: Spells(entry, host, g)
  {
    if Entry(entry) == Some(g) {
      var host := AcceptedIsSpelled(entry);
    }
    if host :| Spells(entry, host, g) {
      SpelledIsAccepted(entry, host, g);
    }
  }

  lemma RenderedScheme(rest: string)
    ensures AfterScheme("https://" + rest) == Some(rest)
  {
    var s := "https://" + rest;
    assert s[..5] == "https" && s[5..8] == "://" && s[8..] == rest;
    SchemedAfterScheme(s);
  }

  /** Every accepted gateway is reproduced from its own text. */
  lemma RoundTrip(entry: string)
    requires Entry(entry).Some?
    ensures Entry(Render(Entry(entry).value)) == Entry(entry)
  {
    var rest := AfterScheme(entry).value;
    var g := Entry(entry).value;
    LowerHost(HostOf(rest));
    LowerIsStable(HostOf(rest));
    PrefixIsTrimmed(g.prefix);
    RenderedScheme(g.host + g.prefix);
    assert Render(g) == "https://" + (g.host + g.prefix);
    SlashSplits(g.host, g.prefix);
  }

  // ---- the comma list ----

  predicate Space(c: char) {
    || '\t' <= c <= '\r' || c == ' ' || c == '\U{85}' || c == '\U{A0}' || c == '\U{1680}'
    || '\U{2000}' <= c <= '\U{200A}' || c == '\U{2028}' || c == '\U{2029}' || c == '\U{202F}'
    || c == '\U{205F}' || c == '\U{3000}'
  }

  function TrimSpace(s: string): string {
    if s == "" then ""
    else if Space(s[0]) then TrimSpace(s[1..])
    else if Space(s[|s|-1]) then TrimSpace(s[..|s|-1])
    else s
  }

  ghost predicate AllSpace(s: string) { forall c | c in s :: Space(c) }

  lemma {:induction false} TrimsOff(s: string) returns (left: string, right: string)
    ensures s == left + TrimSpace(s) + right && AllSpace(left) && AllSpace(right)
    ensures TrimSpace(s) != "" ==> !Space(TrimSpace(s)[0]) && !Space(TrimSpace(s)[|TrimSpace(s)|-1])
  {
    left, right := "", "";
    if s != "" {
      if Space(s[0]) {
        left, right := TrimsOff(s[1..]);
        OneInFront(s, left, TrimSpace(s), right);
        left := [s[0]] + left;
      } else if Space(s[|s|-1]) {
        left, right := TrimsOff(s[..|s|-1]);
        OneBehind(s, left, TrimSpace(s), right);
        right := right + [s[|s|-1]];
      }
    }
  }

  lemma OneInFront(s: string, left: string, mid: string, right: string)
    requires s != "" && s[1..] == left + mid + right
    ensures s == ([s[0]] + left) + mid + right
  {
    assert s == [s[0]] + s[1..];
  }

  lemma OneBehind(s: string, left: string, mid: string, right: string)
    requires s != "" && s[..|s|-1] == left + mid + right
    ensures s == left + mid + (right + [s[|s|-1]])
  {
    assert s == s[..|s|-1] + [s[|s|-1]];
  }

  /** The white space of Unicode, by code point. */
  predicate Blank(c: char) {
    (c as int) in {0x09, 0x0A, 0x0B, 0x0C, 0x0D, 0x20, 0x85, 0xA0, 0x1680, 0x2000, 0x2001, 0x2002, 0x2003, 0x2004,
                   0x2005, 0x2006, 0x2007, 0x2008, 0x2009, 0x200A, 0x2028, 0x2029, 0x202F, 0x205F, 0x3000}
  }

  lemma BlankIsSpace(c: char)
    ensures Blank(c) <==> Space(c)
  {
  }

  ghost predicate AllBlank(s: string) { forall c | c in s :: Blank(c) }

  lemma BlanksAreSpaces(s: string)
    ensures AllBlank(s) <==> AllSpace(s)
  {
    forall c ensures Blank(c) <==> Space(c) {
      BlankIsSpace(c);
    }
  }

  /** White space goes from both ends, and nothing else. */
  lemma TrimSpaceExactly(s: string) returns (left: string, right: string)
    ensures s == left + TrimSpace(s) + right && AllBlank(left) && AllBlank(right)
    ensures TrimSpace(s) != "" ==> !Blank(TrimSpace(s)[0]) && !Blank(TrimSpace(s)[|TrimSpace(s)|-1])
  {
    left, right := TrimsOff(s);
    BlanksAreSpaces(left);
    BlanksAreSpaces(right);
    var t := TrimSpace(s);
    if t != "" {
      BlankIsSpace(t[0]);
      BlankIsSpace(t[|t|-1]);
    }
  }

  lemma {:induction false} TrimsRight(s: string, right: string)
    requires s != "" && !Space(s[0]) && !Space(s[|s|-1]) && AllSpace(right)
    ensures TrimSpace(s + right) == s
  {
    var all := s + right;
    if right != "" {
      assert right[|right|-1] in right && all[0] == s[0] && all[|all|-1] == right[|right|-1];
      TrimsRight(s, right[..|right|-1]);
      assert all[..|all|-1] == s + right[..|right|-1];
    } else {
      assert all == s;
    }
  }

  lemma {:induction false} TrimsBoth(left: string, s: string, right: string)
    requires s != "" && !Space(s[0]) && !Space(s[|s|-1]) && AllSpace(left) && AllSpace(right)
    ensures TrimSpace(left + s + right) == s
  {
    var all := left + s + right;
    if left != "" {
      assert left[0] in left && all[0] == left[0];
      TrimsBoth(left[1..], s, right);
      assert all[1..] == left[1..] + s + right;
    } else {
      assert all == s + right;
      TrimsRight(s, right);
    }
  }

  /** The gateways of some parts, and the parts that are none. */
  datatype Parsed = Parsed(entries: seq<Gateway>, malformed: seq<string>)

  function ParsePart(before: Parsed, part: string): Parsed {
    var entry := TrimSpace(part);
    if entry == "" then before
    else if Entry(entry).None? then before.(malformed := before.malformed + [entry])
    else before.(entries := before.entries + [Entry(entry).value])
  }

  function ParseParts(parts: seq<string>): Parsed {
    if parts == [] then Parsed([], []) else ParsePart(ParseParts(parts[..|parts|-1]), parts[|parts|-1])
  }

  function Parse(raw: string): Parsed { ParseParts(Split(raw, ',')) }

  /** ParseGatewayEntries; a notice is modelled by the entry it names. */
  method ParseGatewayEntries(raw: string) returns (entries: seq<Gateway>, malformed: seq<string>)
    ensures Parsed(entries, malformed) == Parse(raw)
  {
    entries, malformed := [], [];
    var parts := Split(raw, ',');
    for i := 0 to |parts|
      invariant Parsed(entries, malformed) == ParseParts(parts[..i])
    {
      assert parts[..i+1][..i] == parts[..i];
      var entry := TrimSpace(parts[i]);
      if entry == "" {
        continue;
      }
      var g := GatewayEntry(entry);
      if g.None? {
        malformed := malformed + [entry];
        continue;
      }
      entries := entries + [g.value];
    }
    assert parts[..|parts|] == parts;
  }

  function Join(p: Parsed, q: Parsed): Parsed {
    Parsed(p.entries + q.entries, p.malformed + q.malformed)
  }

  lemma PartJoin(p: Parsed, q: Parsed, part: string)
    ensures ParsePart(Join(p, q), part) == Join(p, ParsePart(q, part))
  {
    var entry := TrimSpace(part);
    if entry != "" && Entry(entry).Some? {
      assert (p.entries + q.entries) + [Entry(entry).value] == p.entries + (q.entries + [Entry(entry).value]);
    } else {
      assert (p.malformed + q.malformed) + [entry] == p.malformed + (q.malformed + [entry]);
    }
  }

  lemma {:induction false} PartsConcat(a: seq<string>, b: seq<string>)
    ensures ParseParts(a + b) == Join(ParseParts(a), ParseParts(b))
  {
    if b == [] {
      assert a + b == a;
    } else {
      var init, x, all := b[..|b|-1], b[|b|-1], a + b;
      PartsConcat(a, init);
      assert all[..|all|-1] == a + init && all[|all|-1] == x;
      PartJoin(ParseParts(a), ParseParts(init), x);
    }
  }

  /** A comma-joined list parses to the parses of its sides, one after the other:
      a malformed side never spoils the other. */
  lemma ParseJoin(a: string, b: string)
    ensures Parse(a + [','] + b) == Join(Parse(a), Parse(b))
  {
    SplitJoin(a, ',', b);
    PartsConcat(Split(a, ','), Split(b, ','));
  }

  /** One part of the list: white space around it does not count, a gateway is
      approved, a blank part is passed over, and anything else is malformed. */
  lemma ParsePartExactly(raw: string)
    requires ',' !in raw
    ensures TrimSpace(raw) == "" ==> Parse(raw) == Parsed([], [])
    ensures TrimSpace(raw) != "" && Entry(TrimSpace(raw)).None? ==> Parse(raw) == Parsed([], [TrimSpace(raw)])
    ensures TrimSpace(raw) != "" && Entry(TrimSpace(raw)).Some? ==>
      Parse(raw) == Parsed([Entry(TrimSpace(raw)).value], [])
  {
    SplitNone(raw, ',');
    assert [raw][..0] == [];
    assert ParseParts([raw]) == ParsePart(ParseParts([]), raw);
  }

  /** The characters of an entry that can be accepted. */
  predicate EntryChar(c: char) { SegmentChar(c) || c == ':' || c == '/' || c == '\U{17F}' }

  lemma HostChars(host: string)
    requires ValidHost(host)
    ensures host != "" && forall c | c in host :: EntryChar(c)
  {
    forall c | c in host ensures EntryChar(c) {
      if c != '.' {
        SplitChars(host, '.', c);
        var p :| p in Split(host, '.') && c in p;
        assert ValidLabel(p);
      }
    }
  }

  lemma PrefixChars(prefix: string)
    requires PlainPrefix(prefix)
    ensures forall c | c in prefix :: EntryChar(c)
  {
    forall c | c in prefix ensures EntryChar(c) {
      if c != '/' {
        assert c in prefix[1..];
        SplitChars(prefix[1..], '/', c);
        var p :| p in Split(prefix[1..], '/') && c in p;
        assert ValidSegment(p);
      }
    }
  }

  lemma EntryChars(entry: string)
    requires Entry(entry).Some?
    ensures entry != "" && forall c | c in entry :: EntryChar(c)
  {
    var g := Entry(entry).value;
    var host := AcceptedIsSpelled(entry);
    HostChars(host);
    PrefixChars(g.prefix);
    if !(entry == host && g.prefix == "") {
      FoldChars(entry[..5]);
      SpelledChars(entry, host, g.prefix);
    }
  }

  lemma SpelledChars(entry: string, host: string, prefix: string)
    requires 8 <= |entry| && entry[5..8] == "://"
    requires entry[8..] == host + prefix || entry[8..] == host + prefix + "/"
    requires forall c | c in entry[..5] || c in host || c in prefix :: EntryChar(c)
    ensures forall c | c in entry :: EntryChar(c)
  {
    forall c | c in entry ensures EntryChar(c) {
      assert entry == entry[..5] + entry[5..8] + entry[8..];
      if c in entry[5..8] {
        assert c in "://";
      }
    }
  }

  lemma FoldChars(scheme: string)
    requires FoldsToHttps(scheme)
    ensures forall c | c in scheme :: EntryChar(c)
  {
  }

  lemma EntryCharIsNoSpace(c: char)
    requires EntryChar(c)
    ensures !Space(c) && c != ','
  {
  }

  lemma SpaceIsNoComma(s: string)
    requires AllSpace(s)
    ensures ',' !in s
  {
  }

  /** A gateway stays one with any white space around it in the list. */
  lemma SpacedIsApproved(left: string, entry: string, right: string)
    requires Entry(entry).Some? && AllBlank(left) && AllBlank(right)
    ensures Parse(left + entry + right) == Parsed([Entry(entry).value], [])
  {
    EntryChars(entry);
    BlanksAreSpaces(left);
    BlanksAreSpaces(right);
    SpaceIsNoComma(left);
    SpaceIsNoComma(right);
    forall c | c in entry ensures !Space(c) && c != ',' {
      EntryCharIsNoSpace(c);
    }
    assert entry[0] in entry && entry[|entry|-1] in entry;
    TrimsBoth(left, entry, right);
    ParsePartExactly(left + entry + right);
  }

  lemma {:induction false} ParsedHolds(parts: seq<string>)
    ensures forall g | g in ParseParts(parts).entries :: exists entry :: Entry(entry) == Some(g)
  {
    if parts != [] {
      ParsedHolds(parts[..|parts|-1]);
    }
  }

  lemma NoUpperCase(host: string)
    requires Lower(host) == host
    ensures forall c | c in host :: !('A' <= c <= 'Z')
  {
    forall c | c in host ensures !('A' <= c <= 'Z') {
      var i :| 0 <= i < |host| && host[i] == c;
      assert Lower(host)[i] == LowerChar(c);
    }
  }

  lemma AcceptedIsCanonical(entry: string)
    requires Entry(entry).Some?
    ensures var g := Entry(entry).value; ValidHost(g.host) && Lower(g.host) == g.host && ValidPrefix(g.prefix)
  {
    var host := HostOf(AfterScheme(entry).value);
    LowerHost(host);
    LowerIsStable(host);
  }

  /** Every approved gateway's host is a lower-case valid name and, written out,
      is accepted as itself. */
  lemma ApprovedIsCanonical(raw: string, g: Gateway)
    requires g in Parse(raw).entries
    ensures ValidHost(g.host) && Lower(g.host) == g.host && ValidPrefix(g.prefix)
    ensures forall c | c in g.host :: !('A' <= c <= 'Z')
    ensures Entry("https://" + g.host + g.prefix) == Some(g)
  {
    ParsedHolds(Split(raw, ','));
    var entry :| Entry(entry) == Some(g);
    RoundTrip(entry);
    AcceptedIsCanonical(entry);
    NoUpperCase(g.host);
    assert Render(g) == "https://" + g.host + g.prefix;
  }
}
