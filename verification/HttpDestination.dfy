/** Origins of literal URLs. */
module HttpDestination {
  // `urlsplit` is spelled out from the text to its authority and path; what depends on
  // Unicode tables or on the address syntax inside brackets is a parameter.

  import opened Order
  import opened Chars
  import opened Encoding

  /**
   `str.isspace`, `str.upper`, `str.lower`, and whether the checks that `urlsplit` makes
   on an authority (its brackets, its compatibility normal form) pass.
   */
  datatype UrlLib = UrlLib(space: nat -> bool, upper: Text -> Text, lower: Text -> Text, legal: Text -> bool)

  datatype Destination = Destination(verb: Text, origin: Text, path: Text)

  // ------------------------------------------------- texts

  function LStrip(p: nat -> bool, t: Text): Text { if t != [] && p(t[0]) then LStrip(p, t[1..]) else t }

  function RStrip(p: nat -> bool, t: Text): Text { if t != [] && p(t[|t| - 1]) then RStrip(p, t[..|t| - 1]) else t }

  function Strip(p: nat -> bool, t: Text): Text { RStrip(p, LStrip(p, t)) }

  /** Without tabs, newlines and carriage returns. */
  function Clean(t: Text): Text {
    if t == [] then [] else (if t[0] == 9 || t[0] == 10 || t[0] == 13 then [] else [t[0]]) + Clean(t[1..])
  }

  /** The index of the first of the stops, or the length. */
  function Find(t: Text, stops: set<nat>): nat {
    if t == [] || t[0] in stops then 0 else 1 + Find(t[1..], stops)
  }

  function Before(t: Text, stop: nat): Text
    ensures Before(t, stop) <= t
  {
    FindBound(t, {stop});
    t[..Find(t, {stop})]
  }

  /** What follows the first stop; empty without one. */
  function AfterFirst(t: Text, stop: nat): Text
    ensures t != [] ==> |AfterFirst(t, stop)| < |t|
  {
    FindBound(t, {stop});
    var i := Find(t, {stop});
    if i == |t| then [] else t[i + 1..]
  }

  /** What follows the last stop; everything without one. */
  function AfterLast(t: Text, stop: nat): Text
    decreases |t|
  {
    if stop in t then AfterLast(AfterFirst(t, stop), stop) else t
  }

  lemma {:induction false} FindBound(t: Text, stops: set<nat>)
    ensures Find(t, stops) <= |t|
    ensures forall i :: 0 <= i < Find(t, stops) ==> t[i] !in stops
    ensures Find(t, stops) < |t| ==> t[Find(t, stops)] in stops
  {
    if t != [] && t[0] !in stops { FindBound(t[1..], stops); }
  }

  predicate Letter(c: nat) { 65 <= c <= 90 || 97 <= c <= 122 }

  predicate IsControl(c: nat) { c <= 32 }

  predicate IsDot(c: nat) { c == PERIOD }

  predicate Digit(c: nat) { 48 <= c <= 57 }

  predicate SchemeChar(c: nat) { Letter(c) || Digit(c) || c == 43 || c == 45 || c == 46 }

  function AsciiLower(t: Text): Text {
    seq(|t|, i requires 0 <= i < |t| => if 65 <= t[i] <= 90 then t[i] + 32 else t[i])
  }

  // ------------------------------------------------- urlsplit

  datatype Parts = Parts(scheme: Text, netloc: Text, path: Text)

  /** What is split: the text without the leading controls and without line breaks. */
  function Prepared(lib: UrlLib, url: Text): Text { Clean(LStrip(IsControl, Strip(lib.space, url))) }

  predicate HasScheme(u: Text) {
    FindBound(u, {COLON});
    var i := Find(u, {COLON});
    0 < i < |u| && Letter(u[0]) && forall k :: 0 <= k < i ==> SchemeChar(u[k])
  }

  function SplitText(u: Text): Parts {
    FindBound(u, {COLON});
    var i := Find(u, {COLON});
    var scheme, rest := if HasScheme(u) then AsciiLower(u[..i]) else [], if HasScheme(u) then u[i + 1..] else u;
    if |rest| >= 2 && rest[0] == SLASH && rest[1] == SLASH then
      FindBound(rest[2..], {SLASH, QUESTION, HASH});
      var d := Find(rest[2..], {SLASH, QUESTION, HASH});
      Parts(scheme, rest[2..][..d], PathOf(rest[2..][d..]))
    else Parts(scheme, [], PathOf(rest))
  }

  /** The path ends where the query or the fragment begins. */
  function PathOf(t: Text): Text {
    FindBound(t, {QUESTION, HASH});
    t[..Find(t, {QUESTION, HASH})]
  }

  /** The authority without its credentials. */
  function HostInfo(netloc: Text): Text { AfterLast(netloc, AT) }

  function RawHost(info: Text): Text {
    if LBRACKET in info then Before(AfterFirst(info, LBRACKET), RBRACKET) else Before(info, COLON)
  }

  function RawPort(info: Text): Text {
    AfterFirst(if LBRACKET in info then AfterFirst(AfterFirst(info, LBRACKET), RBRACKET) else info, COLON)
  }

  /** `hostname`: lower case up to a zone identifier. */
  function HostName(lib: UrlLib, netloc: Text): Text {
    var host := RawHost(HostInfo(netloc));
    if PERCENT in host then lib.lower(Before(host, PERCENT)) + [PERCENT] + AfterFirst(host, PERCENT)
    else lib.lower(host)
  }

  function Decimal(t: Text): nat
    requires forall c :: c in t ==> Digit(c)
  {
    if t == [] then 0 else
      assert t[|t| - 1] in t && Digit(t[|t| - 1]);
      10 * Decimal(t[..|t| - 1]) + (t[|t| - 1] - 48)
  }

  datatype Port = NoPort | Numbered(number: nat) | BadPort

  function PortOf(netloc: Text): Port {
    var t := RawPort(HostInfo(netloc));
    if t == [] then NoPort
    else if (forall c :: c in t ==> Digit(c)) && Decimal(t) <= 65535 then Numbered(Decimal(t))
    else BadPort
  }

  // ------------------------------------------------- origins

  function DefaultPort(scheme: Text): nat { if scheme == T("http") then 80 else 443 }

  /** The origin of an authority under a supported scheme. */
  function OriginOf(lib: UrlLib, scheme: Text, netloc: Text): Option<Text> {
    if !(scheme == T("http") || scheme == T("https")) || !lib.legal(netloc) || RawHost(HostInfo(netloc)) == [] then None
    else
      var host := RStrip(IsDot, lib.lower(HostName(lib, netloc)));
      if host == [] || PortOf(netloc) == BadPort then None
      else
        var origin := scheme + T("://") + host;
        Some(match PortOf(netloc)
             case Numbered(p) => if p == DefaultPort(scheme) then origin else origin + T(":") + IntText(p)
             case _ => origin)
  }

  datatype Split = Split(origin: Text, path: Text)

  /** `_split_origin`. */
  function SplitOrigin(lib: UrlLib, url: Text): Option<Split> {
    var parts := SplitText(Prepared(lib, url));
    match OriginOf(lib, parts.scheme, parts.netloc)
    case None => None
    case Some(origin) => Some(Split(origin, parts.path))
  }

  function NormalizeMethod(lib: UrlLib, raw: Text): Option<Text> {
    var token := lib.upper(Strip(lib.space, raw));
    if token == [] || exists c :: c in token && !Letter(c) then None else Some(token)
  }

  function Describe(lib: UrlLib, verb: Text, url: Text): Option<Destination> {
    match (NormalizeMethod(lib, verb), SplitOrigin(lib, url))
    case (Some(m), Some(s)) => Some(Destination(m, s.origin, if s.path == [] then [SLASH] else s.path))
    case _ => None
  }

  function DescribeFromLiteralPrefix(lib: UrlLib, verb: Text, prefix: Text): Option<Destination> {
    match (NormalizeMethod(lib, verb), SplitOrigin(lib, prefix))
    case (Some(m), Some(s)) => if s.path == [] then None else Some(Destination(m, s.origin, s.path))
    case _ => None
  }

  // ------------------------------------------------- a text and what follows it

  lemma {:induction false} LStripGrows(p: nat -> bool, t: Text, more: Text)
    requires LStrip(p, t) != []
    ensures LStrip(p, t + more) == LStrip(p, t) + more
  {
    assert t != [] && (t + more)[0] == t[0];
    if p(t[0]) {
      assert (t + more)[1..] == t[1..] + more;
      LStripGrows(p, t[1..], more);
    }
  }

  lemma {:induction false} RStripPrefix(p: nat -> bool, t: Text)
    ensures RStrip(p, t) <= t && (RStrip(p, t) != [] ==> !p(RStrip(p, t)[|RStrip(p, t)| - 1]))
  {
    if t != [] && p(t[|t| - 1]) { RStripPrefix(p, t[..|t| - 1]); }
  }

  lemma {:induction false} RStripKeeps(p: nat -> bool, t: Text, kept: Text)
    requires kept <= t && (kept != [] ==> !p(kept[|kept| - 1]))
    ensures kept <= RStrip(p, t)
  {
    if t != [] && p(t[|t| - 1]) {
      assert kept != t;
      RStripKeeps(p, t[..|t| - 1], kept);
    }
  }

  lemma StripGrows(p: nat -> bool, t: Text, more: Text)
    requires Strip(p, t) != []
    ensures Strip(p, t) <= Strip(p, t + more)
  {
    RStripPrefix(p, LStrip(p, t));
    LStripGrows(p, t, more);
    RStripKeeps(p, LStrip(p, t) + more, Strip(p, t));
  }

  lemma {:induction false} CleanConcat(a: Text, b: Text)
    ensures Clean(a + b) == Clean(a) + Clean(b)
  {
    if a == [] {
      assert a + b == b;
    } else {
      assert (a + b)[1..] == a[1..] + b;
      CleanConcat(a[1..], b);
    }
  }

  /** What is split of a longer text extends what is split of the shorter one. */
  lemma PreparedGrows(lib: UrlLib, url: Text, more: Text)
    requires Prepared(lib, url) != []
    ensures Prepared(lib, url) <= Prepared(lib, url + more)
  {
    var a, b := Strip(lib.space, url), Strip(lib.space, url + more);
    assert a != [];
    StripGrows(lib.space, url, more);
    assert b == a + b[|a|..];
    assert LStrip(IsControl, a) != [];
    LStripGrows(IsControl, a, b[|a|..]);
    CleanConcat(LStrip(IsControl, a), b[|a|..]);
  }

  /** A stop that is found stays where it is. */
  lemma {:induction false} FindGrows(t: Text, more: Text, stops: set<nat>)
    ensures Find(t, stops) < |t| ==> Find(t + more, stops) == Find(t, stops)
    ensures Find(t, stops) <= Find(t + more, stops)
  {
    if t != [] && t[0] !in stops {
      assert (t + more)[1..] == t[1..] + more;
      FindGrows(t[1..], more, stops);
    }
  }

  lemma PathGrows(t: Text, more: Text)
    ensures PathOf(t) <= PathOf(t + more)
  {
    FindBound(t, {QUESTION, HASH});
    FindBound(t + more, {QUESTION, HASH});
    FindGrows(t, more, {QUESTION, HASH});
  }

  lemma SchemeGrows(u: Text, more: Text)
    requires HasScheme(u)
    ensures HasScheme(u + more) && Find(u + more, {COLON}) == Find(u, {COLON}) < |u|
  {
    FindBound(u, {COLON});
    FindBound(u + more, {COLON});
    FindGrows(u, more, {COLON});
  }

  /** An absolute reference: scheme, two slashes, authority, rest. */
  ghost predicate Absolute(u: Text, i: nat, d: nat) {
    && HasScheme(u) && i == Find(u, {COLON}) && i + 3 <= |u| && u[i + 1] == SLASH && u[i + 2] == SLASH
    && d == Find(u[i + 3..], {SLASH, QUESTION, HASH}) <= |u[i + 3..]|
  }

  lemma AbsoluteParts(u: Text, i: nat, d: nat)
    requires Absolute(u, i, d)
    ensures SplitText(u) == Parts(AsciiLower(u[..i]), u[i + 3..][..d], PathOf(u[i + 3..][d..]))
  {
    hide HasScheme, PathOf, AsciiLower, Find;
    assert u[i + 1..][2..] == u[i + 3..];
  }

  lemma IsAbsolute(u: Text) returns (i: nat, d: nat)
    requires SplitText(u).scheme != [] && SplitText(u).netloc != []
    ensures Absolute(u, i, d)
  {
    hide HasScheme, PathOf, AsciiLower, Find;
    FindBound(u, {COLON});
    SchemeInside(u);
    i := Find(u, {COLON});
    assert u[i + 1..][2..] == u[i + 3..];
    FindBound(u[i + 3..], {SLASH, QUESTION, HASH});
    d := Find(u[i + 3..], {SLASH, QUESTION, HASH});
  }

  /** Once a path has begun after an authority, more text changes neither scheme nor authority. */
  lemma SplitGrows(u: Text, more: Text)
    requires SplitText(u).scheme != [] && SplitText(u).netloc != [] && SplitText(u).path != []
    ensures SplitText(u + more).scheme == SplitText(u).scheme && SplitText(u + more).netloc == SplitText(u).netloc
    ensures SplitText(u).path <= SplitText(u + more).path
  {
    hide PathOf, HasScheme, SplitText, Find, AsciiLower;
    var i, d := IsAbsolute(u);
    AbsoluteParts(u, i, d);
    var rest := u[i + 3..];
    PathStarts(rest[d..]);
    SchemeGrows(u, more);
    assert (u + more)[i + 3..] == rest + more && (u + more)[..i] == u[..i];
    FindGrows(rest, more, {SLASH, QUESTION, HASH});
    AbsoluteParts(u + more, i, d);
    assert (rest + more)[..d] == rest[..d] && (rest + more)[d..] == rest[d..] + more;
    PathGrows(rest[d..], more);
  }

  lemma PathStarts(t: Text)
    requires PathOf(t) != []
    ensures t != []
  {
  }

  lemma OriginHasParts(lib: UrlLib, scheme: Text, netloc: Text)
    requires OriginOf(lib, scheme, netloc).Some?
    ensures scheme != [] && netloc != []
  {
  }

  /**
   A destination accepted from a literal prefix has the origin of the prefix followed
   by any text at all, and its path begins the path of that text.
   */
  lemma PrefixDecidesOrigin(lib: UrlLib, verb: Text, prefix: Text, suffix: Text)
    requires DescribeFromLiteralPrefix(lib, verb, prefix).Some?
    ensures var whole := Describe(lib, verb, prefix + suffix);
            var d := DescribeFromLiteralPrefix(lib, verb, prefix).value;
            whole.Some? && whole.value.origin == d.origin && whole.value.verb == d.verb && d.path <= whole.value.path
  {
    hide Prepared, SplitText, OriginOf, NormalizeMethod;
    var u, w := Prepared(lib, prefix), Prepared(lib, prefix + suffix);
    OriginHasParts(lib, SplitText(u).scheme, SplitText(u).netloc);
    NothingToSplit(u);
    PreparedGrows(lib, prefix, suffix);
    assert w == u + w[|u|..];
    SplitGrows(u, w[|u|..]);
  }

  lemma NothingToSplit(u: Text)
    requires SplitText(u).path != []
    ensures u != []
  {
  }

  // ------------------------------------------------- what is left out of an origin

  /** Neither a query nor a fragment is part of the path. */
  lemma PathHasNoQuery(lib: UrlLib, url: Text)
    requires SplitOrigin(lib, url).Some?
    ensures QUESTION !in SplitOrigin(lib, url).value.path && HASH !in SplitOrigin(lib, url).value.path
  {
    hide Prepared, SplitText, OriginOf, PathOf;
    var t := SomePath(Prepared(lib, url));
    PathClean(t);
  }

  lemma PathClean(t: Text)
    ensures QUESTION !in PathOf(t) && HASH !in PathOf(t)
  {
    FindBound(t, {QUESTION, HASH});
  }

  lemma SomePath(u: Text) returns (t: Text)
    ensures SplitText(u).path == PathOf(t)
  {
    hide HasScheme, PathOf;
    FindBound(u, {COLON});
    SchemeInside(u);
    t := if HasScheme(u) then u[Find(u, {COLON}) + 1..] else u;
    if |t| >= 2 && t[0] == SLASH && t[1] == SLASH {
      FindBound(t[2..], {SLASH, QUESTION, HASH});
      t := t[2..][Find(t[2..], {SLASH, QUESTION, HASH})..];
    }
  }

  lemma SchemeInside(u: Text)
    ensures HasScheme(u) ==> Find(u, {COLON}) < |u|
  {
  }

  lemma {:induction false} AfterLastSkips(front: Text, t: Text, stop: nat)
    ensures AfterLast(front + [stop] + t, stop) == AfterLast(t, stop)
    decreases |front|
  {
    hide Find;
    Rejoin(front, stop, t);
    if stop in front {
      FindStays(front, [stop] + t, stop);
      var i := Find(front, {stop});
      RejoinAfter(front, i, stop, t);
      AfterLastSkips(front[i + 1..], t, stop);
    } else {
      FirstStop(front, t, stop);
    }
  }

  lemma Rejoin(front: Text, stop: nat, t: Text)
    ensures front + [stop] + t == front + ([stop] + t) && stop in front + [stop] + t
  {
    assert (front + [stop] + t)[|front|] == stop;
  }

  lemma RejoinAfter(front: Text, i: nat, stop: nat, t: Text)
    requires i < |front|
    ensures (front + [stop] + t)[i + 1..] == front[i + 1..] + [stop] + t
  {
    assert front + [stop] + t == front[..i + 1] + (front[i + 1..] + [stop] + t);
  }

  lemma FindStays(t: Text, more: Text, stop: nat)
    requires stop in t
    ensures Find(t, {stop}) < |t| && Find(t + more, {stop}) == Find(t, {stop})
  {
    FindBound(t, {stop});
    FindGrows(t, more, {stop});
  }

  /** Credentials before the host change nothing about the origin. */
  lemma CredentialsDropped(lib: UrlLib, scheme: Text, credentials: Text, netloc: Text)
    requires lib.legal(netloc) && lib.legal(credentials + [AT] + netloc)
    ensures OriginOf(lib, scheme, credentials + [AT] + netloc) == OriginOf(lib, scheme, netloc)
  {
    hide AfterLast, RawHost, RawPort, Decimal;
    AfterLastSkips(credentials, netloc, AT);
  }

  // ------------------------------------------------- referents

  function Referent(d: Destination): Text { d.verb + [PIPE] + d.origin + [PIPE] + d.path }

  /** `str.split("|")`. */
  function Fields(t: Text): seq<Text> {
    FindBound(t, {PIPE});
    var i := Find(t, {PIPE});
    if i == |t| then [t] else [t[..i]] + Fields(t[i + 1..])
  }

  function ParseReferent(t: Text): Option<Destination> {
    var parts := Fields(t);
    if |parts| != 3 || [] in parts then None else Some(Destination(parts[0], parts[1], parts[2]))
  }

  /** Splitting at the first bar of a joined text. */
  lemma FieldsJoined(a: Text, t: Text)
    requires PIPE !in a
    ensures Fields(a + [PIPE] + t) == [a] + Fields(t)
  {
    var whole := a + [PIPE] + t;
    FindBound(whole, {PIPE});
    FindBound(a, {PIPE});
    FindGrows(a, [PIPE] + t, {PIPE});
    assert whole == a + ([PIPE] + t);
    var i := Find(whole, {PIPE});
    assert whole[|a|] == PIPE;
    assert i == |a|;
    assert whole[..i] == a && whole[i + 1..] == t;
  }

  lemma FieldsAlone(a: Text)
    requires PIPE !in a
    ensures Fields(a) == [a]
  {
    FindBound(a, {PIPE});
  }

  function Bars(t: Text): nat { if t == [] then 0 else Bars(t[1..]) + if t[0] == PIPE then 1 else 0 }

  lemma {:induction false} BarsConcat(a: Text, b: Text)
    ensures Bars(a + b) == Bars(a) + Bars(b)
  {
    if a == [] {
      assert a + b == b;
    } else {
      assert (a + b)[1..] == a[1..] + b;
      BarsConcat(a[1..], b);
    }
  }

  lemma {:induction false} NoBars(t: Text)
    ensures Bars(t) == 0 <==> PIPE !in t
  {
    if t != [] {
      NoBars(t[1..]);
      assert t == [t[0]] + t[1..];
    }
  }

  lemma {:induction false} FieldCount(t: Text)
    ensures |Fields(t)| == Bars(t) + 1
  {
    FindBound(t, {PIPE});
    var i := Find(t, {PIPE});
    if i == |t| {
      NoBars(t);
    } else {
      FieldCount(t[i + 1..]);
      assert t == t[..i] + ([PIPE] + t[i + 1..]);
      BarsConcat(t[..i], [PIPE] + t[i + 1..]);
      NoBars(t[..i]);
    }
  }

  /** No part is empty or holds the delimiter. */
  ghost predicate Storable(d: Destination) {
    d.verb != [] && d.origin != [] && d.path != [] && PIPE !in d.verb && PIPE !in d.origin && PIPE !in d.path
  }

  /** A stored referent parses back to exactly its destination, or to nothing when it is not storable. */
  lemma ReferentRoundTrip(d: Destination)
    ensures ParseReferent(Referent(d)) == if Storable(d) then Some(d) else None
  {
    hide Fields;
    if PIPE in d.verb || PIPE in d.origin || PIPE in d.path {
      TooManyFields(d);
    } else {
      ThreeFields(d);
    }
  }

  lemma ReferentJoin(d: Destination)
    ensures Referent(d) == d.verb + [PIPE] + (d.origin + [PIPE] + d.path)
  {
  }

  lemma ThreeFields(d: Destination)
    requires PIPE !in d.verb && PIPE !in d.origin && PIPE !in d.path
    ensures Fields(Referent(d)) == [d.verb, d.origin, d.path]
  {
    hide Fields, Referent;
    ReferentJoin(d);
    FieldsJoined(d.verb, d.origin + [PIPE] + d.path);
    FieldsJoined(d.origin, d.path);
    FieldsAlone(d.path);
  }

  lemma TooManyFields(d: Destination)
    requires PIPE in d.verb || PIPE in d.origin || PIPE in d.path
    ensures |Fields(Referent(d))| > 3
  {
    hide Fields;
    NoBars(d.verb);
    NoBars(d.origin);
    NoBars(d.path);
    FieldCount(Referent(d));
    BarsConcat(d.verb + [PIPE] + d.origin + [PIPE], d.path);
    BarsConcat(d.verb + [PIPE] + d.origin, [PIPE]);
    BarsConcat(d.verb + [PIPE], d.origin);
    BarsConcat(d.verb, [PIPE]);
    assert Bars([PIPE]) == 1;
  }

  /** A referent that parses is the referent of what it parses to. */
  lemma ParsedIsReferent(t: Text)
    requires ParseReferent(t).Some?
    ensures Referent(ParseReferent(t).value) == t && Storable(ParseReferent(t).value)
  {
    hide Fields;
    var a, rest := FirstField(t);
    var b, last := FirstField(rest);
    var c, none := FirstField(last);
    var d, end := FirstField(none);
    assert PIPE in t && PIPE in rest && PIPE !in last;
    assert Fields(t) == [a, b, last];
    assert a in Fields(t) && b in Fields(t) && last in Fields(t);
    assert t == a + [PIPE] + (b + [PIPE] + last);
  }

  /** The first field and the rest. */
  lemma FirstField(t: Text) returns (a: Text, rest: Text)
    ensures PIPE in t ==> PIPE !in a && t == a + [PIPE] + rest && Fields(t) == [a] + Fields(rest)
    ensures PIPE !in t ==> Fields(t) == [t]
    ensures |Fields(t)| >= 1
  {
    FindBound(t, {PIPE});
    var i := Find(t, {PIPE});
    if i < |t| {
      a, rest := t[..i], t[i + 1..];
    } else {
      a, rest := t, [];
    }
  }

  /**
   A described destination parses back exactly when neither its origin nor its path
   holds the delimiter; its verb never does.
   */
  lemma DescribedRoundTrip(lib: UrlLib, verb: Text, url: Text)
    requires Describe(lib, verb, url).Some?
    ensures var d := Describe(lib, verb, url).value;
            ParseReferent(Referent(d)) == if PIPE !in d.origin && PIPE !in d.path then Some(d) else None
  {
    hide SplitText, Prepared;
    var d := Describe(lib, verb, url).value;
    ReferentRoundTrip(d);
    assert T("://") != [];
    OriginNotEmpty(lib, SplitText(Prepared(lib, url)).scheme, SplitText(Prepared(lib, url)).netloc);
  }

  lemma OriginNotEmpty(lib: UrlLib, scheme: Text, netloc: Text)
    ensures OriginOf(lib, scheme, netloc).Some? ==> OriginOf(lib, scheme, netloc).value != []
  {
    hide HostName, RawHost, HostInfo, PortOf, RStrip;
  }

  // ------------------------------------------------- what an origin identifies

  /** The normalized host. */
  function Host(lib: UrlLib, netloc: Text): Text { RStrip(IsDot, lib.lower(HostName(lib, netloc))) }

  /** The port asked for, or the scheme's own. */
  function EffectivePort(scheme: Text, netloc: Text): nat {
    match PortOf(netloc) case Numbered(p) => p case _ => DefaultPort(scheme)
  }

  function PortSuffix(scheme: Text, port: nat): Text {
    if port == DefaultPort(scheme) then [] else [COLON] + IntText(port)
  }

  lemma OriginForm(lib: UrlLib, scheme: Text, netloc: Text)
    requires OriginOf(lib, scheme, netloc).Some?
    ensures scheme == T("http") || scheme == T("https")
    ensures OriginOf(lib, scheme, netloc).value ==
            scheme + T("://") + (Host(lib, netloc) + PortSuffix(scheme, EffectivePort(scheme, netloc)))
  {
    hide HostName, RawHost, PortOf, RStrip, IntText, HostInfo;
    var origin := scheme + T("://") + Host(lib, netloc);
    assert T(":") == [COLON];
    assert origin + [] == origin;
  }

  lemma SchemesApart(a: Text, b: Text, x: Text, y: Text)
    requires (a == T("http") || a == T("https")) && (b == T("http") || b == T("https"))
    requires a + T("://") + x == b + T("://") + y
    ensures a == b && x == y
  {
    var s, t := a + T("://") + x, b + T("://") + y;
    assert |T("http")| == 4 && |T("https")| == 5 && T("https")[4] == 115 && T("://")[0] == COLON && |T("://")| == 3;
    assert s[4] == if a == T("http") then COLON else 115;
    assert t[4] == if b == T("http") then COLON else 115;
    assert a == b;
    assert s[|a| + 3..] == x && t[|b| + 3..] == y;
  }

  lemma {:induction false} StopAt(a: Text, x: Text, stop: nat)
    requires stop !in a && (x == [] || x[0] == stop)
    ensures Find(a + x, {stop}) == |a|
  {
    if a == [] {
      assert a + x == x;
    } else {
      assert (a + x)[1..] == a[1..] + x && (a + x)[0] == a[0];
      StopAt(a[1..], x, stop);
    }
  }

  lemma {:induction false} DigitsOnly(n: nat, c: nat)
    requires !Digit(c)
    ensures c !in IntText(n)
  {
  }

  /** The last place in the text where a colon stands. */
  ghost predicate LastColon(t: Text, i: nat) {
    i < |t| && t[i] == COLON && forall j :: i < j < |t| ==> t[j] != COLON
  }

  lemma LastColonHere(a: Text, x: Text)
    requires COLON !in x
    ensures LastColon(a + ([COLON] + x), |a|)
  {
    var t := a + ([COLON] + x);
    forall j | |a| < j < |t| ensures t[j] != COLON {
      assert t[j] == x[j - |a| - 1];
    }
  }

  /** A text splits in one way at its last colon. */
  lemma LastColonSplits(a: Text, b: Text, x: Text, y: Text)
    requires COLON !in x && COLON !in y && a + ([COLON] + x) == b + ([COLON] + y)
    ensures a == b && x == y
  {
    LastColonHere(a, x);
    LastColonHere(b, y);
    SplitHere(a, COLON, x);
    SplitHere(b, COLON, y);
  }

  /** The host of a service on its scheme's own port spells another host and its port. */
  predicate Absorbs(scheme: Text, host: Text, port: nat, other: Text, otherPort: nat) {
    port == DefaultPort(scheme) && otherPort != DefaultPort(scheme) && host == other + ([COLON] + IntText(otherPort))
  }

  /** Host and port are written alike by equal services and by a host that spells the other. */
  lemma WrittenAlike(scheme: Text, h: Text, p: nat, k: Text, q: nat)
    ensures h + PortSuffix(scheme, p) == k + PortSuffix(scheme, q) <==>
            (h == k && p == q) || Absorbs(scheme, h, p, k, q) || Absorbs(scheme, k, q, h, p)
  {
    hide IntText;
    assert h + [] == h && k + [] == k;
    if p != DefaultPort(scheme) && q != DefaultPort(scheme) && h + PortSuffix(scheme, p) == k + PortSuffix(scheme, q) {
      DigitsOnly(p, COLON);
      DigitsOnly(q, COLON);
      LastColonSplits(h, k, IntText(p), IntText(q));
      IntTextInjective(p, q);
    }
  }

  lemma OriginsShared(lib: UrlLib, scheme: Text, netloc: Text, scheme': Text, netloc': Text)
    requires OriginOf(lib, scheme, netloc).Some? && OriginOf(lib, scheme', netloc').Some?
    ensures OriginOf(lib, scheme, netloc) == OriginOf(lib, scheme', netloc') <==>
            && scheme == scheme'
            && Host(lib, netloc) + PortSuffix(scheme, EffectivePort(scheme, netloc))
               == Host(lib, netloc') + PortSuffix(scheme', EffectivePort(scheme', netloc'))
  {
    hide OriginOf, Host, EffectivePort, PortSuffix, T;
    OriginForm(lib, scheme, netloc);
    OriginForm(lib, scheme', netloc');
    var x := Host(lib, netloc) + PortSuffix(scheme, EffectivePort(scheme, netloc));
    var y := Host(lib, netloc') + PortSuffix(scheme', EffectivePort(scheme', netloc'));
    if OriginOf(lib, scheme, netloc) == OriginOf(lib, scheme', netloc') {
      SchemesApart(scheme, scheme', x, y);
    }
  }

  /**
   Two authorities share an origin exactly when they name the same service, or when the
   host of one spells the host of the other together with a port that is not the default.
   */
  lemma OriginsCollideExactly(lib: UrlLib, scheme: Text, netloc: Text, scheme': Text, netloc': Text)
    requires OriginOf(lib, scheme, netloc).Some? && OriginOf(lib, scheme', netloc').Some?
    ensures var h, k := Host(lib, netloc), Host(lib, netloc');
            var p, q := EffectivePort(scheme, netloc), EffectivePort(scheme', netloc');
            OriginOf(lib, scheme, netloc) == OriginOf(lib, scheme', netloc') <==>
            scheme == scheme' && ((h == k && p == q) || Absorbs(scheme, h, p, k, q) || Absorbs(scheme, k, q, h, p))
  {
    hide OriginOf, Host, EffectivePort, PortSuffix, Absorbs;
    OriginsShared(lib, scheme, netloc, scheme', netloc');
    var h, k := Host(lib, netloc), Host(lib, netloc');
    WrittenAlike(scheme, h, EffectivePort(scheme, netloc), k, EffectivePort(scheme', netloc'));
  }

  /** For hosts without a colon the origin is the service: equal exactly for equal scheme, host and effective port. */
  lemma OriginDecidesService(lib: UrlLib, scheme: Text, netloc: Text, scheme': Text, netloc': Text)
    requires OriginOf(lib, scheme, netloc).Some? && OriginOf(lib, scheme', netloc').Some?
    requires COLON !in Host(lib, netloc) && COLON !in Host(lib, netloc')
    ensures OriginOf(lib, scheme, netloc) == OriginOf(lib, scheme', netloc') <==>
            && scheme == scheme' && Host(lib, netloc) == Host(lib, netloc')
            && EffectivePort(scheme, netloc) == EffectivePort(scheme', netloc')
  {
    hide OriginOf, Host, EffectivePort, IntText;
    OriginsCollideExactly(lib, scheme, netloc, scheme', netloc');
    var h, k := Host(lib, netloc), Host(lib, netloc');
    SplitHere(k, COLON, IntText(EffectivePort(scheme', netloc')));
    SplitHere(h, COLON, IntText(EffectivePort(scheme, netloc)));
  }

  /** A host with colons loses its brackets, so two services can share an origin: `[::1]:8` and `[::1:8]`. */
  lemma BracketsCollide(lib: UrlLib)
    requires lib.legal(T("[::1]:8")) && lib.legal(T("[::1:8]"))
    requires lib.lower(T("::1")) == T("::1") && lib.lower(T("::1:8")) == T("::1:8")
    ensures OriginOf(lib, T("http"), T("[::1]:8")) == OriginOf(lib, T("http"), T("[::1:8]")) == Some(T("http://::1:8"))
  {
    hide OriginOf;
    AddressWithPort(lib);
    AddressAlone(lib);
  }

  lemma AddressWithPort(lib: UrlLib)
    requires lib.legal(T("[::1]:8")) && lib.lower(T("::1")) == T("::1")
    ensures OriginOf(lib, T("http"), T("[::1]:8")) == Some(T("http://::1:8"))
  {
    hide OriginOf, PortOf, RawHost, RawPort, HostInfo, IntText, Decimal;
    PlainAuthority(T("::1"), T(":8"), [56]);
    PortEight();
    PortTexts([LBRACKET] + T("::1") + [RBRACKET] + T(":8"), [56]);
    assert T("[::1]:8") == [LBRACKET] + T("::1") + [RBRACKET] + T(":8");
    OriginWhen(lib, T("[::1]:8"), T("::1"));
    assert T("http") + T("://") + T("::1") + T(":") + [56] == T("http://::1:8");
  }

  lemma AddressAlone(lib: UrlLib)
    requires lib.legal(T("[::1:8]")) && lib.lower(T("::1:8")) == T("::1:8")
    ensures OriginOf(lib, T("http"), T("[::1:8]")) == Some(T("http://::1:8"))
  {
    hide OriginOf, PortOf, RawHost, RawPort, HostInfo, IntText, Decimal;
    PlainAuthority(T("::1:8"), [], []);
    PortTexts([LBRACKET] + T("::1:8") + [RBRACKET] + [], []);
    assert T("[::1:8]") == [LBRACKET] + T("::1:8") + [RBRACKET] + [];
    OriginWhen(lib, T("[::1:8]"), T("::1:8"));
    assert T("http") + T("://") + T("::1:8") == T("http://::1:8");
  }

  lemma PortEight()
    ensures (forall c :: c in [56] ==> Digit(c)) && Decimal([56]) == 8 && IntText(8) == [56]
  {
    assert [56][..0] == [] && Decimal([]) == 0;
  }

  lemma PortTexts(netloc: Text, port: Text)
    requires RawPort(HostInfo(netloc)) == port && forall c :: c in port ==> Digit(c)
    ensures port == [] ==> PortOf(netloc) == NoPort
    ensures port != [] && Decimal(port) <= 65535 ==> PortOf(netloc) == Numbered(Decimal(port))
  {
    hide RawPort, HostInfo, Decimal;
  }

  lemma OriginWhen(lib: UrlLib, netloc: Text, host: Text)
    requires lib.legal(netloc) && RawHost(HostInfo(netloc)) == host && host != [] && PERCENT !in host
    requires lib.lower(host) == host && host[|host| - 1] != PERIOD && PortOf(netloc) != BadPort
    ensures var origin := T("http") + T("://") + host;
            OriginOf(lib, T("http"), netloc) ==
            Some(match PortOf(netloc)
                 case Numbered(p) => if p == 80 then origin else origin + T(":") + IntText(p)
                 case _ => origin)
  {
    hide RawHost, HostInfo, PortOf, IntText, T;
  }

  /** A bracketed authority without credentials. */
  lemma PlainAuthority(host: Text, rest: Text, port: Text)
    requires RBRACKET !in host && AT !in host && AT !in rest
    requires port == if rest == [] then [] else rest[1..]
    requires rest == [] || rest[0] == COLON
    ensures var netloc := [LBRACKET] + host + [RBRACKET] + rest;
            RawHost(HostInfo(netloc)) == host && RawPort(HostInfo(netloc)) == port
  {
    hide RawHost, RawPort, AfterLast;
    var netloc := [LBRACKET] + host + [RBRACKET] + rest;
    NoCredentials(netloc);
    Bracketed(host, rest);
    assert rest != [] ==> Find(rest, {COLON}) == 0;
  }

  lemma NoCredentials(netloc: Text)
    requires AT !in netloc
    ensures HostInfo(netloc) == netloc
  {
  }

  /** The host and the rest of a bracketed authority. */
  lemma Bracketed(host: Text, rest: Text)
    requires RBRACKET !in host
    ensures var info := [LBRACKET] + host + [RBRACKET] + rest;
            RawHost(info) == host && RawPort(info) == AfterFirst(rest, COLON)
  {
    var info := [LBRACKET] + host + [RBRACKET] + rest;
    assert info[0] == LBRACKET && Find(info, {LBRACKET}) == 0;
    assert AfterFirst(info, LBRACKET) == host + ([RBRACKET] + rest);
    FirstStop(host, rest, RBRACKET);
  }

  lemma FirstStop(a: Text, rest: Text, stop: nat)
    requires stop !in a
    ensures Find(a + ([stop] + rest), {stop}) == |a|
    ensures Before(a + ([stop] + rest), stop) == a && AfterFirst(a + ([stop] + rest), stop) == rest
  {
    StopAt(a, [stop] + rest, stop);
    SplitHere(a, stop, rest);
  }

  lemma SplitHere(a: Text, stop: nat, rest: Text)
    ensures (a + ([stop] + rest))[..|a|] == a && (a + ([stop] + rest))[|a| + 1..] == rest
    ensures (a + ([stop] + rest))[|a|] == stop
  {
  }

  // ------------------------------------------------- the delimiter in an origin

  /** An origin holds the delimiter exactly when its host does. */
  lemma BarInOriginExactly(lib: UrlLib, scheme: Text, netloc: Text)
    requires OriginOf(lib, scheme, netloc).Some?
    ensures PIPE in OriginOf(lib, scheme, netloc).value <==> PIPE in Host(lib, netloc)
  {
    hide OriginOf, Host, EffectivePort, IntText, T;
    OriginForm(lib, scheme, netloc);
    NoBarInScheme(scheme);
    DigitsOnly(EffectivePort(scheme, netloc), PIPE);
    var suffix := PortSuffix(scheme, EffectivePort(scheme, netloc));
    assert PIPE !in suffix;
    assert PIPE in scheme + T("://") + (Host(lib, netloc) + suffix) <==> PIPE in Host(lib, netloc);
  }

  lemma NoBarInScheme(scheme: Text)
    requires scheme == T("http") || scheme == T("https")
    ensures PIPE !in scheme && PIPE !in T("://")
  {
  }

  /** A described destination parses back exactly when neither the host nor the path of its URL holds the delimiter. */
  lemma ParsesBackExactly(lib: UrlLib, verb: Text, url: Text)
    requires Describe(lib, verb, url).Some?
    ensures var parts := SplitText(Prepared(lib, url));
            var d := Describe(lib, verb, url).value;
            ParseReferent(Referent(d)) ==
            if PIPE !in Host(lib, parts.netloc) && PIPE !in parts.path then Some(d) else None
  {
    hide SplitText, Prepared, OriginOf, Host, ParseReferent, Referent, NormalizeMethod;
    var parts := SplitText(Prepared(lib, url));
    DescribedRoundTrip(lib, verb, url);
    BarInOriginExactly(lib, parts.scheme, parts.netloc);
  }

  /** A text without white space, controls and line breaks is split as it stands. */
  lemma {:induction false} CleanText(t: Text)
    requires forall c :: c in t ==> c > 32
    ensures Clean(t) == t
  {
    if t != [] {
      assert t[0] in t && t == [t[0]] + t[1..];
      assert forall c :: c in t[1..] ==> c in t;
      CleanText(t[1..]);
    }
  }

  lemma PreparedAsIs(lib: UrlLib, url: Text)
    requires url != [] && forall c :: c in url ==> c > 32 && !lib.space(c)
    ensures Prepared(lib, url) == url
  {
    assert url[0] in url && url[|url| - 1] in url;
    CleanText(url);
  }

  /** An absolute URL without a path. */
  lemma PlainSplit(netloc: Text)
    requires COLON !in netloc && SLASH !in netloc && QUESTION !in netloc && HASH !in netloc
    ensures SplitText(T("http://") + netloc) == Parts(T("http"), netloc, [])
  {
    hide HasScheme, PathOf, Find, SplitText;
    var u := T("http://") + netloc;
    assert u == T("http") + ([COLON] + ([SLASH, SLASH] + netloc));
    HttpScheme([SLASH, SLASH] + netloc);
    assert u[5] == SLASH && u[6] == SLASH && u[7..] == netloc && u[..4] == T("http");
    assert netloc[..|netloc|] == netloc && netloc[|netloc|..] == [];
    NoStop(netloc);
    AbsoluteParts(u, 4, |netloc|);
    LowerHttp();
    NoPath();
  }

  lemma HttpScheme(rest: Text)
    ensures var u := T("http") + ([COLON] + rest);
            HasScheme(u) && Find(u, {COLON}) == 4
  {
    FirstStop(T("http"), rest, COLON);
    var u := T("http") + ([COLON] + rest);
    assert u[0] == 104 && u[1] == 116 && u[2] == 116 && u[3] == 112;
  }

  lemma NoStop(t: Text)
    requires SLASH !in t && QUESTION !in t && HASH !in t
    ensures Find(t, {SLASH, QUESTION, HASH}) == |t|
  {
    FindBound(t, {SLASH, QUESTION, HASH});
  }

  lemma LowerHttp()
    ensures AsciiLower(T("http")) == T("http")
  {
  }

  lemma NoPath()
    ensures PathOf([]) == []
  {
  }

  /** The URL `http://a|b` is described with the delimiter in its origin, and its referent does not parse back. */
  lemma BarInOrigin(lib: UrlLib)
    requires forall c :: c in T("http://a|b") + T("GET") ==> !lib.space(c)
    requires lib.upper(T("GET")) == T("GET") && lib.legal(T("a|b")) && lib.lower(T("a|b")) == T("a|b")
    ensures Describe(lib, T("GET"), T("http://a|b")) == Some(Destination(T("GET"), T("http://a|b"), [SLASH]))
    ensures ParseReferent(Referent(Destination(T("GET"), T("http://a|b"), [SLASH]))) == None
  {
    hide SplitText, Prepared, OriginOf, ParseReferent, Referent, Host;
    var url, host := T("http://a|b"), T("a|b");
    assert url == T("http://") + host && host == [97, PIPE, 98];
    PreparedAsIs(lib, url);
    PlainSplit(host);
    BarHost(lib);
    GetIsAVerb(lib);
    ReferentRoundTrip(Destination(T("GET"), url, [SLASH]));
    assert url[8] == PIPE;
  }

  lemma GetIsAVerb(lib: UrlLib)
    requires lib.upper(T("GET")) == T("GET") && forall c :: c in T("GET") ==> !lib.space(c)
    ensures NormalizeMethod(lib, T("GET")) == Some(T("GET"))
  {
    assert T("GET") == [71, 69, 84];
    assert T("GET")[0] in T("GET") && T("GET")[2] in T("GET");
  }

  lemma BarHost(lib: UrlLib)
    requires lib.legal([97, PIPE, 98]) && lib.lower([97, PIPE, 98]) == [97, PIPE, 98]
    ensures OriginOf(lib, T("http"), [97, PIPE, 98]) == Some(T("http://a|b"))
  {
    var h: Text := [97, PIPE, 98];
    FindBound(h, {COLON});
    assert Before(h, COLON) == h;
    assert HostInfo(h) == h && RawHost(h) == h && RawPort(h) == [];
    assert RStrip(IsDot, h) == h;
    assert T("http") + T("://") + h == T("http://a|b");
  }
}
