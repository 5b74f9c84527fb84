/** URLs as they are written, and what is described of them. */
module WrittenUrls {
  // A URL is put together from its parts as section 3 of RFC 3986 writes it; what is
  // described of the text is a function of the parts.

  import opened Order
  import opened Chars
  import opened Encoding
  import opened HttpDestination

  /** A registered name, or an address between brackets. */
  datatype HostText = Name(text: Text) | Address(text: Text)

  /** The parts of a URL; `tail` is the query and the fragment with their delimiters. */
  datatype Url = Url(scheme: Text, credentials: Option<Text>, host: HostText, port: Option<nat>, path: Text, tail: Text)

  function PortText(port: Option<nat>): Text { match port case None => [] case Some(n) => T(":") + IntText(n) }

  function HostPort(u: Url): Text {
    (match u.host case Name(t) => t case Address(t) => T("[") + t + T("]")) + PortText(u.port)
  }

  function Authority(u: Url): Text {
    (match u.credentials case None => [] case Some(c) => c + T("@")) + HostPort(u)
  }

  function Written(u: Url): Text { u.scheme + T("://") + Authority(u) + u.path + u.tail }

  predicate Without(t: Text, stops: string) { forall c :: c in t ==> c !in T(stops) }

  predicate Between(c: nat, low: char, high: char) { low as nat <= c <= high as nat }

  /** The parts are where their delimiters say. */
  ghost predicate WellWritten(u: Url) {
    && u.scheme != [] && (forall c :: c in u.scheme ==> Between(c, 'a', 'z') || Between(c, 'A', 'Z'))
    && (u.credentials.Some? ==> Without(u.credentials.value, "/?#"))
    && u.host.text != [] && Without(u.host.text, "/?#@%") && Without(u.host.text, if u.host.Name? then ":[]" else "]")
    && (u.path == [] || u.path[0] == '/' as nat) && Without(u.path, "?#")
    && (u.tail == [] || u.tail[0] in T("?#"))
  }

  /** The same letters, in lower case. */
  ghost predicate LowerOf(lower: Text, t: Text) {
    && |lower| == |t|
    && forall i :: 0 <= i < |t| ==> lower[i] == if Between(t[i], 'A', 'Z') then t[i] + 32 else t[i]
  }

  // ------------------------------------------------- finding the parts again

  /** The first stop is right after a text without stops. */
  lemma {:induction false} StopAfter(a: Text, x: Text, stops: set<nat>)
    requires (forall c :: c in a ==> c !in stops) && (x == [] || x[0] in stops)
    ensures Find(a + x, stops) == |a|
  {
    if a == [] {
      assert a + x == x;
    } else {
      assert (a + x)[1..] == a[1..] + x && (a + x)[0] == a[0] && a[0] in a;
      StopAfter(a[1..], x, stops);
    }
  }

  lemma Delimiters()
    ensures T("/?#") == [SLASH, QUESTION, HASH] && T("?#") == [QUESTION, HASH] && T("://") == [COLON, SLASH, SLASH]
    ensures T("/?#@%") == [SLASH, QUESTION, HASH, AT, PERCENT] && T(":[]") == [COLON, LBRACKET, RBRACKET]
    ensures T("]") == [RBRACKET] && T("[") == [LBRACKET] && T(":") == [COLON] && T("@") == [AT]
  {
  }

  lemma SchemeSplits(u: Url, rest: Text)
    requires WellWritten(u)
    ensures var t := u.scheme + ([COLON] + rest); HasScheme(t) && Find(t, {COLON}) == |u.scheme|
  {
    hide Without;
    var t := u.scheme + ([COLON] + rest);
    StopAfter(u.scheme, [COLON] + rest, {COLON});
    assert u.scheme[0] in u.scheme && t[0] == u.scheme[0];
    forall k | 0 <= k < |u.scheme| ensures SchemeChar(t[k]) { assert t[k] == u.scheme[k] && u.scheme[k] in u.scheme; }
  }

  lemma AuthorityPlain(u: Url)
    requires WellWritten(u)
    ensures forall c :: c in Authority(u) ==> c !in {SLASH, QUESTION, HASH}
  {
    hide IntText;
    Delimiters();
    if u.port.Some? {
      DigitsOnly(u.port.value, SLASH);
      DigitsOnly(u.port.value, QUESTION);
      DigitsOnly(u.port.value, HASH);
    }
  }

  lemma PathEnds(u: Url)
    requires WellWritten(u)
    ensures PathOf(u.path + u.tail) == u.path
    ensures u.path + u.tail == [] || (u.path + u.tail)[0] in {SLASH, QUESTION, HASH}
  {
    Delimiters();
    FindBound(u.path + u.tail, {QUESTION, HASH});
    StopAfter(u.path, u.tail, {QUESTION, HASH});
  }

  /** The text of a URL around its authority. */
  lemma WrittenForm(u: Url)
    ensures var i, rest := |u.scheme|, Authority(u) + (u.path + u.tail);
            var w := Written(u);
            && w == u.scheme + ([COLON] + ([SLASH, SLASH] + rest)) && i + 3 <= |w|
            && w[..i] == u.scheme && w[i + 1] == SLASH && w[i + 2] == SLASH && w[i + 3..] == rest
  {
    hide Authority;
    Delimiters();
    var rest := Authority(u) + (u.path + u.tail);
    assert Written(u) == u.scheme + ([COLON] + ([SLASH, SLASH] + rest));
  }

  /** The authority ends where the path, the query or the fragment begins. */
  lemma AuthorityEnds(u: Url)
    requires WellWritten(u)
    ensures var a, r := Authority(u), u.path + u.tail;
            && Find(a + r, {SLASH, QUESTION, HASH}) == |a| && (a + r)[..|a|] == a && PathOf((a + r)[|a|..]) == u.path
  {
    hide WellWritten, Authority, PathOf, Find;
    var a, r := Authority(u), u.path + u.tail;
    AuthorityPlain(u);
    PathEnds(u);
    StopAfter(a, r, {SLASH, QUESTION, HASH});
    assert (a + r)[..|a|] == a && (a + r)[|a|..] == r;
  }

  /** The text splits into the parts it was put together from. */
  lemma WrittenSplits(u: Url, lower: Text)
    requires WellWritten(u) && LowerOf(lower, u.scheme)
    ensures SplitText(Written(u)) == Parts(lower, Authority(u), u.path)
  {
    hide HasScheme, PathOf, Find, SplitText, WellWritten, Authority, Written;
    WrittenForm(u);
    SchemeSplits(u, [SLASH, SLASH] + (Authority(u) + (u.path + u.tail)));
    AuthorityEnds(u);
    AbsoluteParts(Written(u), |u.scheme|, |Authority(u)|);
    assert AsciiLower(u.scheme) == lower;
  }

  /** The number that digits spell. */
  lemma {:induction false} DecimalOfDigits(n: nat)
    ensures (forall c :: c in Digits(n) ==> Digit(c)) && Decimal(Digits(n)) == n
  {
    if n < 10 {
      assert [48 + n][..0] == [] && Decimal([]) == 0;
    } else {
      DecimalOfDigits(n / 10);
      var t := Digits(n);
      assert t[..|t| - 1] == Digits(n / 10);
    }
  }

  function PortDigits(port: Option<nat>): Text { match port case None => [] case Some(n) => IntText(n) }

  lemma PortTexts(port: Option<nat>)
    ensures PortText(port) == if PortDigits(port) == [] then [] else [COLON] + PortDigits(port)
    ensures AT !in PortText(port) && LBRACKET !in PortText(port)
  {
    Delimiters();
    if port.Some? {
      DigitsOnly(port.value, AT);
      DigitsOnly(port.value, LBRACKET);
    }
  }

  lemma HostPortForms(u: Url)
    requires WellWritten(u)
    ensures u.host.Name? ==> HostPort(u) == u.host.text + PortText(u.port)
    ensures u.host.Address? ==> HostPort(u) == [LBRACKET] + u.host.text + [RBRACKET] + PortText(u.port)
    ensures u.host.Name? ==> LBRACKET !in u.host.text && COLON !in u.host.text
    ensures u.host.Address? ==> RBRACKET !in u.host.text
    ensures AT !in HostPort(u)
    ensures Authority(u) == if u.credentials.Some? then u.credentials.value + [AT] + HostPort(u) else HostPort(u)
  {
    hide PortText;
    Delimiters();
    PortTexts(u.port);
  }

  lemma HostPortParts(u: Url)
    requires WellWritten(u)
    ensures HostInfo(Authority(u)) == HostPort(u) && RawHost(HostPort(u)) == u.host.text
    ensures RawPort(HostPort(u)) == PortDigits(u.port)
  {
    hide AfterLast, PortDigits, PortText, Find, RawHost, RawPort, WellWritten, HostPort, Authority;
    HostPortForms(u);
    PortTexts(u.port);
    NoCredentials(HostPort(u));
    if u.credentials.Some? { AfterLastSkips(u.credentials.value, HostPort(u), AT); }
    PortAfterColon(PortText(u.port), PortDigits(u.port));
    match u.host
    case Address(t) => Bracketed(t, PortText(u.port));
    case Name(t) => NamedHost(t, PortText(u.port));
  }

  lemma PortAfterColon(port: Text, digits: Text)
    requires port == if digits == [] then [] else [COLON] + digits
    ensures AfterFirst(port, COLON) == digits
  {
    FindBound(port, {COLON});
  }

  lemma NamedHost(t: Text, port: Text)
    requires LBRACKET !in t && LBRACKET !in port && COLON !in t && (port == [] || port[0] == COLON)
    ensures RawHost(t + port) == t && RawPort(t + port) == AfterFirst(port, COLON)
  {
    StopAfter(t, port, {COLON});
    FindBound(t + port, {COLON});
    if port != [] {
      assert t + port == t + ([COLON] + port[1..]);
      FirstStop(t, port[1..], COLON);
      assert Find(port, {COLON}) == 0;
    }
  }

  lemma {:induction false} DotsStripped(h: Text, dots: Text)
    requires h != [] && h[|h| - 1] != PERIOD && forall c :: c in dots ==> c == PERIOD
    ensures RStrip(IsDot, h + dots) == h
  {
    if dots != [] {
      var init := dots[..|dots| - 1];
      assert (h + dots)[..|h + dots| - 1] == h + init && dots[|dots| - 1] in dots;
      assert forall c :: c in init ==> c in dots;
      DotsStripped(h, init);
    } else {
      assert h + dots == h;
    }
  }

  /** The host of a written authority: in lower case, and of an address with a zone only the part before `%`. */
  lemma WrittenHost(lib: UrlLib, u: Url, address: Text, zone: Text)
    requires u.host.text == address + T("%") + zone && Without(address, "%")
    requires WellWritten(u.(host := Address(address))) && u.host.Address? && Without(u.host.text, "/?#@]")
    ensures HostName(lib, Authority(u)) == lib.lower(address) + T("%") + zone
  {
    hide AfterLast, PortText, Find, RawHost, RawPort, HostPort, Authority, T;
    ZonedForms(u, address, zone);
    NoCredentials(HostPort(u));
    if u.credentials.Some? { AfterLastSkips(u.credentials.value, HostPort(u), AT); }
    Bracketed(u.host.text, PortText(u.port));
    assert address + [PERCENT] + zone == address + ([PERCENT] + zone);
    FirstStop(address, zone, PERCENT);
    assert (address + ([PERCENT] + zone))[|address|] == PERCENT;
  }

  lemma ZonedForms(u: Url, address: Text, zone: Text)
    requires u.host.text == address + T("%") + zone && Without(address, "%") && u.host.Address?
    requires Without(u.host.text, "/?#@]")
    ensures T("%") == [PERCENT] && PERCENT !in address && RBRACKET !in u.host.text && AT !in HostPort(u)
    ensures HostPort(u) == [LBRACKET] + u.host.text + [RBRACKET] + PortText(u.port)
    ensures Authority(u) == if u.credentials.Some? then u.credentials.value + [AT] + HostPort(u) else HostPort(u)
  {
    hide PortText;
    Delimiters();
    PortTexts(u.port);
    assert T("%") == [PERCENT] && T("/?#@]") == [SLASH, QUESTION, HASH, AT, RBRACKET];
  }

  // ------------------------------------------------- what is described

  /** The port is written in an origin unless it is the scheme's own. */
  function OriginPort(scheme: Text, port: Option<nat>): Text {
    if port == None || (scheme == T("http") && port.value == 80) || (scheme == T("https") && port.value == 443) then []
    else PortText(port)
  }

  /** The origin of a written authority: scheme, host in lower case without trailing dots, port. */
  lemma WrittenOrigin(lib: UrlLib, u: Url, scheme: Text, h: Text, dots: Text)
    requires WellWritten(u) && lib.legal(Authority(u))
    requires lib.lower(u.host.text) == h + dots && lib.lower(h + dots) == h + dots
    requires h != [] && h[|h| - 1] != '.' as nat && forall c :: c in dots ==> c == '.' as nat
    ensures OriginOf(lib, scheme, Authority(u)) ==
            if (scheme == T("http") || scheme == T("https")) && (u.port.Some? ==> u.port.value <= 65535)
            then Some(scheme + T("://") + h + OriginPort(scheme, u.port)) else None
  {
    hide T, RawHost, RawPort, HostInfo, IntText, Authority, HostPort, PortOf, RStrip, WellWritten;
    HostPortParts(u);
    HostWritten(u);
    DotsStripped(h, dots);
    assert HostName(lib, Authority(u)) == lib.lower(u.host.text);
    PortWritten(u);
    SchemeNames();
    var origin := scheme + T("://") + h;
    assert origin + [] == origin;
    if u.port.Some? { assert origin + T(":") + IntText(u.port.value) == origin + PortText(u.port); }
  }

  lemma SchemeNames()
    ensures T("http") != T("https")
  {
    assert |T("http")| != |T("https")|;
  }

  lemma HostWritten(u: Url)
    requires WellWritten(u)
    ensures u.host.text != [] && PERCENT !in u.host.text
  {
    Delimiters();
  }

  lemma PortWritten(u: Url)
    requires RawPort(HostInfo(Authority(u))) == PortDigits(u.port)
    ensures PortOf(Authority(u)) == match u.port
                                    case None => NoPort
                                    case Some(n) => if n <= 65535 then Numbered(n) else BadPort
  {
    hide RawPort, HostInfo, Authority, Decimal;
    if u.port.Some? { DecimalOfDigits(u.port.value); }
  }

  /**
   A URL with a method is described exactly when its scheme is supported and its port is
   in range: by the method, the origin of its parts and its path, without credentials,
   query and fragment.
   */
  lemma WrittenDescribed(lib: UrlLib, verb: Text, m: Text, u: Url, scheme: Text, h: Text, dots: Text)
    requires WellWritten(u) && LowerOf(scheme, u.scheme) && forall c :: c in Written(u) ==> c > 32 && !lib.space(c)
    requires lib.legal(Authority(u)) && NormalizeMethod(lib, verb) == Some(m)
    requires lib.lower(u.host.text) == h + dots && lib.lower(h + dots) == h + dots
    requires h != [] && h[|h| - 1] != '.' as nat && forall c :: c in dots ==> c == '.' as nat
    ensures Describe(lib, verb, Written(u)) ==
            if (scheme == T("http") || scheme == T("https")) && (u.port.Some? ==> u.port.value <= 65535)
            then Some(Destination(m, scheme + T("://") + h + OriginPort(scheme, u.port),
                                  if u.path == [] then T("/") else u.path))
            else None
    ensures DescribeFromLiteralPrefix(lib, verb, Written(u)) ==
            if u.path == [] then None else Describe(lib, verb, Written(u))
  {
    hide T, SplitText, Prepared, OriginOf, NormalizeMethod, WellWritten, LowerOf, Authority, Written, OriginPort;
    PreparedAsIs(lib, Written(u)) by { assert Written(u) != [] by { SomethingWritten(u); } }
    WrittenSplits(u, scheme);
    WrittenOrigin(lib, u, scheme, h, dots);
    assert T("/") == [SLASH] by { JustSlash(); }
  }

  lemma SomethingWritten(u: Url)
    requires WellWritten(u)
    ensures Written(u) != []
  {
  }

  lemma JustSlash()
    ensures T("/") == [SLASH]
  {
  }

  // ------------------------------------------------- the method

  lemma {:induction false} LeftStripped(p: nat -> bool, blanks: Text, t: Text)
    requires (forall c :: c in blanks ==> p(c)) && (t == [] || !p(t[0]))
    ensures LStrip(p, blanks + t) == t
  {
    if blanks != [] {
      assert (blanks + t)[1..] == blanks[1..] + t && blanks[0] in blanks;
      LeftStripped(p, blanks[1..], t);
    } else {
      assert blanks + t == t;
    }
  }

  lemma {:induction false} RightStripped(p: nat -> bool, t: Text, blanks: Text)
    requires (forall c :: c in blanks ==> p(c)) && (t == [] || !p(t[|t| - 1]))
    ensures RStrip(p, t + blanks) == t
  {
    if blanks != [] {
      var init := blanks[..|blanks| - 1];
      assert (t + blanks)[..|t + blanks| - 1] == t + init && blanks[|blanks| - 1] in blanks;
      RightStripped(p, t, init);
    } else {
      assert t + blanks == t;
    }
  }

  /** A method is accepted exactly when its upper case, without surrounding space, is ASCII letters, one or more. */
  lemma MethodExactly(lib: UrlLib, front: Text, word: Text, back: Text)
    requires forall c :: c in front + back ==> lib.space(c)
    requires word != [] && !lib.space(word[0]) && !lib.space(word[|word| - 1])
    ensures NormalizeMethod(lib, front + word + back) ==
            if lib.upper(word) != []
               && forall c :: c in lib.upper(word) ==> Between(c, 'A', 'Z') || Between(c, 'a', 'z')
            then Some(lib.upper(word)) else None
  {
    assert forall c :: c in front ==> c in front + back;
    assert forall c :: c in back ==> c in front + back;
    assert front + word + back == front + (word + back);
    LeftStripped(lib.space, front, word + back);
    RightStripped(lib.space, word, back);
  }

  // ------------------------------------------------- what is ignored

  lemma {:induction false} BreaksCleaned(t: Text)
    requires forall c :: c in t ==> c in T("\t\n\r")
    ensures Clean(t) == []
  {
    if t != [] {
      assert T("\t\n\r") == [9, 10, 13] && t[0] in t;
      assert forall c :: c in t[1..] ==> c in t;
      BreaksCleaned(t[1..]);
    }
  }

  lemma MiddleCleaned(a: Text, breaks: Text, b: Text)
    requires forall c :: c in breaks ==> c in T("\t\n\r")
    requires (forall c :: c in a ==> c > 32) && forall c :: c in b ==> c > 32
    ensures Clean(a + breaks + b) == a + b
  {
    hide T;
    CleanConcat(a + breaks, b);
    CleanConcat(a, breaks);
    BreaksCleaned(breaks);
    CleanText(a);
    CleanText(b);
    assert a + [] == a;
  }

  lemma PreparedTrims(lib: UrlLib, front: Text, body: Text, back: Text)
    requires (forall c :: c in front ==> lib.space(c)) && forall c :: c in back ==> lib.space(c)
    requires body != [] && !lib.space(body[0]) && !lib.space(body[|body| - 1]) && body[0] > 32
    ensures Prepared(lib, front + body + back) == Clean(body)
  {
    hide Clean;
    assert front + body + back == front + (body + back);
    LeftStripped(lib.space, front, body + back);
    RightStripped(lib.space, body, back);
  }

  /** White space around a URL and tabs and line breaks inside it are ignored. */
  lemma NoiseIgnored(lib: UrlLib, verb: Text, front: Text, a: Text, breaks: Text, b: Text, back: Text)
    requires (forall c :: c in front ==> lib.space(c)) && forall c :: c in back ==> lib.space(c)
    requires a != [] && b != [] && forall c :: c in breaks ==> c in T("\t\n\r")
    requires (forall c :: c in a ==> c > 32 && !lib.space(c)) && forall c :: c in b ==> c > 32 && !lib.space(c)
    ensures Describe(lib, verb, front + (a + breaks + b) + back) == Describe(lib, verb, a + b)
  {
    hide SplitText, OriginOf, NormalizeMethod, T, Prepared, Clean;
    var body := a + breaks + b;
    assert a[0] in a && b[|b| - 1] in b && body[0] == a[0] && body[|body| - 1] == b[|b| - 1];
    PreparedTrims(lib, front, body, back);
    MiddleCleaned(a, breaks, b);
    PreparedAsIs(lib, a + b);
  }

  /** Controls in front of a URL are ignored as well. */
  lemma ControlsIgnored(lib: UrlLib, verb: Text, controls: Text, a: Text)
    requires controls != [] && !lib.space(controls[0]) && forall c :: c in controls ==> c <= 32
    requires a != [] && forall c :: c in a ==> c > 32 && !lib.space(c)
    ensures Describe(lib, verb, controls + a) == Describe(lib, verb, a)
  {
    hide SplitText, OriginOf, NormalizeMethod;
    var t := controls + a;
    assert a[0] in a && a[|a| - 1] in a && t[0] == controls[0] && t[|t| - 1] == a[|a| - 1];
    LeftStripped(IsControl, controls, a);
    CleanText(a);
    PreparedAsIs(lib, a);
  }
}
