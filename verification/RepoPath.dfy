/** Repository paths. */
module RepoPath {
  // `normalize_repo_path`: the segment stack against a description of which
  // segments survive, exact rejection, and the fixed points.
  //
  // NFC and `str.isalpha` are parameters.  `None` is a raised `PathEscapeError`.

  import opened Order
  import opened Chars
  import Json

  const DOT: Text := [46]
  const DOTDOT: Text := [46, 46]

  /** A Windows drive prefix. */
  predicate Drive(isAlpha: nat -> bool, t: Text) {
    |t| >= 2 && t[1] == COLON && isAlpha(t[0])
  }

  /** `text.replace("\\", "/")` */
  function Fold(t: Text): Text {
    seq(|t|, i requires 0 <= i < |t| => if t[i] == BACKSLASH then SLASH else t[i])
  }

  /** `text.split("/")` */
  function Split(t: Text): (r: seq<Text>)
    ensures |r| >= 1
  {
    if t == [] then [[]]
    else
      var r := Split(t[1..]);
      if t[0] == SLASH then [[]] + r else [[t[0]] + r[0]] + r[1..]
  }

  function JoinPath(names: seq<Text>): Text {
    Json.Join(names, [SLASH])
  }

  predicate Ordinary(s: Text) {
    s != [] && s != DOT && s != DOTDOT
  }

  /** What a segment does to the depth of a walk. */
  function Weight(s: Text): int {
    if s == DOTDOT then -1 else if Ordinary(s) then 1 else 0
  }

  /** Ordinary names minus `..` segments. */
  function Balance(segs: seq<Text>): int {
    if segs == [] then 0 else Weight(segs[0]) + Balance(segs[1..])
  }

  /** No later `..` takes the walk back out of the first segment. */
  ghost predicate Survives(segs: seq<Text>) {
    && segs != [] && Ordinary(segs[0])
    && forall j :: 1 <= j <= |segs| ==> Balance(segs[1..j]) >= 0
  }

  /** The names a walk from the root is still inside of when it ends. */
  ghost function Survivors(segs: seq<Text>): seq<Text> {
    if segs == [] then []
    else if Survives(segs) then [segs[0]] + Survivors(segs[1..])
    else Survivors(segs[1..])
  }

  /** Some prefix has more `..` than ordinary names. */
  ghost predicate Escapes(segs: seq<Text>) {
    exists j :: 0 <= j <= |segs| && Balance(segs[..j]) < 0
  }

  /** The lowest depth a walk reaches, relative to its start. */
  function Lowest(segs: seq<Text>): (r: int)
    ensures r <= 0
  {
    if segs == [] then 0
    else
      var r := Weight(segs[0]) + Lowest(segs[1..]);
      if r < 0 then r else 0
  }

  lemma {:induction false} LowestBounds(segs: seq<Text>, j: nat)
    requires j <= |segs|
    ensures Lowest(segs) <= Balance(segs[..j])
  {
    if j > 0 {
      LowestBounds(segs[1..], j - 1);
      assert segs[..j][1..] == segs[1..][..j - 1];
    }
  }

  lemma {:induction false} LowestReached(segs: seq<Text>) returns (j: nat)
    ensures j <= |segs| && Balance(segs[..j]) == Lowest(segs)
  {
    j := 0;
    if segs != [] {
      var k := LowestReached(segs[1..]);
      if Weight(segs[0]) + Lowest(segs[1..]) < 0 {
        j := k + 1;
        assert segs[..j][1..] == segs[1..][..k];
      }
    }
  }

  lemma EscapesByDepth(segs: seq<Text>)
    ensures Escapes(segs) <==> Lowest(segs) < 0
  {
    var j := LowestReached(segs);
    forall k | 0 <= k <= |segs| { LowestBounds(segs, k); }
  }

  lemma SurvivesByDepth(segs: seq<Text>)
    requires segs != []
    ensures Survives(segs) <==> Ordinary(segs[0]) && Lowest(segs[1..]) == 0
  {
    var rest := segs[1..];
    var j := LowestReached(rest);
    assert rest[..j] == segs[1..j + 1];
    forall k | 1 <= k <= |segs| ensures Lowest(rest) <= Balance(segs[1..k]) {
      LowestBounds(rest, k - 1);
      assert rest[..k - 1] == segs[1..k];
    }
  }

  /** The stack machine the source runs over the segments. */
  function Resolve(segs: seq<Text>, stack: seq<Text>): Option<seq<Text>> {
    if segs == [] then Some(stack)
    else if segs[0] == [] || segs[0] == DOT then Resolve(segs[1..], stack)
    else if segs[0] == DOTDOT then
      if stack == [] then None else Resolve(segs[1..], stack[..|stack| - 1])
    else Resolve(segs[1..], stack + [segs[0]])
  }

  /** The stack ends with what survives of the old stack, then the survivors. */
  lemma {:induction false} ResolveIsWalk(segs: seq<Text>, stack: seq<Text>)
    ensures Resolve(segs, stack) ==
            if |stack| + Lowest(segs) < 0 then None
            else Some(stack[..|stack| + Lowest(segs)] + Survivors(segs))
    decreases |segs|
  {
    hide Survives;
    if segs == [] {
      assert stack[..|stack|] + [] == stack;
    } else {
      var s, rest := segs[0], segs[1..];
      SurvivesByDepth(segs);
      if s == DOTDOT {
        if stack != [] {
          ResolveIsWalk(rest, stack[..|stack| - 1]);
          if |stack| - 1 + Lowest(rest) >= 0 {
            assert stack[..|stack| - 1][..|stack| - 1 + Lowest(rest)] == stack[..|stack| + Lowest(segs)];
          }
        }
      } else if Ordinary(s) {
        ResolveIsWalk(rest, stack + [s]);
        if Lowest(rest) == 0 {
          assert (stack + [s])[..|stack| + 1] + Survivors(rest) == stack[..|stack|] + ([s] + Survivors(rest));
        } else if |stack| + 1 + Lowest(rest) >= 0 {
          assert (stack + [s])[..|stack| + 1 + Lowest(rest)] == stack[..|stack| + Lowest(segs)];
        }
      } else {
        ResolveIsWalk(rest, stack);
      }
    }
  }

  /** When normalization raises. */
  ghost predicate Rejects(nfc: Text -> Text, isAlpha: nat -> bool, raw: Text) {
    var text := nfc(raw);
    || Drive(isAlpha, text)
    || (text != [] && (text[0] == SLASH || text[0] == BACKSLASH))
    || Escapes(Split(Fold(text)))
  }

  function NormalizePath(nfc: Text -> Text, isAlpha: nat -> bool, raw: Text): Option<Text> {
    var text := nfc(raw);
    if Drive(isAlpha, text) then None
    else
      var folded := Fold(text);
      if folded != [] && folded[0] == SLASH then None
      else match Resolve(Split(folded), [])
           case None => None
           case Some(names) => Some(JoinPath(names))
  }

  /** `normalize_repo_path`: it raises exactly on a drive prefix, a leading
      separator or a walk above the root, and returns the walk's survivors. */
  method NormalizeRepoPath(nfc: Text -> Text, isAlpha: nat -> bool, raw: Text) returns (r: Option<Text>)
    ensures r == NormalizePath(nfc, isAlpha, raw)
    ensures r.None? <==> Rejects(nfc, isAlpha, raw)
    ensures r.Some? ==> r.value == JoinPath(Survivors(Split(Fold(nfc(raw)))))
  {
    var text := nfc(raw);
    if Drive(isAlpha, text) {
      return None;
    }
    text := Fold(text);
    if text != [] && text[0] == SLASH {
      return None;
    }
    var segments := Split(text);
    NormalizePathIsWalk(nfc, isAlpha, raw);
    var resolved: seq<Text> := [];
    for i := 0 to |segments|
      invariant Resolve(segments[i..], resolved) == Resolve(segments, [])
    {
      var segment := segments[i];
      assert segments[i..][1..] == segments[i + 1..];
      if segment == [] || segment == DOT {
        continue;
      }
      if segment == DOTDOT {
        if resolved == [] {
          return None;
        }
        resolved := resolved[..|resolved| - 1];
        continue;
      }
      resolved := resolved + [segment];
    }
    return Some(JoinPath(resolved));
  }

  lemma NormalizePathIsWalk(nfc: Text -> Text, isAlpha: nat -> bool, raw: Text)
    ensures NormalizePath(nfc, isAlpha, raw).None? <==> Rejects(nfc, isAlpha, raw)
    ensures NormalizePath(nfc, isAlpha, raw).Some? ==>
              NormalizePath(nfc, isAlpha, raw).value == JoinPath(Survivors(Split(Fold(nfc(raw)))))
  {
    hide Survivors, Escapes, Split;
    var segs := Split(Fold(nfc(raw)));
    var empty: seq<Text> := [];
    ResolveIsWalk(segs, empty);
    EscapesByDepth(segs);
    assert empty[..0] + Survivors(segs) == Survivors(segs);
  }

  // ---------------------------------------------------------------- fixed points

  predicate Clean(s: Text) {
    Ordinary(s) && SLASH !in s && BACKSLASH !in s
  }

  lemma {:induction false} SplitPieces(t: Text)
    requires BACKSLASH !in t
    ensures forall i :: 0 <= i < |Split(t)| ==> SLASH !in Split(t)[i] && BACKSLASH !in Split(t)[i]
  {
    if t != [] {
      SplitPieces(t[1..]);
    }
  }

  lemma {:induction false} SurvivorsFromSegments(segs: seq<Text>)
    ensures forall i :: 0 <= i < |Survivors(segs)| ==> Survivors(segs)[i] in segs && Ordinary(Survivors(segs)[i])
  {
    if segs != [] {
      SurvivorsFromSegments(segs[1..]);
    }
  }

  lemma {:induction false} SplitNoSlash(s: Text)
    requires SLASH !in s
    ensures Split(s) == [s]
  {
    if s != [] {
      SplitNoSlash(s[1..]);
      assert [s[0]] + s[1..] == s;
    }
  }

  lemma {:induction false} SplitAtSlash(s: Text, t: Text)
    requires SLASH !in s
    ensures Split(s + [SLASH] + t) == [s] + Split(t)
  {
    if s == [] {
      assert (s + [SLASH] + t)[1..] == t;
    } else {
      SplitAtSlash(s[1..], t);
      assert (s + [SLASH] + t)[1..] == s[1..] + [SLASH] + t;
      assert [s[0]] + s[1..] == s;
    }
  }

  /** Splitting undoes joining. */
  lemma {:induction false} SplitJoin(names: seq<Text>)
    requires names != [] && forall i :: 0 <= i < |names| ==> SLASH !in names[i]
    ensures Split(JoinPath(names)) == names
  {
    if |names| == 1 {
      SplitNoSlash(names[0]);
    } else {
      SplitJoin(names[1..]);
      SplitAtSlash(names[0], JoinPath(names[1..]));
      assert names == [names[0]] + names[1..];
    }
  }

  lemma {:induction false} ResolveOrdinary(names: seq<Text>, stack: seq<Text>)
    requires forall i :: 0 <= i < |names| ==> Ordinary(names[i])
    ensures Resolve(names, stack) == Some(stack + names)
    decreases |names|
  {
    if names == [] {
      assert stack + names == stack;
    } else {
      ResolveOrdinary(names[1..], stack + [names[0]]);
      assert stack + [names[0]] + names[1..] == stack + names;
    }
  }

  lemma {:induction false} JoinClean(names: seq<Text>)
    requires forall i :: 0 <= i < |names| ==> Clean(names[i])
    ensures BACKSLASH !in JoinPath(names)
    ensures JoinPath(names) != [] ==> JoinPath(names)[0] != SLASH
    ensures JoinPath(names) == [] <==> names == []
  {
    if |names| > 1 {
      JoinClean(names[1..]);
      assert JoinPath(names) == names[0] + [SLASH] + JoinPath(names[1..]);
      assert names[0][0] in names[0];
    } else if |names| == 1 {
      assert names[0][0] in names[0];
    }
  }

  /** Both separators are boundaries of NFC: dropping whole segments from a
      normalized text leaves a normalized text. */
  ghost predicate KeepsSegments(nfc: Text -> Text) {
    forall raw, names :: SegmentsFrom(nfc, raw, names) ==> nfc(JoinPath(names)) == JoinPath(names)
  }

  ghost predicate SegmentsFrom(nfc: Text -> Text, raw: Text, names: seq<Text>) {
    forall i :: 0 <= i < |names| ==> names[i] in Split(Fold(nfc(raw)))
  }

  /** The segments of a result are ordinary names, without any separator. */
  lemma ResultSegments(nfc: Text -> Text, isAlpha: nat -> bool, raw: Text) returns (names: seq<Text>)
    requires NormalizePath(nfc, isAlpha, raw).Some?
    ensures NormalizePath(nfc, isAlpha, raw).value == JoinPath(names)
    ensures forall i :: 0 <= i < |names| ==> Clean(names[i]) && names[i] in Split(Fold(nfc(raw)))
  {
    var folded := Fold(nfc(raw));
    names := Survivors(Split(folded));
    NormalizePathIsWalk(nfc, isAlpha, raw);
    SurvivorsFromSegments(Split(folded));
    SplitPieces(folded);
  }

  /** A result is a fixed point exactly when it does not look like a drive. */
  lemma FixedPoint(nfc: Text -> Text, isAlpha: nat -> bool, raw: Text)
    requires KeepsSegments(nfc) && NormalizePath(nfc, isAlpha, raw).Some?
    ensures var path := NormalizePath(nfc, isAlpha, raw).value;
            && (NormalizePath(nfc, isAlpha, path) == Some(path) <==> !Drive(isAlpha, path))
            && (Drive(isAlpha, path) ==> NormalizePath(nfc, isAlpha, path).None?)
  {
    var path := NormalizePath(nfc, isAlpha, raw).value;
    var names := ResultSegments(nfc, isAlpha, raw);
    assert SegmentsFrom(nfc, raw, names);
    assert nfc(path) == path;
    JoinClean(names);
    assert Fold(path) == path;
    if names == [] {
      assert Split(path) == [[]];
      assert Resolve([[]], []) == Resolve([[]][1..], []);
    } else {
      SplitJoin(names);
      ResolveOrdinary(names, []);
      assert [] + names == names;
    }
  }

  /** A single name is its own normal form. */
  lemma PlainName(nfc: Text -> Text, isAlpha: nat -> bool, s: Text)
    requires Clean(s) && nfc(s) == s && !Drive(isAlpha, s)
    ensures NormalizePath(nfc, isAlpha, s) == Some(s)
  {
    hide Split, Resolve, Drive;
    assert Fold(s) == s;
    SplitNoSlash(s);
    ResolveOrdinary([s], []);
    assert [] + [s] == [s];
  }

  /** A dot and an empty segment stay where they are, two dots go up, anything else goes down. */
  lemma MiddleSegment(nfc: Text -> Text, isAlpha: nat -> bool, a: Text, mid: Text, b: Text)
    requires Clean(a) && Clean(b) && SLASH !in mid && BACKSLASH !in mid
    requires var raw := a + T("/") + mid + T("/") + b; nfc(raw) == raw && !Drive(isAlpha, raw)
    ensures NormalizePath(nfc, isAlpha, a + T("/") + mid + T("/") + b) ==
            if mid == T("..") then Some(b)
            else if mid == T(".") || mid == [] then Some(a + T("/") + b)
            else Some(a + T("/") + mid + T("/") + b)
  {
    hide Split, Resolve, Drive, T, JoinPath;
    Names();
    var raw := a + [SLASH] + mid + [SLASH] + b;
    assert Fold(raw) == raw;
    SplitNoSlash(b);
    SplitAtSlash(mid, b);
    SplitAtSlash(a, mid + [SLASH] + b);
    assert raw == a + [SLASH] + (mid + [SLASH] + b);
    assert [a] + ([mid] + [b]) == [a, mid, b];
    MiddleResolved(a, mid, b);
    JoinNames(a, mid, b);
  }

  lemma Names()
    ensures T("/") == [SLASH] && T("..") == DOTDOT && T(".") == DOT && T("\\") == [BACKSLASH]
  {
  }

  lemma MiddleResolved(a: Text, mid: Text, b: Text)
    requires Clean(a) && Clean(b)
    ensures Resolve([a, mid, b], []) ==
            if mid == DOTDOT then Some([b]) else if Ordinary(mid) then Some([a, mid, b]) else Some([a, b])
  {
    assert [a, mid, b][1..] == [mid, b] && [mid, b][1..] == [b];
    var stack: seq<Text> := [];
    assert stack + [a] == [a] && [a][..0] == stack;
    ResolveOrdinary([b], stack);
    ResolveOrdinary([b], [a]);
    ResolveOrdinary([b], [a] + [mid]);
    assert [a] + [mid] + [b] == [a, mid, b] && [a] + [b] == [a, b] && stack + [b] == [b];
  }

  lemma JoinNames(a: Text, mid: Text, b: Text)
    ensures JoinPath([b]) == b && JoinPath([a, b]) == a + [SLASH] + b
    ensures JoinPath([a, mid, b]) == a + [SLASH] + mid + [SLASH] + b
  {
    assert [a, b][1..] == [b] && [a, mid, b][1..] == [mid, b] && [mid, b][1..] == [b];
    assert Json.Join([b], [SLASH]) == b;
    assert Json.Join([mid, b], [SLASH]) == mid + [SLASH] + b;
    assert a + [SLASH] + (mid + [SLASH] + b) == a + [SLASH] + mid + [SLASH] + b;
  }

  /** A backslash separates as a slash does; a path from the root and a path out of it are refused. */
  lemma SeparatorsAndRoot(nfc: Text -> Text, isAlpha: nat -> bool, a: Text, b: Text)
    requires Clean(a) && Clean(b) && nfc(a + T("\\") + b) == a + T("\\") + b && nfc(T("/") + a) == T("/") + a
    requires nfc(T("../") + a) == T("../") + a
    requires !Drive(isAlpha, a + T("\\") + b)
    ensures NormalizePath(nfc, isAlpha, a + T("\\") + b) == Some(a + T("/") + b)
    ensures NormalizePath(nfc, isAlpha, T("/") + a) == None && NormalizePath(nfc, isAlpha, T("../") + a) == None
  {
    hide Split, Resolve, Drive, T, JoinPath;
    Names();
    assert Fold(a + [BACKSLASH] + b) == a + [SLASH] + b;
    SplitNoSlash(a);
    SplitNoSlash(b);
    SplitAtSlash(a, b);
    assert [a] + [b] == [a, b];
    ResolveOrdinary([a, b], []);
    assert [] + [a, b] == [a, b];
    JoinNames(a, [], b);
    assert (T("/") + a)[0] == SLASH;
    UpFirst(a);
  }

  lemma UpFirst(a: Text)
    requires Clean(a)
    ensures T("../") == DOTDOT + [SLASH]
    ensures Fold(T("../") + a) == T("../") + a && Resolve(Split(T("../") + a), []) == None
  {
    hide Split;
    assert T("../") == DOTDOT + [SLASH];
    SplitAtSlash(DOTDOT, a);
  }

  lemma DottedName(nfc: Text -> Text, isAlpha: nat -> bool, s: Text)
    requires Clean(s) && nfc(DOT + [SLASH] + s) == DOT + [SLASH] + s
    ensures NormalizePath(nfc, isAlpha, DOT + [SLASH] + s) == Some(s)
  {
    hide Split;
    var raw := DOT + [SLASH] + s;
    assert Fold(raw) == raw && raw[1] == SLASH;
    SplitAtSlash(DOT, s);
    SplitNoSlash(s);
    assert [DOT] + [s] == [DOT, s] && [DOT, s][1..] == [s];
    ResolveOrdinary([s], []);
    assert [] + [s] == [s];
  }

  /** A letter and a colon in front make a drive, with or without more; another character and a colon do not. */
  lemma DriveExactly(nfc: Text -> Text, isAlpha: nat -> bool, c: nat, rest: Text)
    requires nfc([c] + T(":") + rest) == [c] + T(":") + rest
    ensures isAlpha(c) ==> NormalizePath(nfc, isAlpha, [c] + T(":") + rest) == None
    ensures !isAlpha(c) && Clean([c] + T(":") + rest) ==>
              NormalizePath(nfc, isAlpha, [c] + T(":") + rest) == Some([c] + T(":") + rest)
  {
    hide Split, Resolve, Fold, JoinPath;
    var raw := [c] + T(":") + rest;
    assert T(":") == [COLON] && |raw| >= 2 && raw[0] == c && raw[1] == COLON;
    if !isAlpha(c) && Clean(raw) { PlainName(nfc, isAlpha, raw); }
  }

  /** A path that normalizes once but is then rejected: `./C:x`. */
  lemma DriveExample(nfc: Text -> Text, isAlpha: nat -> bool)
    requires isAlpha(67) && nfc(T("./C:x")) == T("./C:x") && nfc(T("C:x")) == T("C:x")
    ensures NormalizePath(nfc, isAlpha, T("./C:x")) == Some(T("C:x"))
    ensures NormalizePath(nfc, isAlpha, T("C:x")) == None
  {
    hide Split, Resolve;
    assert T("C:x") == [67, 58, 120] && T("./C:x") == DOT + [SLASH] + T("C:x");
    DottedName(nfc, isAlpha, T("C:x"));
  }
}
