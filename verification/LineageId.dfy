/**
 `_lineage_id_for`: the length-delimited encoding is injective.
 */
module LineageId {
  import opened Order
  import opened Chars
  import opened Encoding

  /** The owner, canonical source and canonical branch of a lineage. */
  datatype GroupKey = GroupKey(owner: Text, source: Text, branch: Text)


  function Delimited(t: Text): Text {
    Digits(|t|) + [COLON] + t
  }

  function Encoded(k: GroupKey): Text {
    Delimited(k.owner) + [PIPE] + Delimited(k.source) + [PIPE] + Delimited(k.branch)
  }

  /** Each part is preceded by its length and a colon, and the parts are separated by bars. */
  lemma EncodedExample()
    ensures Encoded(GroupKey(T("u1"), T("g/a/b"), T("main"))) == T("2:u1|5:g/a/b|4:main")
  {
    hide T, Delimited;
    DelimitedExamples();
    JoinedExample();
  }

  lemma DelimitedExamples()
    ensures Delimited(T("u1")) == T("2:u1") && Delimited(T("g/a/b")) == T("5:g/a/b")
    ensures Delimited(T("main")) == T("4:main")
  {
    assert Digits(2) == [50] && Digits(5) == [53] && Digits(4) == [52];
  }

  lemma JoinedExample()
    ensures T("2:u1") + [PIPE] + T("5:g/a/b") + [PIPE] + T("4:main") == T("2:u1|5:g/a/b|4:main")
  {
  }

  lemma ShorterDiffers(a: Text, b: Text, x: Text, y: Text)
    requires (forall c :: c in b ==> c != COLON) && |a| < |b|
    ensures a + ([COLON] + x) != b + ([COLON] + y)
  {
    assert (a + ([COLON] + x))[|a|] == COLON;
    assert (b + ([COLON] + y))[|a|] == b[|a|] && b[|a|] in b;
  }

  lemma DigitsThenColon(a: Text, b: Text, x: Text, y: Text)
    requires (forall c :: c in a ==> c != COLON) && (forall c :: c in b ==> c != COLON)
    requires a + ([COLON] + x) == b + ([COLON] + y)
    ensures a == b && x == y
  {
    if |a| < |b| {
      ShorterDiffers(a, b, x, y);
    } else if |b| < |a| {
      ShorterDiffers(b, a, y, x);
    } else {
      var s, t := a + ([COLON] + x), b + ([COLON] + y);
      assert s[..|a|] == a && t[..|b|] == b;
      assert s[|a|..][1..] == x && t[|b|..][1..] == y;
    }
  }

  /** A delimited text is a prefix code. */
  lemma DelimitedPrefix(s: Text, t: Text, x: Text, y: Text)
    requires Delimited(s) + x == Delimited(t) + y
    ensures s == t && x == y
  {
    hide Digits;
    assert Delimited(s) + x == Digits(|s|) + ([COLON] + (s + x));
    assert Delimited(t) + y == Digits(|t|) + ([COLON] + (t + y));
    DigitsThenColon(Digits(|s|), Digits(|t|), s + x, t + y);
    DigitsInjective(|s|, |t|);
    assert s == (s + x)[..|s|] && t == (t + y)[..|t|];
    assert x == (s + x)[|s|..] && y == (t + y)[|t|..];
  }

  lemma EncodedInjective(k: GroupKey, l: GroupKey)
    requires Encoded(k) == Encoded(l)
    ensures k == l
  {
    hide Delimited;
    var a := [PIPE] + Delimited(k.source) + [PIPE] + Delimited(k.branch);
    var b := [PIPE] + Delimited(l.source) + [PIPE] + Delimited(l.branch);
    assert Encoded(k) == Delimited(k.owner) + a && Encoded(l) == Delimited(l.owner) + b;
    DelimitedPrefix(k.owner, l.owner, a, b);
    var c, d := [PIPE] + Delimited(k.branch), [PIPE] + Delimited(l.branch);
    assert a[1..] == Delimited(k.source) + c && b[1..] == Delimited(l.source) + d;
    DelimitedPrefix(k.source, l.source, c, d);
    assert c[1..] == Delimited(k.branch) + [] && d[1..] == Delimited(l.branch) + [];
    DelimitedPrefix(k.branch, l.branch, [], []);
  }
}
