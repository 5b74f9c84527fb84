/** Key lines are exact. */
module MemberLines {
  // `json_object_member_lines` counts the newlines before the quote that opens the key.

  import opened Order
  import opened Chars
  import opened Json
  import opened Scan
  import opened Lexemes
  import opened Parse

  /** `{section: {member: line}}` for the object-valued members of an object. */
  function Sections(root: Node): map<Text, map<Text, int>> {
    match root
    case ObjectNode(members, _) => map k | k in members && members[k].ObjectNode? :: members[k].keyLines
    case _ => map[]
  }

  /** What is reported of a text; `None` when the reader runs off the tokens. */
  function Reported(text: Text): Option<map<Text, map<Text, int>>> {
    match ParseValue(Tokens(text, 1), 0)
    case None => None
    case Some(p) => Some(Sections(p.node))
  }

  /** `json_object_member_lines` */
  method JsonObjectMemberLines(text: Text) returns (r: Option<map<Text, map<Text, int>>>)
    ensures r == Reported(text)
  {
    var tokens := JsonTokens(text);
    var root := JsonParse(tokens, 0);
    match root
    case None => return None;
    case Some(p) => return Some(Sections(p.node));
  }

  /** The text is the rendering of well-formed lexemes that spell one value. */
  ghost predicate Document(text: Text, ls: seq<Lexeme>, v: Syntax) {
    && WellFormed(ls) && text == RenderAll(ls)
    && Spells(TokensOf([], ls), 0, |TokensOf([], ls)|, v)
  }

  /** Which lexeme token `p` comes from: the `p`-th that is not white space. */
  ghost function Place(ls: seq<Lexeme>, p: nat): nat {
    if ls == [] then 0
    else if ls[0].Space? then 1 + Place(ls[1..], p)
    else if p == 0 then 0
    else 1 + Place(ls[1..], p - 1)
  }

  /** Where in the text token `p` begins. */
  ghost function Offset(ls: seq<Lexeme>, p: nat): nat
    requires Place(ls, p) <= |ls|
  {
    |RenderAll(ls[..Place(ls, p)])|
  }

  ghost predicate LiteralAt(text: Text, offset: nat, body: Text) {
    && offset + |body| + 2 <= |text|
    && text[offset..offset + |body| + 2] == [QUOTE] + body + [QUOTE]
  }

  /** A document is read completely, without running off its tokens. */
  lemma DocumentParses(text: Text, ls: seq<Lexeme>, v: Syntax)
    requires Document(text, ls, v)
    ensures ParseValue(Tokens(text, 1), 0) == Some(Parsed(Meaning(v), |Tokens(text, 1)|))
  {
    hide Tokens, ParseValue, TokensOf, Spells, WellFormed, RenderAll, Meaning;
    assert Newlines([]) == 0;
    TokensOfRendered([], ls);
    ParseSpelled(TokensOf([], ls), 0, |TokensOf([], ls)|, v);
  }

  /** Token `p` is that of lexeme `Place(ls, p)`, with the newlines in front of it counted. */
  lemma {:induction false} TokenPlace(before: Text, ls: seq<Lexeme>, p: nat)
    requires p < |TokensOf(before, ls)|
    ensures Place(ls, p) < |ls|
    ensures var q := Place(ls, p);
            LexemeTokens(ls[q], 1 + Newlines(before + RenderAll(ls[..q]))) == [TokensOf(before, ls)[p]]
    decreases |ls|
  {
    hide BodyValue, Newlines, Render;
    var here := LexemeTokens(ls[0], 1 + Newlines(before));
    if p < |here| {
      assert before + RenderAll(ls[..0]) == before;
    } else {
      TokenPlace(before + Render(ls[0]), ls[1..], p - |here|);
      var q := Place(ls[1..], p - |here|);
      assert Place(ls, p) == q + 1;
      assert ls[..q + 1][1..] == ls[1..][..q];
      assert before + Render(ls[0]) + RenderAll(ls[1..][..q]) == before + RenderAll(ls[..q + 1]);
    }
  }

  lemma RenderedAt(ls: seq<Lexeme>, q: nat)
    requires q < |ls|
    ensures RenderAll(ls) == RenderAll(ls[..q]) + (Render(ls[q]) + RenderAll(ls[q + 1..]))
  {
    hide Render;
    assert ls == ls[..q] + ls[q..];
    RenderConcat(ls[..q], ls[q..]);
    assert ls[q..][1..] == ls[q + 1..];
  }

  /** String token `p` opens at its own offset, and its line counts the newlines before that. */
  lemma TokenLineExact(text: Text, ls: seq<Lexeme>, p: nat)
    requires WellFormed(ls) && text == RenderAll(ls)
    requires p < |TokensOf([], ls)| && TokensOf([], ls)[p].kind == StrToken
    ensures Place(ls, p) < |ls| && ls[Place(ls, p)].Literal?
    ensures var body := ls[Place(ls, p)].body;
            && LiteralAt(text, Offset(ls, p), body) && BodyValue(body) == TokensOf([], ls)[p].value
            && TokensOf([], ls)[p].line == 1 + Newlines(text[..Offset(ls, p)])
  {
    hide DecodeBody, Newlines, TokensOf, RenderAll, BodyValue, Closed, Place;
    TokenPlace([], ls, p);
    var q := Place(ls, p);
    var front := RenderAll(ls[..q]);
    RenderedAt(ls, q);
    assert [] + front == front && text[..|front|] == front;
    assert LexemeTokens(ls[q], 1 + Newlines(front))[0] == TokensOf([], ls)[p];
  }

  /** Later tokens begin further on in the text. */
  lemma {:induction false} PlacesIncrease(before: Text, ls: seq<Lexeme>, p: nat, p': nat)
    requires p < p' < |TokensOf(before, ls)|
    ensures Place(ls, p) < Place(ls, p') < |ls|
    decreases |ls|
  {
    hide Newlines, BodyValue, Render;
    TokenPlace(before, ls, p');
    var here := LexemeTokens(ls[0], 1 + Newlines(before));
    if p >= |here| { PlacesIncrease(before + Render(ls[0]), ls[1..], p - |here|, p' - |here|); }
  }

  lemma OffsetsIncrease(ls: seq<Lexeme>, p: nat, p': nat)
    requires WellFormed(ls) && p < p' < |TokensOf([], ls)|
    ensures Place(ls, p) < Place(ls, p') < |ls| && Offset(ls, p) < Offset(ls, p')
  {
    hide TokensOf, RenderAll, Place, Closed;
    PlacesIncrease([], ls, p, p');
    var q, q' := Place(ls, p), Place(ls, p');
    RenderedAt(ls[..q'], q);
    assert ls[..q'][..q] == ls[..q] && ls[..q'][q] == ls[q];
    assert Good(ls[q]);
  }

  // ------------------------------------------------- members of sections

  /** The token of the key of member `j` in the section that entry `i` writes. */
  ghost function MemberToken(entries: seq<Entry>, i: nat, inner: seq<Entry>, j: nat): nat
    requires i < |entries| && j < |inner|
  {
    1 + KeyToken(entries, i) + 3 + KeyToken(inner, j)
  }

  /** Member `j` of section `i` is written at its own token, which opens at its own offset. */
  lemma MemberWritten(text: Text, ls: seq<Lexeme>, entries: seq<Entry>, i: nat, inner: seq<Entry>, j: nat)
    requires Document(text, ls, Object(entries))
    requires i < |entries| && entries[i].value == Object(inner) && j < |inner|
    ensures var p := MemberToken(entries, i, inner, j);
            && p < |TokensOf([], ls)| && TokensOf([], ls)[p] == Token(StrToken, inner[j].key, inner[j].line)
            && Place(ls, p) < |ls| && ls[Place(ls, p)].Literal?
            && LiteralAt(text, Offset(ls, p), ls[Place(ls, p)].body)
            && BodyValue(ls[Place(ls, p)].body) == inner[j].key
            && inner[j].line == 1 + Newlines(text[..Offset(ls, p)])
  {
    hide TokensOf, Newlines, WellFormed, RenderAll, Place, BodyValue, LiteralAt;
    var ts := TokensOf([], ls);
    EntryToken(ts, 1, |ts|, entries, i);
    var p := 1 + KeyToken(entries, i);
    EntryToken(ts, p + 3, p + 2 + Width(entries[i].value), inner, j);
    TokenLineExact(text, ls, MemberToken(entries, i, inner, j));
  }

  /**
   Every reported line is one plus the newlines before the opening quote of that key's
   last occurrence in its section's last occurrence.
   */
  lemma MemberLinesExact(text: Text, ls: seq<Lexeme>, entries: seq<Entry>, i: nat, inner: seq<Entry>, j: nat)
    requires Document(text, ls, Object(entries))
    requires i < |entries| && entries[i].value == Object(inner) && j < |inner|
    requires forall k :: i < k < |entries| ==> entries[k].key != entries[i].key
    requires forall k :: j < k < |inner| ==> inner[k].key != inner[j].key
    ensures Reported(text).Some? && Place(ls, MemberToken(entries, i, inner, j)) < |ls|
    ensures var lines, offset := Reported(text).value, Offset(ls, MemberToken(entries, i, inner, j));
            && entries[i].key in lines && inner[j].key in lines[entries[i].key]
            && offset < |text| && text[offset] == QUOTE
            && lines[entries[i].key][inner[j].key] == 1 + Newlines(text[..offset])
  {
    hide Newlines, Place, BodyValue, Tokens, ParseValue, Document, LiteralAt, Offset, MemberToken;
    DocumentParses(text, ls, Object(entries));
    MemberWritten(text, ls, entries, i, inner, j);
    LastKeyLine(entries, i);
    LastKeyLine(inner, j);
    var p := MemberToken(entries, i, inner, j);
    OpensWithQuote(text, Offset(ls, p), ls[Place(ls, p)].body);
  }

  lemma OpensWithQuote(text: Text, offset: nat, body: Text)
    requires LiteralAt(text, offset, body)
    ensures offset < |text| && text[offset] == QUOTE
  {
    assert text[offset..offset + |body| + 2][0] == QUOTE;
  }

  /** The last occurrence is the one furthest on in the text: entries open in written order. */
  lemma MembersInOrder(text: Text, ls: seq<Lexeme>, entries: seq<Entry>, i: nat, inner: seq<Entry>, j: nat, j': nat)
    requires Document(text, ls, Object(entries))
    requires i < |entries| && entries[i].value == Object(inner) && j < j' < |inner|
    ensures var p, p' := MemberToken(entries, i, inner, j), MemberToken(entries, i, inner, j');
            Place(ls, p) < Place(ls, p') < |ls| && Offset(ls, p) < Offset(ls, p')
  {
    hide TokensOf, Newlines, WellFormed, RenderAll, Place, BodyValue, LiteralAt;
    MemberWritten(text, ls, entries, i, inner, j');
    KeyTokensIncrease(inner, j, j');
    OffsetsIncrease(ls, MemberToken(entries, i, inner, j), MemberToken(entries, i, inner, j'));
  }

  /** A section is reported exactly when its last occurrence is an object, and then with exactly that object's keys. */
  lemma ReportedExactly(text: Text, ls: seq<Lexeme>, entries: seq<Entry>, i: nat, key: Text)
    requires Document(text, ls, Object(entries))
    requires i < |entries| && forall k :: i < k < |entries| ==> entries[k].key != entries[i].key
    ensures Reported(text).Some? && (entries[i].key in Reported(text).value <==> entries[i].value.Object?)
    ensures entries[i].value.Object? ==>
              (key in Reported(text).value[entries[i].key] <==>
               exists j :: 0 <= j < |entries[i].value.entries| && entries[i].value.entries[j].key == key)
  {
    hide TokensOf, WellFormed, RenderAll, Tokens, ParseValue, Spells;
    DocumentParses(text, ls, Object(entries));
    LastKeyLine(entries, i);
    if entries[i].value.Object? { OnlyWrittenKeys(entries[i].value.entries, key); }
  }

  /** Nothing else is reported. */
  lemma OnlySections(text: Text, ls: seq<Lexeme>, entries: seq<Entry>, section: Text)
    requires Document(text, ls, Object(entries)) && Reported(text).Some? && section in Reported(text).value
    ensures exists i :: 0 <= i < |entries| && entries[i].key == section
  {
    hide TokensOf, WellFormed, RenderAll, Tokens, ParseValue, Spells;
    DocumentParses(text, ls, Object(entries));
    OnlyWrittenKeys(entries, section);
  }
}
