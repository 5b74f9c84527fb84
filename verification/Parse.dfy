/** Reading scanner tokens. */
module Parse {
  // `_json_parse` and `json_object_member_lines`: the recursive reader over scanner
  // tokens, against a grammar of token sequences.
  //
  // `None` stands for the `IndexError` of running off the token list.

  import opened Order
  import opened Chars
  import opened Json
  import opened Scan

  datatype Node =
    | ObjectNode(members: map<Text, Node>, keyLines: map<Text, int>)
    | ArrayNode(items: seq<Node>)
    | ScalarNode(value: Text, line: int)

  datatype Parsed = Parsed(node: Node, pos: nat)

  predicate Is(t: Token, c: nat) {
    t.kind == PunctToken && t.value == [c]
  }

  function SkipComma(ts: seq<Token>, pos: nat): nat
    requires pos < |ts|
  {
    if Is(ts[pos], COMMA) then pos + 1 else pos
  }

  function ParseValue(ts: seq<Token>, pos: nat): (r: Option<Parsed>)
    ensures r.Some? ==> pos < r.value.pos
    decreases |ts| - pos, 0
  {
    if pos >= |ts| then None
    else if Is(ts[pos], LBRACE) then ParseMembers(ts, pos + 1, map[], map[])
    else if Is(ts[pos], LBRACKET) then ParseItems(ts, pos + 1, [])
    else Some(Parsed(ScalarNode(ts[pos].value, ts[pos].line), pos + 1))
  }

  function ParseMembers(ts: seq<Token>, pos: nat, members: map<Text, Node>, keyLines: map<Text, int>)
    : (r: Option<Parsed>)
    ensures r.Some? ==> pos < r.value.pos
    decreases |ts| - pos, 1
  {
    if pos >= |ts| then None
    else if Is(ts[pos], RBRACE) then Some(Parsed(ObjectNode(members, keyLines), pos + 1))
    else
      var child := ParseValue(ts, pos + 2);
      if child.None? || child.value.pos >= |ts| then None
      else ParseMembers(ts, SkipComma(ts, child.value.pos),
                        members[ts[pos].value := child.value.node], keyLines[ts[pos].value := ts[pos].line])
  }

  function ParseItems(ts: seq<Token>, pos: nat, items: seq<Node>): (r: Option<Parsed>)
    ensures r.Some? ==> pos < r.value.pos
    decreases |ts| - pos, 1
  {
    if pos >= |ts| then None
    else if Is(ts[pos], RBRACKET) then Some(Parsed(ArrayNode(items), pos + 1))
    else
      var child := ParseValue(ts, pos);
      if child.None? || child.value.pos >= |ts| then None
      else ParseItems(ts, SkipComma(ts, child.value.pos), items + [child.value.node])
  }

  /** `_json_parse`. */
  method JsonParse(ts: seq<Token>, start: nat) returns (r: Option<Parsed>)
    ensures r == ParseValue(ts, start)
    decreases |ts| - start
  {
    var pos := start;
    if pos >= |ts| {
      return None;
    }
    if Is(ts[pos], LBRACE) {
      pos := pos + 1;
      var members: map<Text, Node>, keyLines: map<Text, int> := map[], map[];
      while pos < |ts| && !Is(ts[pos], RBRACE)
        invariant start < pos
        invariant ParseMembers(ts, pos, members, keyLines) == ParseValue(ts, start)
      {
        var keyValue, keyLine := ts[pos].value, ts[pos].line;
        pos := pos + 2;
        var child := JsonParse(ts, pos);
        if child.None? || child.value.pos >= |ts| {
          return None;
        }
        members, keyLines := members[keyValue := child.value.node], keyLines[keyValue := keyLine];
        pos := child.value.pos;
        if Is(ts[pos], COMMA) {
          pos := pos + 1;
        }
      }
      return if pos >= |ts| then None else Some(Parsed(ObjectNode(members, keyLines), pos + 1));
    }
    if Is(ts[pos], LBRACKET) {
      pos := pos + 1;
      var items: seq<Node> := [];
      while pos < |ts| && !Is(ts[pos], RBRACKET)
        invariant start < pos
        invariant ParseItems(ts, pos, items) == ParseValue(ts, start)
      {
        var child := JsonParse(ts, pos);
        if child.None? || child.value.pos >= |ts| {
          return None;
        }
        items := items + [child.value.node];
        pos := child.value.pos;
        if Is(ts[pos], COMMA) {
          pos := pos + 1;
        }
      }
      return if pos >= |ts| then None else Some(Parsed(ArrayNode(items), pos + 1));
    }
    return Some(Parsed(ScalarNode(ts[pos].value, ts[pos].line), pos + 1));
  }

  // ---------------------------------------------------------------- grammar

  /** A JSON value as written: the line of every scalar and of every key. */
  datatype Syntax =
    | Scalar(value: Text, line: int)
    | Array(items: seq<Syntax>)
    | Object(entries: seq<Entry>)

  datatype Entry = Entry(key: Text, line: int, value: Syntax)

  /** The tokens `lo..hi` spell the value `v`. */
  ghost predicate Spells(ts: seq<Token>, lo: nat, hi: nat, v: Syntax)
    decreases v, 1, 0
  {
    && lo < hi <= |ts|
    && match v
       case Scalar(value, line) =>
         hi == lo + 1 && ts[lo].kind != PunctToken && ts[lo].value == value && ts[lo].line == line
       case Array(items) => Is(ts[lo], LBRACKET) && SpellsItems(ts, lo + 1, hi, items)
       case Object(entries) => Is(ts[lo], LBRACE) && SpellsEntries(ts, lo + 1, hi, entries)
  }

  /** The separator after a list element: a comma before more, else the bracket. */
  predicate Separator(ts: seq<Token>, pos: nat, last: bool, close: nat) {
    pos < |ts| && Is(ts[pos], if last then close else COMMA)
  }

  ghost predicate SpellsItems(ts: seq<Token>, lo: nat, hi: nat, items: seq<Syntax>)
    decreases items, 0, |items|
  {
    if items == [] then lo < |ts| && Is(ts[lo], RBRACKET) && hi == lo + 1
    else exists mid: nat :: SpellsItem(ts, lo, mid, hi, items)
  }

  ghost predicate SpellsItem(ts: seq<Token>, lo: nat, mid: nat, hi: nat, items: seq<Syntax>)
    requires items != []
    decreases items, 0, 0
  {
    && Spells(ts, lo, mid, items[0])
    && Separator(ts, mid, |items| == 1, RBRACKET)
    && if |items| == 1 then hi == mid + 1 else SpellsItems(ts, mid + 1, hi, items[1..])
  }

  ghost predicate SpellsEntries(ts: seq<Token>, lo: nat, hi: nat, entries: seq<Entry>)
    decreases entries, 0, |entries|
  {
    if entries == [] then lo < |ts| && Is(ts[lo], RBRACE) && hi == lo + 1
    else exists mid: nat :: SpellsEntry(ts, lo, mid, hi, entries)
  }

  ghost predicate SpellsEntry(ts: seq<Token>, lo: nat, mid: nat, hi: nat, entries: seq<Entry>)
    requires entries != []
    decreases entries, 0, 0
  {
    && lo + 1 < |ts| && ts[lo] == Token(StrToken, entries[0].key, entries[0].line) && Is(ts[lo + 1], COLON)
    && Spells(ts, lo + 2, mid, entries[0].value)
    && Separator(ts, mid, |entries| == 1, RBRACE)
    && if |entries| == 1 then hi == mid + 1 else SpellsEntries(ts, mid + 1, hi, entries[1..])
  }

  // ---------------------------------------------------------------- meaning

  /** The node a value should become: a later entry with the same key wins. */
  function Meaning(v: Syntax): Node
    decreases v, 1, 0
  {
    match v
    case Scalar(value, line) => ScalarNode(value, line)
    case Array(items) => ArrayNode(seq(|items|, i requires 0 <= i < |items| => Meaning(items[i])))
    case Object(entries) => ObjectNode(Members(entries), KeyLines(entries))
  }

  function Members(entries: seq<Entry>): map<Text, Node>
    decreases entries, 0, |entries|
  {
    if entries == [] then map[]
    else
      var last := entries[|entries| - 1];
      Members(entries[..|entries| - 1])[last.key := Meaning(last.value)]
  }

  function KeyLines(entries: seq<Entry>): map<Text, int> {
    if entries == [] then map[]
    else KeyLines(entries[..|entries| - 1])[entries[|entries| - 1].key := entries[|entries| - 1].line]
  }

  // ---------------------------------------------------------------- theorems

  function Meanings(items: seq<Syntax>): seq<Node> {
    seq(|items|, i requires 0 <= i < |items| => Meaning(items[i]))
  }

  lemma FirstToken(ts: seq<Token>, lo: nat, hi: nat, v: Syntax)
    requires Spells(ts, lo, hi, v)
    ensures lo < |ts| && !Is(ts[lo], RBRACKET) && !Is(ts[lo], RBRACE)
  {
  }

  /** On every spelled value the reader returns its meaning and stops right after
      it: it never runs off the tokens. */
  lemma {:induction false} ParseSpelled(ts: seq<Token>, lo: nat, hi: nat, v: Syntax)
    requires Spells(ts, lo, hi, v)
    ensures ParseValue(ts, lo) == Some(Parsed(Meaning(v), hi))
    decreases v, 1, 0
  {
    match v
    case Scalar(_, _) =>
    case Array(items) =>
      ParseSpelledItems(ts, lo + 1, hi, [], items);
      assert [] + Meanings(items) == Meaning(v).items;
    case Object(entries) =>
      ParseSpelledEntries(ts, lo + 1, hi, [], entries);
      assert [] + entries == entries;
  }

  lemma {:induction false} ParseSpelledItems(ts: seq<Token>, lo: nat, hi: nat, done: seq<Node>, items: seq<Syntax>)
    requires SpellsItems(ts, lo, hi, items)
    ensures ParseItems(ts, lo, done) == Some(Parsed(ArrayNode(done + Meanings(items)), hi))
    decreases items, 0, |items|
  {
    if items == [] {
      assert done + Meanings(items) == done;
    } else {
      var mid: nat :| SpellsItem(ts, lo, mid, hi, items);
      ParseSpelled(ts, lo, mid, items[0]);
      FirstToken(ts, lo, mid, items[0]);
      var more := done + [Meaning(items[0])];
      assert more + Meanings(items[1..]) == done + Meanings(items);
      if |items| == 1 {
        assert items[1..] == [] && more + Meanings(items[1..]) == more;
      } else {
        ParseSpelledItems(ts, mid + 1, hi, more, items[1..]);
      }
    }
  }

  lemma {:induction false} ParseSpelledEntries(ts: seq<Token>, lo: nat, hi: nat, done: seq<Entry>, entries: seq<Entry>)
    requires SpellsEntries(ts, lo, hi, entries)
    ensures ParseMembers(ts, lo, Members(done), KeyLines(done))
         == Some(Parsed(ObjectNode(Members(done + entries), KeyLines(done + entries)), hi))
    decreases entries, 0, |entries|
  {
    if entries == [] {
      assert done + entries == done;
    } else {
      var mid: nat :| SpellsEntry(ts, lo, mid, hi, entries);
      ParseSpelled(ts, lo + 2, mid, entries[0].value);
      var more := done + [entries[0]];
      assert more[..|more| - 1] == done;
      assert more + entries[1..] == done + entries;
      if |entries| == 1 {
        assert more == done + entries;
      } else {
        ParseSpelledEntries(ts, mid + 1, hi, more, entries[1..]);
      }
    }
  }

  /** The reported line of a key is the line of its last occurrence. */
  lemma {:induction false} LastKeyLine(entries: seq<Entry>, i: nat)
    requires i < |entries| && forall j :: i < j < |entries| ==> entries[j].key != entries[i].key
    ensures entries[i].key in KeyLines(entries) && KeyLines(entries)[entries[i].key] == entries[i].line
    ensures entries[i].key in Members(entries) && Members(entries)[entries[i].key] == Meaning(entries[i].value)
  {
    if i < |entries| - 1 {
      LastKeyLine(entries[..|entries| - 1], i);
    }
  }

  /** No other key is reported. */
  lemma {:induction false} OnlyWrittenKeys(entries: seq<Entry>, k: Text)
    ensures k in KeyLines(entries) <==> exists i :: 0 <= i < |entries| && entries[i].key == k
    ensures k in Members(entries) <==> k in KeyLines(entries)
  {
    if entries != [] {
      var init := entries[..|entries| - 1];
      OnlyWrittenKeys(init, k);
      if i :| 0 <= i < |init| && init[i].key == k {
        assert entries[i].key == k;
      }
      if i :| 0 <= i < |entries| && entries[i].key == k {
        assert i < |init| ==> init[i].key == k;
      }
    }
  }

  // ---------------------------------------------------------------- where things stand

  /** How many tokens a value is written with. */
  ghost function Width(v: Syntax): nat
    decreases v, 1, 0
  {
    match v
    case Scalar(_, _) => 1
    case Array(items) => 1 + ItemsWidth(items)
    case Object(entries) => 1 + EntriesWidth(entries)
  }

  /** The tokens of the items, their commas and the closing bracket. */
  ghost function ItemsWidth(items: seq<Syntax>): nat
    decreases items, 0, |items|
  {
    if items == [] then 1
    else Width(items[0]) + 1 + if |items| == 1 then 0 else ItemsWidth(items[1..])
  }

  ghost function EntriesWidth(entries: seq<Entry>): nat
    decreases entries, 0, |entries|
  {
    if entries == [] then 1
    else Width(entries[0].value) + 3 + if |entries| == 1 then 0 else EntriesWidth(entries[1..])
  }

  lemma {:induction false} SpelledWidth(ts: seq<Token>, lo: nat, hi: nat, v: Syntax)
    requires Spells(ts, lo, hi, v)
    ensures hi == lo + Width(v)
    decreases v, 1, 0
  {
    match v
    case Scalar(_, _) =>
    case Array(items) => SpelledItemsWidth(ts, lo + 1, hi, items);
    case Object(entries) => SpelledEntriesWidth(ts, lo + 1, hi, entries);
  }

  lemma {:induction false} SpelledItemsWidth(ts: seq<Token>, lo: nat, hi: nat, items: seq<Syntax>)
    requires SpellsItems(ts, lo, hi, items)
    ensures hi == lo + ItemsWidth(items)
    decreases items, 0, |items|
  {
    if items != [] {
      var mid: nat :| SpellsItem(ts, lo, mid, hi, items);
      SpelledWidth(ts, lo, mid, items[0]);
      if |items| > 1 { SpelledItemsWidth(ts, mid + 1, hi, items[1..]); }
    }
  }

  lemma {:induction false} SpelledEntriesWidth(ts: seq<Token>, lo: nat, hi: nat, entries: seq<Entry>)
    requires SpellsEntries(ts, lo, hi, entries)
    ensures hi == lo + EntriesWidth(entries)
    decreases entries, 0, |entries|
  {
    if entries != [] {
      var mid: nat :| SpellsEntry(ts, lo, mid, hi, entries);
      SpelledWidth(ts, lo + 2, mid, entries[0].value);
      if |entries| > 1 { SpelledEntriesWidth(ts, mid + 1, hi, entries[1..]); }
    }
  }

  /** How many tokens after its object's opening brace the key of entry `i` stands. */
  ghost function KeyToken(entries: seq<Entry>, i: nat): nat
    requires i < |entries|
  {
    if i == 0 then 0 else Width(entries[0].value) + 3 + KeyToken(entries[1..], i - 1)
  }

  /** Entry `i` of a spelled object stands at its own token, its value two tokens further on. */
  lemma {:induction false} EntryToken(ts: seq<Token>, lo: nat, hi: nat, entries: seq<Entry>, i: nat)
    requires SpellsEntries(ts, lo, hi, entries) && i < |entries|
    ensures var p := lo + KeyToken(entries, i);
            && p < |ts| && ts[p] == Token(StrToken, entries[i].key, entries[i].line)
            && Spells(ts, p + 2, p + 2 + Width(entries[i].value), entries[i].value)
    decreases |entries|
  {
    var mid: nat :| SpellsEntry(ts, lo, mid, hi, entries);
    SpelledWidth(ts, lo + 2, mid, entries[0].value);
    if i > 0 { EntryToken(ts, mid + 1, hi, entries[1..], i - 1); }
  }

  /** Later entries stand further on. */
  lemma {:induction false} KeyTokensIncrease(entries: seq<Entry>, i: nat, j: nat)
    requires i < j < |entries|
    ensures KeyToken(entries, i) < KeyToken(entries, j)
  {
    if i > 0 { KeyTokensIncrease(entries[1..], i - 1, j - 1); }
  }
}
