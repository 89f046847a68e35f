/** Exactly which texts the parser accepts: whatever it accepts is spelled by the bytes it passed, by the
    grammar of JsonRelaxed, and whatever is spelled is read to its end if it fits under the nesting
    limit. */
module JsonExact {
  import opened Bytes
  import opened JsonTree
  import opened JsonParser
  import opened JsonGrammar
  import opened JsonRelaxed
  import JsonNumber
  import JsonString

  // ---- what is accepted is spelled ----

  lemma SkipBlank(c: bytes, i: nat)
    requires i <= |c|
    ensures Blank(c, i, SkipSpace(c, i))
  {}

  lemma BlankJoin(c: bytes, i: nat, k: nat, j: nat)
    requires Blank(c, i, k) && Blank(c, k, j)
    ensures Blank(c, i, j)
  {}

  /** Whatever the parser accepts is spelled by the bytes it passed. */
  lemma {:induction false} Accepted(c: bytes, i: nat, depth: nat)
    requires i <= |c| && ParseValue(c, i, depth).ok
    ensures Spells(c, i, ParseValue(c, i, depth).offset, ParseValue(c, i, depth).value)
    decreases |c| - i, 3
  {
    hide ParseNumber, JsonString.ParseString, ParseArray, ParseObject, Numeral, StringLiteral, SpellsItems, SpellsMembers;
    if LiteralAt(c, i, NULL_LITERAL) || LiteralAt(c, i, FALSE_LITERAL) || LiteralAt(c, i, TRUE_LITERAL) {
    } else if c[i] == QUOTE {
      StringAccepted(c, i);
    } else if c[i] == MINUS || IsDigit(c[i]) {
      NumberAccepted(c, i, depth);
    } else if c[i] == OPEN_BRACKET {
      ArrayAccepted(c, i, depth);
    } else {
      ObjectAccepted(c, i, depth);
    }
  }

  lemma {:induction false} ArrayAccepted(c: bytes, i: nat, depth: nat)
    requires i < |c| && c[i] == OPEN_BRACKET && ParseArray(c, i, depth).ok
    ensures Spells(c, i, ParseArray(c, i, depth).offset, ParseArray(c, i, depth).value)
    decreases |c| - i, 2
  {
    hide ParseItems, SkipSpace, Padded, Blank;
    var first := SkipSpace(c, i + 1);
    SkipBlank(c, i + 1);
    if c[first] != CLOSE_BRACKET {
      var more := ItemsAccepted(c, i + 1, first - 1, depth + 1, []);
      assert [] + more == more;
    } else {
      assert SpellsItems(c, i + 1, first, []);
    }
  }

  lemma {:induction false} ItemsAccepted(c: bytes, start: nat, before: nat, depth: nat, items: seq<Json>) returns (more: seq<Json>)
    requires before < |c| && depth >= 1 && Blank(c, start, before + 1) && ParseItems(c, before, depth, items).ok
    ensures var r := ParseItems(c, before, depth, items);
            r.value == Array(items + more) && start < r.offset && c[r.offset - 1] == CLOSE_BRACKET &&
            more != [] && SpellsItems(c, start, r.offset - 1, more)
    decreases |c| - before, 0
  {
    hide ParseValue, SkipSpace, Padded, Blank;
    var v := ParseValue(c, SkipSpace(c, before + 1), depth);
    var next := SkipSpace(c, v.offset);
    PaddedAccepted(c, start, before + 1, depth);
    if c[next] == COMMA {
      assert Blank(c, next + 1, next + 1) by { NoBlank(c, next + 1); }
      var rest := ItemsAccepted(c, next + 1, next, depth, items + [v.value]);
      more := [v.value] + rest;
      assert more[1..] == rest && items + [v.value] + rest == items + more;
    } else {
      more := [v.value];
    }
  }

  lemma NoBlank(c: bytes, i: nat)
    requires i <= |c|
    ensures Blank(c, i, i)
  {}

  /** A value read behind white space, and the white space behind it. */
  lemma {:induction false} PaddedAccepted(c: bytes, start: nat, i: nat, depth: nat)
    requires i <= |c| && Blank(c, start, i) && ParseValue(c, SkipSpace(c, i), depth).ok
    ensures var v := ParseValue(c, SkipSpace(c, i), depth);
            start < SkipSpace(c, v.offset) && Padded(c, start, SkipSpace(c, v.offset), v.value)
    decreases |c| - i, 4
  {
    hide ParseValue, SkipSpace, Spells, Blank;
    var a := SkipSpace(c, i);
    var v := ParseValue(c, a, depth);
    SkipBlank(c, i);
    BlankJoin(c, start, i, a);
    Accepted(c, a, depth);
    SkipBlank(c, v.offset);
    assert start <= a by { BlankIsRange(c, start, a); }
  }

  lemma BlankIsRange(c: bytes, i: nat, j: nat)
    requires Blank(c, i, j)
    ensures i <= j <= |c|
  {}

  lemma {:induction false} ObjectAccepted(c: bytes, i: nat, depth: nat)
    requires i < |c| && c[i] == OPEN_BRACE && ParseObject(c, i, depth).ok
    ensures Spells(c, i, ParseObject(c, i, depth).offset, ParseObject(c, i, depth).value)
    decreases |c| - i, 2
  {
    hide ParseMembers, SkipSpace, SpellsMember, Blank;
    var first := SkipSpace(c, i + 1);
    SkipBlank(c, i + 1);
    if c[first] != CLOSE_BRACE {
      var more := MembersAccepted(c, i + 1, first - 1, depth + 1, []);
      assert [] + more == more;
    } else {
      assert SpellsMembers(c, i + 1, first, []);
    }
  }

  lemma {:induction false} MembersAccepted(c: bytes, start: nat, before: nat, depth: nat, ms: seq<Member>) returns (more: seq<Member>)
    requires before < |c| && depth >= 1 && Blank(c, start, before + 1) && ParseMembers(c, before, depth, ms).ok
    ensures var r := ParseMembers(c, before, depth, ms);
            r.value == Object(ms + more) && start < r.offset && c[r.offset - 1] == CLOSE_BRACE &&
            more != [] && SpellsMembers(c, start, r.offset - 1, more)
    decreases |c| - before, 1
  {
    hide ParseValue, ParseKey, SkipSpace, SpellsMember, Blank;
    var k := ParseKey(c, before);
    var v := ParseValue(c, k.offset, depth);
    var next := SkipSpace(c, v.offset);
    var m := Member(k.str, v.value);
    MemberAccepted(c, start, before, depth);
    if c[next] == COMMA {
      assert Blank(c, next + 1, next + 1) by { NoBlank(c, next + 1); }
      var rest := MembersAccepted(c, next + 1, next, depth, ms + [m]);
      more := [m] + rest;
      assert more[1..] == rest && ms + [m] + rest == ms + more;
    } else {
      more := [m];
    }
  }

  lemma {:induction false} MemberAccepted(c: bytes, start: nat, before: nat, depth: nat)
    requires before < |c| && Blank(c, start, before + 1) && ParseKey(c, before).ok
    requires ParseValue(c, ParseKey(c, before).offset, depth).ok
    ensures var k := ParseKey(c, before); var v := ParseValue(c, k.offset, depth);
            start < SkipSpace(c, v.offset) && SpellsMember(c, start, SkipSpace(c, v.offset), Member(k.str, v.value))
    decreases |c| - before, 0
  {
    hide ParseValue, JsonString.ParseString, SkipSpace, StringLiteral, Padded, Blank;
    var a := SkipSpace(c, before + 1);
    var key := JsonString.ParseString(c, a);
    var colon := SkipSpace(c, key.offset);
    SkipBlank(c, before + 1);
    BlankJoin(c, start, before + 1, a);
    StringAccepted(c, a);
    SkipBlank(c, key.offset);
    assert start <= a by { BlankIsRange(c, start, a); }
    assert Blank(c, colon + 1, colon + 1) by { NoBlank(c, colon + 1); }
    PaddedAccepted(c, colon + 1, colon + 1, depth);
  }

  // ---- what is spelled is read ----

  lemma SpellStart(c: bytes, i: nat, j: nat, t: Json)
    requires Spells(c, i, j, t)
    ensures i < j <= |c| && StartsValue(c[i]) && c[i] > 32
  {
    hide Numeral, JsonNumber.StrtodOf, SpellsItems, SpellsMembers, Unbroken, Spelled;
    if t.Number? || t.Real? {
      assert Numeral(c[i..j], t);
      NumeralStart(c[i..j], t);
      assert c[i..j][0] == c[i];
    } else if t.Null? || t.False? || t.True? {
      assert |c[i..j]| > 0 && c[i..j][0] == c[i];
    }
  }

  lemma NumeralStart(s: bytes, t: Json)
    requires Numeral(s, t)
    ensures s != [] && StartsValue(s[0])
  {}

  lemma SkipOver(c: bytes, i: nat, a: nat)
    requires Blank(c, i, a) && a < |c| && c[a] > 32
    ensures SkipSpace(c, i) == a
  {
    SkipTo(c, i, a);
  }

  /** What parsing a text must give: its value and its exact end within the limit, and a refusal
      beyond it. */
  ghost predicate Returns(r: Outcome, t: Json, e: nat, depth: nat, fits: bool) {
    if fits then r == Outcome(true, t, e, depth) else !r.ok
  }

  /** A spelled value that nothing runs on is read to its end if it fits, and refused otherwise. */
  lemma {:induction false} SpelledRead(c: bytes, i: nat, j: nat, t: Json, depth: nat)
    requires Spells(c, i, j, t) && (IsNumber(t) ==> Delimited(c, j)) && depth <= NESTING_LIMIT
    ensures Returns(ParseValue(c, i, depth), t, j, depth, depth + Nesting(t) <= NESTING_LIMIT)
    decreases t, 2
  {
    hide ParseValue, ParseArray, ParseObject, JsonString.ParseString, Numeral, StringLiteral, SpellsItems, SpellsMembers, Delimited;
    SpellStart(c, i, j, t);
    match t
    case Number(_) => NumberRead(c, i, j, t, depth);
    case Real(_) => NumberRead(c, i, j, t, depth);
    case String(s) =>
      StringRead(c, i, j, s);
      assert c[i] == QUOTE by { LiteralQuote(c, i, j, s); }
      Dispatch(c, i, depth);
    case Array(items) =>
      Dispatch(c, i, depth);
      ArrayRead(c, i, j, items, depth);
    case Object(ms) =>
      Dispatch(c, i, depth);
      ObjectRead(c, i, j, ms, depth);
    case _ => WordRead(c, i, j, t, depth);
  }

  lemma LiteralQuote(c: bytes, i: nat, j: nat, s: bytes)
    requires StringLiteral(c, i, j, s)
    ensures i < j <= |c| && c[i] == QUOTE
  {}

  lemma WordRead(c: bytes, i: nat, j: nat, t: Json, depth: nat)
    requires Spells(c, i, j, t) && (t.Null? || t.False? || t.True?)
    ensures ParseValue(c, i, depth) == Outcome(true, t, j, depth)
  {
    assert c[i..j][0] == c[i];
    if !t.Null? && LiteralAt(c, i, NULL_LITERAL) { LiteralStart(c, i, NULL_LITERAL); }
    if t.True? && LiteralAt(c, i, FALSE_LITERAL) { LiteralStart(c, i, FALSE_LITERAL); }
  }

  /** A value with white space around it, and a byte behind that ends it. */
  lemma {:induction false} PaddedRead(c: bytes, i: nat, j: nat, t: Json, depth: nat)
    requires Padded(c, i, j, t) && depth <= NESTING_LIMIT
    requires j < |c| && c[j] > 32 && !JsonNumber.IsNumberByte(c[j])
    ensures i < j && SkipSpace(c, i) < j && c[SkipSpace(c, i)] > 32
    ensures var r := ParseValue(c, SkipSpace(c, i), depth);
            if depth + Nesting(t) <= NESTING_LIMIT then r.ok && r.value == t && r.depth == depth && SkipSpace(c, r.offset) == j
            else !r.ok
    decreases t, 3
  {
    hide Spells, Blank, ParseValue, SkipSpace, Nesting;
    var a: nat, b: nat :| Blank(c, i, a) && Spells(c, a, b, t) && Blank(c, b, j);
    SpellStart(c, a, b, t);
    BlankIsRange(c, i, a);
    BlankIsRange(c, b, j);
    SkipOver(c, i, a);
    SkipOver(c, b, j);
    assert Delimited(c, b) by { EndsThere(c, b, j); }
    SpelledRead(c, a, b, t, depth);
  }

  lemma EndsThere(c: bytes, b: nat, j: nat)
    requires Blank(c, b, j) && j < |c| && !JsonNumber.IsNumberByte(c[j])
    ensures Delimited(c, b)
  {}

  lemma {:induction false} ArrayRead(c: bytes, i: nat, j: nat, items: seq<Json>, depth: nat)
    requires Enclosed(c, i, j, OPEN_BRACKET, CLOSE_BRACKET) && SpellsItems(c, i + 1, j - 1, items) && depth <= NESTING_LIMIT
    ensures Returns(ParseArray(c, i, depth), Array(items), j, depth, depth + Nesting(Array(items)) <= NESTING_LIMIT)
    decreases items, 5
  {
    hide ParseItems, SkipSpace, Padded, Blank;
    if items == [] {
      SkipOver(c, i + 1, j - 1);
    } else {
      AheadOfItems(c, i + 1, j - 1, items);
      if depth < NESTING_LIMIT {
        ItemsRead(c, i + 1, SkipSpace(c, i + 1) - 1, j - 1, [], items, depth + 1);
        assert [] + items == items;
      }
    }
  }

  lemma AheadOfItems(c: bytes, i: nat, j: nat, items: seq<Json>)
    requires items != [] && SpellsItems(c, i, j, items)
    ensures i <= |c| && SkipSpace(c, i) < |c| && StartsValue(c[SkipSpace(c, i)])
  {
    hide Spells, Blank, SkipSpace;
    if |items| == 1 {
      AheadOfPadded(c, i, j, items[0]);
    } else {
      var k: nat :| k < |c| && Padded(c, i, k, items[0]);
      AheadOfPadded(c, i, k, items[0]);
    }
  }

  lemma AheadOfPadded(c: bytes, i: nat, j: nat, t: Json)
    requires Padded(c, i, j, t)
    ensures i <= |c| && SkipSpace(c, i) < |c| && StartsValue(c[SkipSpace(c, i)])
  {
    hide Spells, Blank, SkipSpace;
    var a: nat, b: nat :| Blank(c, i, a) && Spells(c, a, b, t);
    SpellStart(c, a, b, t);
    BlankIsRange(c, i, a);
    SkipOver(c, i, a);
  }

  lemma FirstNesting(items: seq<Json>)
    requires items != []
    ensures ItemsNesting(items, 0) == Max(Nesting(items[0]), ItemsNesting(items[1..], 0))
    ensures |items| == 1 ==> ItemsNesting(items, 0) == Nesting(items[0])
  {
    hide Nesting;
    var rest := items[1..];
    assert items == [items[0]] + rest;
    assert ItemsNesting(items, 0) == Max(Nesting(items[0]), ItemsNesting(items, 1));
    hide *;
    ItemsNestingShift(items[0], rest, 0);
    assert rest == [] ==> ItemsNesting(rest, 0) == 0 by { NoItems(rest); }
  }

  lemma NoItems(items: seq<Json>)
    ensures items == [] ==> ItemsNesting(items, 0) == 0
  {}

  /** The loop of parse_array over spelled elements, from the white space in front of the first. */
  lemma {:induction false} ItemsRead(c: bytes, i: nat, before: nat, j: nat, done: seq<Json>, items: seq<Json>, depth: nat)
    requires items != [] && SpellsItems(c, i, j, items) && ByteAt(c, j, CLOSE_BRACKET) && 1 <= depth <= NESTING_LIMIT
    requires before < |c| && i <= |c| && SkipSpace(c, before + 1) == SkipSpace(c, i)
    ensures Returns(ParseItems(c, before, depth, done), Array(done + items), j + 1, depth - 1,
                    depth + ItemsNesting(items, 0) <= NESTING_LIMIT)
    decreases items, 4
  {
    hide ParseValue, SkipSpace, Padded, Nesting, ItemsNesting;
    FirstNesting(items);
    if |items| == 1 {
      PaddedRead(c, i, j, items[0], depth);
      assert done + items == done + [items[0]];
    } else {
      var k: nat :| k < |c| && c[k] == COMMA && Padded(c, i, k, items[0]) && SpellsItems(c, k + 1, j, items[1..]);
      PaddedRead(c, i, k, items[0], depth);
      ItemsRead(c, k + 1, k, j, done + [items[0]], items[1..], depth);
      assert done + [items[0]] + items[1..] == done + items;
    }
  }

  lemma {:induction false} ObjectRead(c: bytes, i: nat, j: nat, ms: seq<Member>, depth: nat)
    requires Enclosed(c, i, j, OPEN_BRACE, CLOSE_BRACE) && SpellsMembers(c, i + 1, j - 1, ms) && depth <= NESTING_LIMIT
    ensures Returns(ParseObject(c, i, depth), Object(ms), j, depth, depth + Nesting(Object(ms)) <= NESTING_LIMIT)
    decreases ms, 6
  {
    hide ParseMembers, SkipSpace, SpellsMember, Blank;
    if ms == [] {
      SkipOver(c, i + 1, j - 1);
    } else {
      AheadOfMembers(c, i + 1, j - 1, ms);
      if depth < NESTING_LIMIT {
        MembersRead(c, i + 1, SkipSpace(c, i + 1) - 1, j - 1, [], ms, depth + 1);
        assert [] + ms == ms;
      }
    }
  }

  lemma AheadOfMembers(c: bytes, i: nat, j: nat, ms: seq<Member>)
    requires ms != [] && SpellsMembers(c, i, j, ms)
    ensures i <= |c| && SkipSpace(c, i) < |c| && c[SkipSpace(c, i)] == QUOTE
  {
    hide SpellsMember, SkipSpace;
    if |ms| == 1 {
      AheadOfMember(c, i, j, ms[0]);
    } else {
      var k: nat :| k < |c| && SpellsMember(c, i, k, ms[0]);
      AheadOfMember(c, i, k, ms[0]);
    }
  }

  lemma AheadOfMember(c: bytes, i: nat, j: nat, m: Member)
    requires SpellsMember(c, i, j, m)
    ensures i <= |c| && SkipSpace(c, i) < |c| && c[SkipSpace(c, i)] == QUOTE
  {
    hide StringLiteral, Padded, Blank, SkipSpace;
    var a: nat, b: nat :| Blank(c, i, a) && StringLiteral(c, a, b, m.key);
    LiteralQuote(c, a, b, m.key);
    BlankIsRange(c, i, a);
    SkipOver(c, i, a);
  }

  lemma FirstMemberNesting(ms: seq<Member>)
    requires ms != []
    ensures MembersNesting(ms, 0) == Max(Nesting(ms[0].item), MembersNesting(ms[1..], 0))
    ensures |ms| == 1 ==> MembersNesting(ms, 0) == Nesting(ms[0].item)
  {
    hide Nesting;
    assert ms == [ms[0]] + ms[1..];
    MembersNestingShift(ms[0], ms[1..], 0);
  }

  /** Key, colon and value of a spelled member. */
  lemma {:induction false} MemberRead(c: bytes, i: nat, before: nat, j: nat, m: Member, depth: nat)
    requires SpellsMember(c, i, j, m) && depth <= NESTING_LIMIT
    requires j < |c| && c[j] > 32 && !JsonNumber.IsNumberByte(c[j])
    requires before < |c| && i <= |c| && SkipSpace(c, before + 1) == SkipSpace(c, i)
    ensures ParseKey(c, before).ok && ParseKey(c, before).str == m.key
    ensures var r := ParseValue(c, ParseKey(c, before).offset, depth);
            if depth + Nesting(m.item) <= NESTING_LIMIT then r.ok && r.value == m.item && r.depth == depth && SkipSpace(c, r.offset) == j
            else !r.ok
    decreases m, 3
  {
    hide ParseValue, JsonString.ParseString, SkipSpace, StringLiteral, Padded, Blank, Nesting;
    var a: nat, b: nat, k: nat :|
      Blank(c, i, a) && StringLiteral(c, a, b, m.key) && Blank(c, b, k) && ByteAt(c, k, COLON) && Padded(c, k + 1, j, m.item);
    LiteralQuote(c, a, b, m.key);
    StringRead(c, a, b, m.key);
    BlankIsRange(c, i, a);
    BlankIsRange(c, b, k);
    SkipOver(c, i, a);
    SkipOver(c, b, k);
    PaddedRead(c, k + 1, j, m.item, depth);
  }

  /** The loop of parse_object over spelled members. */
  lemma {:induction false} MembersRead(c: bytes, i: nat, before: nat, j: nat, done: seq<Member>, ms: seq<Member>, depth: nat)
    requires ms != [] && SpellsMembers(c, i, j, ms) && ByteAt(c, j, CLOSE_BRACE) && 1 <= depth <= NESTING_LIMIT
    requires before < |c| && i <= |c| && SkipSpace(c, before + 1) == SkipSpace(c, i)
    ensures Returns(ParseMembers(c, before, depth, done), Object(done + ms), j + 1, depth - 1,
                    depth + MembersNesting(ms, 0) <= NESTING_LIMIT)
    decreases ms, 5
  {
    hide ParseValue, ParseKey, SkipSpace, SpellsMember, Nesting, MembersNesting;
    FirstMemberNesting(ms);
    var m := ms[0];
    assert m == Member(m.key, m.item);
    if |ms| == 1 {
      MemberRead(c, i, before, j, m, depth);
      assert done + ms == done + [m];
    } else {
      var k: nat :| k < |c| && c[k] == COMMA && SpellsMember(c, i, k, m) && SpellsMembers(c, k + 1, j, ms[1..]);
      MemberRead(c, i, before, k, m, depth);
      MembersRead(c, k + 1, k, j, done + [m], ms[1..], depth);
      assert done + [m] + ms[1..] == done + ms;
    }
  }

  // ---- exactly ----

  /** Every value the parser accepts respects the nesting limit. */
  lemma ParsedNesting(c: bytes, off: nat, depth: nat)
    requires off <= |c| && depth <= NESTING_LIMIT && ParseValue(c, off, depth).ok
    ensures depth + Nesting(ParseValue(c, off, depth).value) <= NESTING_LIMIT
  {
    hide ParseValue, Spells, Nesting, Delimited;
    var r := ParseValue(c, off, depth);
    Accepted(c, off, depth);
    if IsNumber(r.value) {
      NumberIsFlat(r.value);
    } else {
      SpelledRead(c, off, r.offset, r.value, depth);
    }
  }

  /** Of a text that nothing runs on, the parser reads exactly what it spells, if that fits under the
      nesting limit. */
  lemma ExactValue(c: bytes, i: nat, j: nat, t: Json, depth: nat)
    requires i <= |c| && Delimited(c, j) && depth <= NESTING_LIMIT
    ensures ParseValue(c, i, depth) == Outcome(true, t, j, depth) <==>
            Spells(c, i, j, t) && depth + Nesting(t) <= NESTING_LIMIT
  {
    hide ParseValue, Spells, Nesting, Delimited;
    if ParseValue(c, i, depth) == Outcome(true, t, j, depth) {
      Accepted(c, i, depth);
      ParsedNesting(c, i, depth);
    }
    if Spells(c, i, j, t) {
      SpellStart(c, i, j, t);
      SpelledRead(c, i, j, t, depth);
    }
  }

  /** Without the terminator check a buffer is accepted with the value `t` if and only if it begins
      with a text of that value, nested at most 1000 deep. */
  lemma ExactText(c: bytes, t: Json)
    ensures ParseText(c, false) == Some(t) <==> BeginsWith(c, t) && Nesting(t) <= NESTING_LIMIT
  {
    hide ParseText, BeginsWith, Nesting;
    if ParseText(c, false) == Some(t) { TextAccepted(c, t); }
    if BeginsWith(c, t) { TextRead(c, t); }
  }

  lemma TextAccepted(c: bytes, t: Json)
    requires ParseText(c, false) == Some(t)
    ensures BeginsWith(c, t) && Nesting(t) <= NESTING_LIMIT
  {
    hide ParseValue, SkipSpace, Spells, Blank, Nesting, LiteralAt, Longest;
    var a := SkipSpace(c, Front(c));
    var v := ParseValue(c, a, 0);
    SkipBlank(c, Front(c));
    Accepted(c, a, 0);
    ParsedNesting(c, a, 0);
    if IsNumber(t) { NumberValue(c, a, 0); NumberIsLongest(c, a, 0); }
  }

  /** Only parse_number makes numbers. */
  lemma NumberValue(c: bytes, i: nat, depth: nat)
    requires i <= |c| && ParseValue(c, i, depth).ok && IsNumber(ParseValue(c, i, depth).value)
    ensures ParseValue(c, i, depth) == ParseNumber(c, i, depth)
  {
    hide ParseNumber, ParseArray, ParseObject, JsonString.ParseString;
  }

  lemma TextRead(c: bytes, t: Json)
    requires BeginsWith(c, t)
    ensures ParseText(c, false) == if Nesting(t) <= NESTING_LIMIT then Some(t) else None
  {
    hide ParseValue, ParseNumber, SkipSpace, Spells, Blank, Nesting, LiteralAt, Longest;
    var front := Front(c);
    var a: nat, b: nat :| Blank(c, front, a) && Spells(c, a, b, t) && (IsNumber(t) ==> Longest(c, a, b));
    SpellStart(c, a, b, t);
    BlankIsRange(c, front, a);
    SkipOver(c, front, a);
    if IsNumber(t) {
      NumberSpelled(c, a, b, t);
      LongestRead(c, a, b, t, 0);
      Dispatch(c, a, 0);
      assert Nesting(t) == 0 by { NumberIsFlat(t); }
    } else {
      SpelledRead(c, a, b, t, 0);
    }
  }

  lemma NumberSpelled(c: bytes, a: nat, b: nat, t: Json)
    requires Spells(c, a, b, t) && IsNumber(t)
    ensures a < b <= |c| && Numeral(c[a..b], t) && (c[a] == MINUS || IsDigit(c[a]))
  {
    hide JsonNumber.StrtodOf;
    assert c[a..b][0] == c[a];
  }

  lemma NumberIsFlat(t: Json)
    requires IsNumber(t)
    ensures Nesting(t) == 0
  {}

  /** The main theorem: a buffer is accepted with the value `t` if and only if it is a document of
      the relaxed grammar with that value, nested at most 1000 deep. */
  lemma ExactDocument(c: bytes, t: Json)
    ensures ParseText(c, true) == Some(t) <==> Document(c, t) && Nesting(t) <= NESTING_LIMIT
  {
    hide ParseText, Document, Nesting;
    if ParseText(c, true) == Some(t) { DocumentAccepted(c, t); }
    if Document(c, t) { DocumentRead(c, t); }
  }

  lemma DocumentAccepted(c: bytes, t: Json)
    requires ParseText(c, true) == Some(t)
    ensures Document(c, t) && Nesting(t) <= NESTING_LIMIT
  {
    hide ParseValue, SkipSpace, Spells, Blank, Nesting, LiteralAt;
    var a := SkipSpace(c, Front(c));
    var v := ParseValue(c, a, 0);
    SkipBlank(c, Front(c));
    Accepted(c, a, 0);
    ParsedNesting(c, a, 0);
    OnlyAtTheEnd(c, v.offset);
  }

  /** Skipping stops on a NUL only at the end of the buffer. */
  lemma OnlyAtTheEnd(c: bytes, b: nat)
    requires b <= |c| && ByteAt(c, SkipSpace(c, b), NUL)
    ensures c[|c| - 1] == NUL && Blank(c, b, |c| - 1)
  {}

  lemma DocumentRead(c: bytes, t: Json)
    requires Document(c, t)
    ensures ParseText(c, true) == if Nesting(t) <= NESTING_LIMIT then Some(t) else None
  {
    hide ParseValue, SkipSpace, Spells, Blank, Nesting, LiteralAt;
    var front, last := Front(c), |c| - 1;
    assert Padded(c, front, last, t);
    var a: nat, b: nat :| Blank(c, front, a) && Spells(c, a, b, t) && Blank(c, b, last);
    SpellStart(c, a, b, t);
    BlankIsRange(c, front, a);
    BlankIsRange(c, b, last);
    SkipOver(c, front, a);
    ToTheEnd(c, b);
    SpelledRead(c, a, b, t, 0);
  }

  lemma ToTheEnd(c: bytes, b: nat)
    requires c != [] && c[|c| - 1] == NUL && Blank(c, b, |c| - 1)
    ensures Delimited(c, b) && SkipSpace(c, b) == |c| - 1
  {
    SkipToTerminator(c, b);
  }

  /** Quote, backslash, `u123`, two backslashes, quote: the malformed escape takes the first of the
      two backslashes, so that the second one takes the closing quote. */
  const OUT_OF_STEP: bytes := [QUOTE, BACKSLASH, LOWER_U, 49, 50, 51, BACKSLASH, BACKSLASH, QUOTE, NUL]

  /** It is no text of RFC 8259, and is accepted as a NUL and a quote. */
  lemma QuoteTaken()
    ensures ParseText(OUT_OF_STEP, true) == Some(String([NUL, QUOTE]))
  {
    hide *;
    ExactDocument(OUT_OF_STEP, String([NUL, QUOTE]));
    OutOfStepSpells();
    assert Padded(OUT_OF_STEP, 0, 9, String([NUL, QUOTE])) by { PadNothing(OUT_OF_STEP, 0, 9, String([NUL, QUOTE])); }
    OutOfStepEnds();
  }

  lemma OutOfStepEnds()
    ensures Padded(OUT_OF_STEP, 0, 9, String([NUL, QUOTE])) ==> Document(OUT_OF_STEP, String([NUL, QUOTE]))
    ensures Nesting(String([NUL, QUOTE])) <= NESTING_LIMIT
  {
    hide Padded;
    if LiteralAt(OUT_OF_STEP, 0, BOM) { LiteralStart(OUT_OF_STEP, 0, BOM); }
  }

  lemma PadNothing(c: bytes, i: nat, j: nat, t: Json)
    requires Spells(c, i, j, t)
    ensures Padded(c, i, j, t)
  {
    hide Spells;
    SpellStart(c, i, j, t);
    assert Blank(c, i, i) && Blank(c, j, j);
  }

  lemma OutOfStepSpells()
    ensures Spells(OUT_OF_STEP, 0, 9, String([NUL, QUOTE]))
  {
    var c := OUT_OF_STEP;
    var unit, short := Unit([49, 50, 51, BACKSLASH]), Short(QUOTE);
    assert LoosePiece(unit) && PieceValue(unit) == [NUL] && PieceText(unit) == [BACKSLASH, LOWER_U, 49, 50, 51, BACKSLASH];
    TwoPieces(unit, short);
    OutOfStepUnbroken();
    hide Unbroken, PiecesText, PiecesValue, PieceText, PieceValue;
    assert PieceText(unit) + PieceText(short) == c[1..9];
    assert At(c, 1, c[1..9]);
    assert Spelled(c, 1, 8, [unit, short]);
    assert PiecesValue([unit, short]) == [NUL, QUOTE];
  }

  lemma OutOfStepUnbroken()
    ensures Unbroken(OUT_OF_STEP, 1, 8)
  {
    hide Unbroken;
    var c := OUT_OF_STEP;
    StepUnbroken(c, 8, 8);
    StepUnbroken(c, 6, 8);
    StepUnbroken(c, 5, 8);
    StepUnbroken(c, 4, 8);
    StepUnbroken(c, 3, 8);
    StepUnbroken(c, 1, 8);
  }

  lemma StepUnbroken(c: bytes, p: nat, e: nat)
    requires p <= e <= |c|
    ensures Unbroken(c, p, e) <==>
            p == e || (if c[p] == BACKSLASH then Unbroken(c, p + 2, e) else c[p] != QUOTE && Unbroken(c, p + 1, e))
  {}

  lemma TwoPieces(x: Piece, y: Piece)
    requires LoosePiece(x) && LoosePiece(y)
    ensures LoosePieces([x, y]) && PiecesText([x, y]) == PieceText(x) + PieceText(y)
    ensures PiecesValue([x, y]) == PieceValue(x) + PieceValue(y)
  {
    hide PieceText, PieceValue, LoosePiece;
    assert [x, y][1..] == [y] && [y][1..] == [];
    assert PiecesText([y]) == PieceText(y) && PiecesValue([y]) == PieceValue(y);
  }
}
