/** cJSON_Minify: the in-place loop, the pure function it computes, and when minifying formatted
    text gives unformatted text. */
module Minify {
  import opened Bytes
  import opened JsonTree
  import opened JsonPrinter
  import JsonString

  predicate IsBlank(b: byte) { b == SPACE || b == TAB || b == CR || b == LF }

  function SkipLine(s: bytes): (r: bytes)
    ensures |r| <= |s|
  {
    if s == [] then [] else if s[0] == LF then s[1..] else SkipLine(s[1..])
  }

  function SkipBlock(s: bytes): (r: bytes)
    ensures |r| <= |s|
  {
    if s == [] then []
    else if s[0] == STAR && |s| > 1 && s[1] == SLASH then s[2..]
    else SkipBlock(s[1..])
  }

  predicate Second(s: bytes, b: byte) { |s| > 1 && s[1] == b }

  /** What the loop keeps of `s`, outside a string. */
  function Minified(s: bytes): bytes
    decreases |s|
  {
    if s == [] then []
    else if IsBlank(s[0]) then Minified(s[1..])
    else if s[0] == SLASH then
      if Second(s, SLASH) then Minified(SkipLine(s[2..]))
      else if Second(s, STAR) then Minified(SkipBlock(s[2..]))
      else Minified(s[1..])
    else if s[0] == QUOTE then [QUOTE] + MinifiedInString(s[1..])
    else [s[0]] + Minified(s[1..])
  }

  /** The same inside a string: only the pair backslash-quote does not end it. */
  function MinifiedInString(s: bytes): bytes
    decreases |s|
  {
    if s == [] then []
    else if s[0] == QUOTE then [QUOTE] + Minified(s[1..])
    else if s[0] == BACKSLASH && Second(s, QUOTE) then [BACKSLASH, QUOTE] + MinifiedInString(s[2..])
    else [s[0]] + MinifiedInString(s[1..])
  }

  // ---- in place ----

  /** The C string in the array: `s` followed by a NUL. */
  ghost predicate CString(json: array<byte>, s: bytes)
    reads json
  {
    |s| < json.Length && json[..|s|] == s && json[|s|] == NUL && NulFree(s)
  }

  /** From `read` on the text is untouched. */
  ghost predicate Unread(json: array<byte>, s: bytes, read: nat)
    reads json
  {
    read <= |s| < json.Length && json[|s|] == NUL && forall k :: read <= k < |s| ==> json[k] == s[k]
  }

  /** What was written so far is `done`, and writing has not overtaken reading. */
  ghost predicate Progress(json: array<byte>, s: bytes, read: nat, into: nat, done: bytes)
    reads json
  {
    Unread(json, s, read) && into <= read && json[..into] == done
  }

  lemma AtRead(json: array<byte>, s: bytes, read: nat)
    requires NulFree(s) && Unread(json, s, read)
    ensures json[read] == NUL <==> read == |s|
    ensures read < |s| ==> s[read..] == [s[read]] + s[read + 1..] && json[read] == s[read]
    ensures read < |s| ==> (Second(s[read..], QUOTE) <==> json[read + 1] == QUOTE)
    ensures read < |s| ==> (Second(s[read..], SLASH) <==> json[read + 1] == SLASH)
    ensures read < |s| ==> (Second(s[read..], STAR) <==> json[read + 1] == STAR)
    ensures read + 1 < |s| ==> s[read..][2..] == s[read + 2..]
  {
  }

  /** skip_oneline_comment only moves the read position. */
  method SkipOnelineComment(json: array<byte>, ghost s: bytes, start: nat) returns (read: nat)
    requires NulFree(s) && start + 2 <= |s| && Unread(json, s, start)
    ensures start + 2 <= read <= |s| && s[read..] == SkipLine(s[start + 2..])
  {
    read := start + 2;
    AtRead(json, s, read);
    while json[read] != NUL
      invariant start + 2 <= read <= |s|
      invariant json[read] == NUL <==> read == |s|
      invariant SkipLine(s[read..]) == SkipLine(s[start + 2..])
      decreases |s| - read
    {
      AtRead(json, s, read);
      if json[read] == LF { return read + 1; }
      AtRead(json, s, read + 1);
      read := read + 1;
    }
  }

  /** skip_multiline_comment likewise. */
  method SkipMultilineComment(json: array<byte>, ghost s: bytes, start: nat) returns (read: nat)
    requires NulFree(s) && start + 2 <= |s| && Unread(json, s, start)
    ensures start + 2 <= read <= |s| && s[read..] == SkipBlock(s[start + 2..])
  {
    read := start + 2;
    AtRead(json, s, read);
    while json[read] != NUL
      invariant start + 2 <= read <= |s|
      invariant json[read] == NUL <==> read == |s|
      invariant SkipBlock(s[read..]) == SkipBlock(s[start + 2..])
      decreases |s| - read
    {
      AtRead(json, s, read);
      if json[read] == STAR && json[read + 1] == SLASH { return read + 2; }
      AtRead(json, s, read + 1);
      read := read + 1;
    }
  }

  /** Copies one byte down. */
  method Keep(json: array<byte>, ghost s: bytes, read: nat, into: nat, ghost done: bytes)
    requires NulFree(s) && Progress(json, s, read, into, done) && read < |s|
    modifies json
    ensures Progress(json, s, read + 1, into + 1, done + [s[read]])
    ensures json[|s|..] == old(json[|s|..])
  {
    json[into] := json[read];
    assert json[..into + 1] == json[..into] + [s[read]];
  }

  /** minify_string. */
  method MinifyString(json: array<byte>, ghost s: bytes, start: nat, at: nat, ghost sofar: bytes)
    returns (read: nat, into: nat, ghost done: bytes)
    requires NulFree(s) && Progress(json, s, start, at, sofar) && json[start] == QUOTE
    modifies json
    ensures Progress(json, s, read, into, done) && start < read
    ensures done + Minified(s[read..]) == sofar + Minified(s[start..])
    ensures json[|s|..] == old(json[|s|..])
  {
    hide Progress, Minified;
    AtStart(json, s, start, at, sofar);
    PlainStep(sofar, s[start..]);
    Keep(json, s, start, at, sofar);
    read, into, done := start + 1, at + 1, sofar + [QUOTE];
    AtStart(json, s, read, into, done);
    var closed := false;
    while !closed && json[read] != NUL
      invariant start < read && Progress(json, s, read, into, done)
      invariant read <= |s| < json.Length && (json[read] == NUL <==> read == |s|)
      invariant done + (if closed then Minified(s[read..]) else MinifiedInString(s[read..])) == sofar + Minified(s[start..])
      invariant json[|s|..] == old(json[|s|..])
      decreases |s| - read
    {
      read, into, done, closed := KeepInString(json, s, read, into, done);
      AtStart(json, s, read, into, done);
    }
    assert Minified([]) == MinifiedInString([]) by { NothingLeft(); }
  }

  lemma NothingLeft()
    ensures Minified([]) == MinifiedInString([]) == []
  {}

  /** One turn of minify_string's loop: one byte, or two when a quote follows a backslash. */
  method KeepInString(json: array<byte>, ghost s: bytes, from: nat, at: nat, ghost sofar: bytes)
    returns (read: nat, into: nat, ghost done: bytes, closed: bool)
    requires NulFree(s) && Progress(json, s, from, at, sofar) && from < |s|
    modifies json
    ensures Progress(json, s, read, into, done) && from < read <= |s|
    ensures done + (if closed then Minified(s[read..]) else MinifiedInString(s[read..])) == sofar + MinifiedInString(s[from..])
    ensures json[|s|..] == old(json[|s|..])
  {
    hide Progress, Minified, MinifiedInString;
    AtStart(json, s, from, at, sofar);
    StringStep(sofar, s[from..]);
    var b := json[from];
    Keep(json, s, from, at, sofar);
    read, into, done, closed := from + 1, at + 1, sofar + [b], b == QUOTE;
    if b == BACKSLASH {
      AtStart(json, s, read, into, done);
      if json[read] == QUOTE {
        Keep(json, s, read, into, done);
        read, into, done := read + 1, into + 1, done + [QUOTE];
      }
    }
    Bounds(json, s, read, into, done);
  }

  lemma Bounds(json: array<byte>, s: bytes, read: nat, into: nat, done: bytes)
    requires Progress(json, s, read, into, done)
    ensures into <= read <= |s| && Unread(json, s, read)
  {}

  lemma AtStart(json: array<byte>, s: bytes, read: nat, into: nat, done: bytes)
    requires NulFree(s) && Progress(json, s, read, into, done)
    ensures read <= |s| < json.Length && (json[read] == NUL <==> read == |s|)
    ensures read < |s| ==> s[read..] == [s[read]] + s[read + 1..] && json[read] == s[read]
    ensures read < |s| ==> (Second(s[read..], QUOTE) <==> json[read + 1] == QUOTE)
    ensures read < |s| ==> (Second(s[read..], SLASH) <==> json[read + 1] == SLASH)
    ensures read < |s| ==> (Second(s[read..], STAR) <==> json[read + 1] == STAR)
    ensures read + 1 < |s| ==> s[read..][2..] == s[read + 2..]
  {
    AtRead(json, s, read);
  }

  lemma StringStep(done: bytes, s: bytes)
    requires s != []
    ensures done + MinifiedInString(s) ==
            if s[0] == QUOTE then (done + [QUOTE]) + Minified(s[1..])
            else if s[0] == BACKSLASH && Second(s, QUOTE) then (done + [BACKSLASH] + [QUOTE]) + MinifiedInString(s[2..])
            else (done + [s[0]]) + MinifiedInString(s[1..])
  {
    StringCases(s);
    hide Minified, MinifiedInString;
    if s[0] == BACKSLASH && Second(s, QUOTE) {
      var more := MinifiedInString(s[2..]);
      assert [BACKSLASH, QUOTE] == [BACKSLASH] + [QUOTE];
      Reassociate(done, [BACKSLASH] + [QUOTE], more);
      Reassociate(done, [BACKSLASH], [QUOTE]);
    } else {
      Reassociate(done, [s[0]], if s[0] == QUOTE then Minified(s[1..]) else MinifiedInString(s[1..]));
    }
  }

  lemma StringCases(s: bytes)
    requires s != []
    ensures MinifiedInString(s) ==
            if s[0] == QUOTE then [QUOTE] + Minified(s[1..])
            else if s[0] == BACKSLASH && Second(s, QUOTE) then [BACKSLASH, QUOTE] + MinifiedInString(s[2..])
            else [s[0]] + MinifiedInString(s[1..])
  {}

  lemma Reassociate(a: bytes, b: bytes, c: bytes)
    ensures a + (b + c) == (a + b) + c
  {}

  /** One turn of cJSON_Minify's loop: white space and comments are stepped over, a string is
      copied to its end, anything else is copied as one byte. */
  method MinifyStep(json: array<byte>, ghost s: bytes, from: nat, at: nat, ghost sofar: bytes)
    returns (read: nat, into: nat, ghost done: bytes)
    requires NulFree(s) && Progress(json, s, from, at, sofar) && from < |s|
    modifies json
    ensures Progress(json, s, read, into, done) && from < read
    ensures done + Minified(s[read..]) == sofar + Minified(s[from..])
    ensures json[|s|..] == old(json[|s|..])
  {
    hide Progress, Minified, Unread, SkipLine, SkipBlock, NulFree;
    AtStart(json, s, from, at, sofar);
    Bounds(json, s, from, at, sofar);
    PlainStep(sofar, s[from..]);
    read, into, done := from + 1, at, sofar;
    if json[from] == SPACE || json[from] == TAB || json[from] == CR || json[from] == LF {
      Skip(json, s, from, read, into, done);
    } else if json[from] == SLASH {
      if json[from + 1] == SLASH {
        read := SkipOnelineComment(json, s, from);
      } else if json[from + 1] == STAR {
        read := SkipMultilineComment(json, s, from);
      }
      Skip(json, s, from, read, into, done);
    } else if json[from] == QUOTE {
      read, into, done := MinifyString(json, s, from, at, sofar);
    } else {
      done := sofar + [json[from]];
      Keep(json, s, from, at, sofar);
      into := at + 1;
    }
  }

  /** cJSON_Minify in place computes Minified: the write position never passes the read position,
      so nothing is overwritten before it is read. Bytes behind the terminator stay. */
  method MinifyInPlace(json: array<byte>, ghost s: bytes)
    requires CString(json, s)
    modifies json
    ensures |Minified(s)| <= |s| && CString(json, Minified(s))
    ensures json[|s|..] == old(json[|s|..])
  {
    hide Progress, Minified, Unread;
    var read: nat, into: nat := 0, 0;
    ghost var done: bytes := [];
    assert s[0..] == s;
    assert Progress(json, s, 0, 0, []) by { Begin(json, s); }
    AtStart(json, s, read, into, done);
    while json[read] != NUL
      invariant Progress(json, s, read, into, done)
      invariant read <= |s| < json.Length && (json[read] == NUL <==> read == |s|)
      invariant done + Minified(s[read..]) == Minified(s)
      invariant json[|s|..] == old(json[|s|..])
      decreases |s| - read
    {
      read, into, done := MinifyStep(json, s, read, into, done);
      AtStart(json, s, read, into, done);
    }
    Finish(json, s, read, into, done);
    json[into] := NUL;
    assert json[..into] == done;
  }

  lemma Begin(json: array<byte>, s: bytes)
    requires CString(json, s)
    ensures Progress(json, s, 0, 0, [])
  {
    forall k | 0 <= k < |s| ensures json[k] == s[k] { assert json[..|s|][k] == s[k]; }
  }

  lemma Skip(json: array<byte>, s: bytes, read: nat, next: nat, into: nat, done: bytes)
    requires Progress(json, s, read, into, done) && read <= next <= |s|
    ensures Progress(json, s, next, into, done)
  {}

  lemma Finish(json: array<byte>, s: bytes, read: nat, into: nat, done: bytes)
    requires NulFree(s) && Progress(json, s, read, into, done) && read == |s| && done + Minified(s[read..]) == Minified(s)
    ensures into <= |s| < json.Length && json[..into] == done == Minified(s) && NulFree(done)
  {
    assert done + [] == done;
    MinifiedNulFree(s);
  }

  lemma PlainStep(done: bytes, s: bytes)
    requires s != []
    ensures done + Minified(s) ==
            if IsBlank(s[0]) then done + Minified(s[1..])
            else if s[0] == SLASH then
              if Second(s, SLASH) then done + Minified(SkipLine(s[2..]))
              else if Second(s, STAR) then done + Minified(SkipBlock(s[2..]))
              else done + Minified(s[1..])
            else if s[0] == QUOTE then (done + [QUOTE]) + MinifiedInString(s[1..])
            else (done + [s[0]]) + Minified(s[1..])
  {
    hide MinifiedInString, SkipLine, SkipBlock;
    Reassociate(done, [s[0]], if s[0] == QUOTE then MinifiedInString(s[1..]) else Minified(s[1..]));
  }

  lemma {:induction false} MinifiedNulFree(s: bytes)
    requires NulFree(s)
    ensures NulFree(Minified(s)) && NulFree(MinifiedInString(s))
    decreases |s|
  {
    if s != [] {
      assert s[0] != NUL;
      MinifiedNulFree(s[1..]);
      if |s| > 1 {
        SkipsNulFree(s[2..]);
        MinifiedNulFree(s[2..]);
        MinifiedNulFree(SkipLine(s[2..]));
        MinifiedNulFree(SkipBlock(s[2..]));
      }
    }
  }

  lemma {:induction false} SkipsNulFree(s: bytes)
    requires NulFree(s)
    ensures NulFree(SkipLine(s)) && NulFree(SkipBlock(s))
  {
    if s != [] { SkipsNulFree(s[1..]); }
  }

  // ---- idempotence ----

  /** Minifying twice is minifying once, for every text, comments and broken strings included. */
  lemma {:induction false} Idempotent(s: bytes)
    ensures Minified(Minified(s)) == Minified(s)
    decreases |s|, 0
  {
    if s == [] {
    } else if IsBlank(s[0]) {
      Idempotent(s[1..]);
    } else if s[0] == SLASH {
      if Second(s, SLASH) { Idempotent(SkipLine(s[2..])); }
      else if Second(s, STAR) { Idempotent(SkipBlock(s[2..])); }
      else { Idempotent(s[1..]); }
    } else if s[0] == QUOTE {
      IdempotentInString(s[1..]);
      assert Minified(s)[1..] == MinifiedInString(s[1..]);
    } else {
      Idempotent(s[1..]);
      assert Minified(s)[1..] == Minified(s[1..]);
    }
  }

  lemma {:induction false} IdempotentInString(s: bytes)
    ensures MinifiedInString(MinifiedInString(s)) == MinifiedInString(s)
    decreases |s|, 0
  {
    var m := MinifiedInString(s);
    if s == [] {
    } else if s[0] == QUOTE {
      Idempotent(s[1..]);
      assert m[1..] == Minified(s[1..]);
    } else if s[0] == BACKSLASH && Second(s, QUOTE) {
      IdempotentInString(s[2..]);
      assert m[2..] == MinifiedInString(s[2..]);
    } else {
      IdempotentInString(s[1..]);
      assert m[1..] == MinifiedInString(s[1..]);
      assert |s| > 1 ==> MinifiedInString(s[1..]) != [] && MinifiedInString(s[1..])[0] == s[1];
    }
  }

  // ---- formatted and unformatted text ----

  /** No string or key in `t` ends with a backslash. */
  predicate NoTrailingBackslash(t: Json)
    decreases t, 0
  {
    match t
    case String(s) => !EndsInBackslash(s)
    case Array(items) => ItemsClean(items, 0)
    case Object(ms) => MembersClean(ms, 0)
    case _ => true
  }

  predicate EndsInBackslash(s: bytes) { s != [] && s[|s| - 1] == BACKSLASH }

  predicate ItemsClean(items: seq<Json>, i: nat)
    decreases items, if i < |items| then |items| - i else 0
  {
    i >= |items| || (NoTrailingBackslash(items[i]) && ItemsClean(items, i + 1))
  }

  predicate MembersClean(ms: seq<Member>, i: nat)
    decreases ms, if i < |ms| then |ms| - i else 0
  {
    i >= |ms| || (!EndsInBackslash(ms[i].key) && NoTrailingBackslash(ms[i].item) && MembersClean(ms, i + 1))
  }

  /** A trailing backslash does no harm in one place only: the string that is the document itself,
      or the last element of arrays all the way down, because only brackets follow it. */
  predicate Harmless(t: Json)
    decreases t, 0
  {
    match t
    case String(_) => true
    case Array(items) => ItemsHarmless(items, 0)
    case _ => NoTrailingBackslash(t)
  }

  predicate ItemsHarmless(items: seq<Json>, i: nat)
    decreases items, if i < |items| then |items| - i else 0
  {
    i >= |items| ||
    (if i + 1 == |items| then Harmless(items[i]) else NoTrailingBackslash(items[i]) && ItemsHarmless(items, i + 1))
  }

  /** Minifying an escaped string and its closing quote. A final backslash hides the quote. */
  lemma {:induction false} InStringOfEscape(s: bytes, rest: bytes)
    ensures MinifiedInString(JsonString.Escape(s) + ([QUOTE] + rest)) ==
            JsonString.Escape(s) + ([QUOTE] + (if EndsInBackslash(s) then MinifiedInString(rest) else Minified(rest)))
    decreases |s|
  {
    hide Minified, MinifiedInString, JsonString.EscapeByte, EndsInBackslash;
    var tail := [QUOTE] + rest;
    var after := if EndsInBackslash(s) then MinifiedInString(rest) else Minified(rest);
    EndOfString(s);
    if s == [] {
      QuoteInString(rest);
      assert [] + tail == tail && [] + ([QUOTE] + after) == [QUOTE] + after;
    } else if |s| == 1 {
      QuoteInString(rest);
      OneByte(s[0]);
      assert s == [s[0]];
      assert tail[1..] == rest;
      InStringOneEscape(s[0], tail);
    } else {
      var e, escaped := JsonString.EscapeByte(s[0]), JsonString.Escape(s[1..]);
      InStringOfEscape(s[1..], rest);
      assert JsonString.Escape(s) + tail == e + (escaped + tail);
      assert JsonString.Escape(s) + ([QUOTE] + after) == e + (escaped + ([QUOTE] + after));
      EscapeHead(s[1..]);
      InStringOneEscape(s[0], escaped + tail);
    }
  }

  lemma EndOfString(s: bytes)
    ensures |s| > 1 ==> EndsInBackslash(s) == EndsInBackslash(s[1..])
    ensures |s| == 1 ==> EndsInBackslash(s) == (s[0] == BACKSLASH)
    ensures s == [] ==> !EndsInBackslash(s)
  {}

  lemma OneByte(b: byte)
    ensures JsonString.Escape([b]) == JsonString.EscapeByte(b)
  {
    assert [b][1..] == [];
    assert JsonString.EscapeByte(b) + [] == JsonString.EscapeByte(b);
  }

  lemma QuoteInString(rest: bytes)
    ensures MinifiedInString([QUOTE] + rest) == [QUOTE] + Minified(rest)
  {
    assert ([QUOTE] + rest)[1..] == rest;
  }

  lemma EscapeHead(s: bytes)
    requires s != []
    ensures JsonString.Escape(s) != [] && JsonString.Escape(s)[0] != QUOTE
  {}

  /** One escape inside a string passes unchanged; only a backslash right before the closing quote
      takes that quote with it. */
  lemma InStringOneEscape(b: byte, more: bytes)
    requires more != []
    ensures !(b == BACKSLASH && more[0] == QUOTE) ==>
              MinifiedInString(JsonString.EscapeByte(b) + more) == JsonString.EscapeByte(b) + MinifiedInString(more)
    ensures b == BACKSLASH && more[0] == QUOTE ==>
              MinifiedInString(JsonString.EscapeByte(b) + more) == JsonString.EscapeByte(b) + ([QUOTE] + MinifiedInString(more[1..]))
  {
    hide Minified, MinifiedInString, JsonString.EscapeByte;
    var e := JsonString.EscapeByte(b);
    EscapeShape(b);
    if |e| == 1 {
      PlainInString(b, more);
    } else if b == QUOTE {
      PairInString(more);
    } else if b == BACKSLASH && more[0] == QUOTE {
      assert more == [QUOTE] + more[1..];
      assert e + more == [BACKSLASH] + ([BACKSLASH, QUOTE] + more[1..]);
      PlainInString(BACKSLASH, [BACKSLASH, QUOTE] + more[1..]);
      PairInString(more[1..]);
      assert e + ([QUOTE] + MinifiedInString(more[1..])) == [BACKSLASH] + ([BACKSLASH, QUOTE] + MinifiedInString(more[1..]));
    } else {
      assert e + more == [BACKSLASH] + (e[1..] + more);
      PlainInString(BACKSLASH, e[1..] + more);
      PlainRunInString(e[1..], more);
      assert e + MinifiedInString(more) == [BACKSLASH] + (e[1..] + MinifiedInString(more));
    }
  }

  lemma PairInString(more: bytes)
    ensures MinifiedInString([BACKSLASH, QUOTE] + more) == [BACKSLASH, QUOTE] + MinifiedInString(more)
  {
    assert ([BACKSLASH, QUOTE] + more)[2..] == more;
  }

  lemma {:induction false} PlainRunInString(s: bytes, more: bytes)
    requires more != []
    requires forall i :: 0 <= i < |s| ==> s[i] != QUOTE && (s[i] == BACKSLASH ==> (s[i..] + more)[1] != QUOTE)
    ensures MinifiedInString(s + more) == s + MinifiedInString(more)
  {
    hide MinifiedInString;
    if s == [] {
      assert s + more == more;
      assert s + MinifiedInString(more) == MinifiedInString(more);
    } else {
      assert s + more == [s[0]] + (s[1..] + more);
      PlainInString(s[0], s[1..] + more);
      forall i | 0 <= i < |s| - 1
        ensures s[1..][i] != QUOTE && (s[1..][i] == BACKSLASH ==> (s[1..][i..] + more)[1] != QUOTE)
      {
        assert s[1..][i] == s[i + 1];
        assert s[1..][i..] == s[i + 1..];
      }
      PlainRunInString(s[1..], more);
      assert s + MinifiedInString(more) == [s[0]] + (s[1..] + MinifiedInString(more));
    }
  }

  lemma EscapeShape(b: byte)
    ensures var e := JsonString.EscapeByte(b);
            (|e| == 1 ==> e == [b] && b != QUOTE && b != BACKSLASH) &&
            (|e| > 1 ==> e[0] == BACKSLASH) &&
            (b == QUOTE ==> e == [BACKSLASH, QUOTE]) && (b == BACKSLASH ==> e == [BACKSLASH, BACKSLASH]) &&
            (b != QUOTE && b != BACKSLASH ==> forall i :: 1 <= i < |e| ==> e[i] != QUOTE && e[i] != BACKSLASH)
  {}

  lemma PlainInString(b: byte, more: bytes)
    requires b != QUOTE && more != [] && (b == BACKSLASH ==> more[0] != QUOTE)
    ensures MinifiedInString([b] + more) == [b] + MinifiedInString(more)
  {
    assert ([b] + more)[1..] == more;
  }

  lemma PlainOutside(b: byte, more: bytes)
    requires !IsBlank(b) && b != SLASH && b != QUOTE
    ensures Minified([b] + more) == [b] + Minified(more)
  {
    assert ([b] + more)[1..] == more;
  }

  lemma BlankOutside(b: byte, more: bytes)
    requires IsBlank(b)
    ensures Minified([b] + more) == Minified(more)
  {
    assert ([b] + more)[1..] == more;
  }

  lemma {:induction false} TabsOutside(n: nat, more: bytes)
    ensures Minified(Tabs(n) + more) == Minified(more)
  {
    if n == 0 {
      assert Tabs(0) + more == more;
    } else {
      assert Tabs(n) + more == Tabs(n - 1) + ([TAB] + more);
      TabsOutside(n - 1, [TAB] + more);
      BlankOutside(TAB, more);
    }
  }

  lemma {:induction false} PlainRun(s: bytes, more: bytes)
    requires forall i :: 0 <= i < |s| ==> !IsBlank(s[i]) && s[i] != SLASH && s[i] != QUOTE
    ensures Minified(s + more) == s + Minified(more)
    decreases |s|
  {
    if s == [] {
      assert s + more == more;
      assert s + Minified(more) == Minified(more);
    } else {
      assert s + more == [s[0]] + (s[1..] + more);
      PlainOutside(s[0], s[1..] + more);
      PlainRun(s[1..], more);
      assert [s[0]] + (s[1..] + Minified(more)) == s + Minified(more);
    }
  }

  lemma OpenString(more: bytes)
    ensures Minified([QUOTE] + more) == [QUOTE] + MinifiedInString(more)
  {
    assert ([QUOTE] + more)[1..] == more;
  }

  /** A printed string outside: it survives, and what follows is read in the mode it leaves. */
  lemma QuotedOutside(s: bytes, rest: bytes)
    ensures Minified(JsonString.Quoted(s) + rest) ==
            JsonString.Quoted(s) + (if EndsInBackslash(s) then MinifiedInString(rest) else Minified(rest))
  {
    hide Minified, MinifiedInString, JsonString.Escape, EndsInBackslash;
    var after := if EndsInBackslash(s) then MinifiedInString(rest) else Minified(rest);
    var body := JsonString.Escape(s) + ([QUOTE] + rest);
    assert JsonString.Quoted(s) + rest == [QUOTE] + body;
    OpenString(body);
    InStringOfEscape(s, rest);
    assert [QUOTE] + (JsonString.Escape(s) + ([QUOTE] + after)) == JsonString.Quoted(s) + after;
  }

  /** The two texts differ at a position both have. */
  ghost predicate Diverge(a: bytes, b: bytes) {
    exists i :: 0 <= i < |a| && i < |b| && a[i] != b[i]
  }

  lemma DivergeAt(a: bytes, b: bytes, i: nat)
    requires i < |a| && i < |b| && a[i] != b[i]
    ensures Diverge(a, b)
  {}

  lemma DivergeMore(a: bytes, more: bytes, b: bytes)
    requires Diverge(a, b)
    ensures Diverge(a + more, b)
  {
    var i :| 0 <= i < |a| && i < |b| && a[i] != b[i];
    DivergeAt(a + more, b, i);
  }

  lemma DivergeBehind(front: bytes, a: bytes, b: bytes)
    requires Diverge(a, b)
    ensures Diverge(front + a, front + b)
  {
    var i :| 0 <= i < |a| && i < |b| && a[i] != b[i];
    DivergeAt(front + a, front + b, |front| + i);
  }

  /** What minifying formatted text `f` followed by anything gives, compared with the unformatted
      text `u`: the same and out of a string, the same but still in a string, or different. */
  ghost predicate Outcome(f: bytes, u: bytes, rest: bytes, clean: bool, harmless: bool) {
    if clean then Minified(f + rest) == u + Minified(rest)
    else if harmless then Minified(f + rest) == u + MinifiedInString(rest)
    else Diverge(u, Minified(f + rest))
  }

  lemma {:induction false} MinifyText(t: Json, d: nat, rest: bytes)
    requires Printable(t)
    ensures Outcome(Text(t, d, true), Text(t, d, false), rest, NoTrailingBackslash(t), Harmless(t))
    decreases t, 0
  {
    hide Minified, MinifiedInString, JsonString.Quoted, Diverge;
    match t
    case String(s) => QuotedOutside(s, rest);
    case Array(items) => MinifyArray(items, d, rest);
    case Object(ms) => MinifyObject(ms, d, rest);
    case Number(n) =>
      IntTextPlain(n);
      PlainRun(IntText(n), rest);
    case _ => PlainRun(Text(t, d, false), rest);
  }

  lemma IntTextPlain(n: int)
    ensures forall i :: 0 <= i < |IntText(n)| ==> !IsBlank(IntText(n)[i]) && IntText(n)[i] != SLASH && IntText(n)[i] != QUOTE
  {
    var m := DecText(if n < 0 then -n else n);
    assert forall i :: 0 <= i < |m| ==> IsDigit(m[i]);
  }

  lemma {:induction false} MinifyArray(items: seq<Json>, d: nat, rest: bytes)
    requires Printable(Array(items))
    ensures Outcome(Text(Array(items), d, true), Text(Array(items), d, false), rest,
                    NoTrailingBackslash(Array(items)), Harmless(Array(items)))
    decreases items, |items| + 1
  {
    hide Minified, MinifiedInString, ItemsText, ItemsClean, ItemsHarmless, Diverge, Printable;
    var f, u := ItemsText(items, 0, d + 1, true), ItemsText(items, 0, d + 1, false);
    var tail := [CLOSE_BRACKET] + rest;
    assert Text(Array(items), d, true) + rest == [OPEN_BRACKET] + (f + tail);
    assert Text(Array(items), d, false) == [OPEN_BRACKET] + (u + [CLOSE_BRACKET]);
    PlainOutside(OPEN_BRACKET, f + tail);
    if items == [] {
      NoItems(d + 1);
      assert [] + tail == tail;
      PlainOutside(CLOSE_BRACKET, rest);
      assert [OPEN_BRACKET] + ([CLOSE_BRACKET] + Minified(rest)) == Text(Array(items), d, false) + Minified(rest);
    } else {
      MinifyItems(items, 0, d + 1, tail);
      if ItemsClean(items, 0) {
        PlainOutside(CLOSE_BRACKET, rest);
        assert [OPEN_BRACKET] + (u + ([CLOSE_BRACKET] + Minified(rest))) == Text(Array(items), d, false) + Minified(rest);
      } else if ItemsHarmless(items, 0) {
        BracketInString(rest);
        assert [OPEN_BRACKET] + (u + ([CLOSE_BRACKET] + MinifiedInString(rest))) == Text(Array(items), d, false) + MinifiedInString(rest);
      } else {
        DivergeMore(u, [CLOSE_BRACKET], Minified(f + tail));
        DivergeBehind([OPEN_BRACKET], u + [CLOSE_BRACKET], Minified(f + tail));
      }
    }
  }

  lemma NoItems(d: nat)
    ensures ItemsText([], 0, d, true) == [] == ItemsText([], 0, d, false) && ItemsClean([], 0) && ItemsHarmless([], 0)
  {}

  lemma BracketInString(rest: bytes)
    ensures MinifiedInString([CLOSE_BRACKET] + rest) == [CLOSE_BRACKET] + MinifiedInString(rest)
  {
    assert ([CLOSE_BRACKET] + rest)[1..] == rest;
  }

  lemma {:induction false} MinifyItems(items: seq<Json>, i: nat, d: nat, rest: bytes)
    requires Printable(Array(items)) && i < |items|
    ensures Outcome(ItemsText(items, i, d, true), ItemsText(items, i, d, false), rest, ItemsClean(items, i), ItemsHarmless(items, i))
    decreases items, |items| - i
  {
    hide Minified, MinifiedInString, Text, NoTrailingBackslash, Harmless, Diverge, Printable, StartsValue;
    ItemPrintable(items, i);
    if i + 1 == |items| {
      MinifyText(items[i], d, rest);
      CleanIsHarmless(items[i]);
    } else {
      var t, u := Text(items[i], d, true), Text(items[i], d, false);
      var f', u' := ItemsText(items, i + 1, d, true), ItemsText(items, i + 1, d, false);
      var more := [COMMA, SPACE] + (f' + rest);
      assert ItemsText(items, i, d, true) + rest == t + more;
      assert ItemsText(items, i, d, false) == u + ([COMMA] + u');
      MinifyText(items[i], d, more);
      if NoTrailingBackslash(items[i]) {
        CommaOutside(f' + rest);
        MinifyItems(items, i + 1, d, rest);
        ItemsCombine(u, u', f' + rest, rest, ItemsClean(items, i + 1), ItemsHarmless(items, i + 1), Minified(f' + rest));
      } else if Harmless(items[i]) {
        CommaInString(SPACE, f' + rest);
        ItemPrintable(items, i + 1);
        ItemsHead(items, i + 1, d);
        DivergeAt([COMMA] + u', MinifiedInString(more), 1);
        DivergeBehind(u, [COMMA] + u', MinifiedInString(more));
      } else {
        DivergeMore(u, [COMMA] + u', Minified(t + more));
      }
    }
  }

  lemma {:induction false} CleanIsHarmless(t: Json)
    ensures NoTrailingBackslash(t) ==> Harmless(t)
    decreases t, 0
  {
    if t.Array? { ItemsCleanHarmless(t.items, 0); }
  }

  lemma {:induction false} ItemsCleanHarmless(items: seq<Json>, i: nat)
    ensures ItemsClean(items, i) ==> ItemsHarmless(items, i)
    decreases items, if i < |items| then |items| - i else 0
  {
    if i < |items| {
      CleanIsHarmless(items[i]);
      ItemsCleanHarmless(items, i + 1);
    }
  }

  lemma ItemsHead(items: seq<Json>, i: nat, d: nat)
    requires i < |items| && Printable(items[i])
    ensures ItemsText(items, i, d, false) != [] && ItemsText(items, i, d, false)[0] > 32
  {
    TextStart(items[i], d, false);
  }

  lemma CommaOutside(more: bytes)
    ensures Minified([COMMA, SPACE] + more) == [COMMA] + Minified(more)
  {
    assert [COMMA, SPACE] + more == [COMMA] + ([SPACE] + more);
    PlainOutside(COMMA, [SPACE] + more);
    BlankOutside(SPACE, more);
  }

  /** A comma and white space stay as they are inside a string. */
  lemma CommaInString(blank: byte, more: bytes)
    requires IsBlank(blank)
    ensures |MinifiedInString([COMMA, blank] + more)| >= 2
    ensures MinifiedInString([COMMA, blank] + more)[0] == COMMA && MinifiedInString([COMMA, blank] + more)[1] == blank
  {
    assert ([COMMA, blank] + more)[1..] == [blank] + more;
    PlainInString(COMMA, [blank] + more);
    assert MinifiedInString([blank] + more)[0] == blank;
  }

  lemma ItemsCombine(u: bytes, u': bytes, text: bytes, rest: bytes, clean: bool, harmless: bool, m: bytes)
    requires if clean then m == u' + Minified(rest) else if harmless then m == u' + MinifiedInString(rest) else Diverge(u', m)
    ensures var whole := u + ([COMMA] + m);
            if clean then whole == (u + ([COMMA] + u')) + Minified(rest)
            else if harmless then whole == (u + ([COMMA] + u')) + MinifiedInString(rest)
            else Diverge(u + ([COMMA] + u'), whole)
  {
    hide Minified, MinifiedInString;
    if !clean && !harmless {
      DivergeBehind([COMMA], u', m);
      DivergeBehind(u, [COMMA] + u', [COMMA] + m);
    }
  }

  lemma {:induction false} MinifyObject(ms: seq<Member>, d: nat, rest: bytes)
    requires Printable(Object(ms))
    ensures Outcome(Text(Object(ms), d, true), Text(Object(ms), d, false), rest,
                    NoTrailingBackslash(Object(ms)), Harmless(Object(ms)))
    decreases ms, |ms| + 1
  {
    hide Minified, MinifiedInString, MembersText, MembersClean, Diverge, Printable;
    var f, u := MembersText(ms, 0, d + 1, true), MembersText(ms, 0, d + 1, false);
    var tail := Tabs(d) + ([CLOSE_BRACE] + rest);
    assert Text(Object(ms), d, true) + rest == [OPEN_BRACE] + ([LF] + (f + tail));
    assert Text(Object(ms), d, false) == [OPEN_BRACE] + (u + [CLOSE_BRACE]);
    PlainOutside(OPEN_BRACE, [LF] + (f + tail));
    BlankOutside(LF, f + tail);
    MinifyMembers(ms, 0, d + 1, tail);
    if MembersClean(ms, 0) {
      TabsOutside(d, [CLOSE_BRACE] + rest);
      PlainOutside(CLOSE_BRACE, rest);
      assert [OPEN_BRACE] + (u + ([CLOSE_BRACE] + Minified(rest))) == Text(Object(ms), d, false) + Minified(rest);
    } else {
      DivergeBehind([OPEN_BRACE], u + [CLOSE_BRACE], Minified(f + tail));
    }
  }

  /** The members from `i` on: clean they minify to the unformatted text; otherwise the white space
      that follows the first offending string survives and the texts differ. */
  lemma {:induction false} MinifyMembers(ms: seq<Member>, i: nat, d: nat, rest: bytes)
    requires Printable(Object(ms))
    ensures MembersClean(ms, i) ==>
              Minified(MembersText(ms, i, d, true) + rest) == MembersText(ms, i, d, false) + Minified(rest)
    ensures !MembersClean(ms, i) ==>
              Diverge(MembersText(ms, i, d, false) + [CLOSE_BRACE], Minified(MembersText(ms, i, d, true) + rest))
    decreases ms, if i < |ms| then |ms| - i else 0
  {
    hide Minified, MinifiedInString, Text, NoTrailingBackslash, Diverge, Printable, Lead, Trail, EndsInBackslash;
    if i >= |ms| {
      assert [] + rest == rest;
      assert [] + Minified(rest) == Minified(rest);
    } else {
      MemberPrintable(ms, i);
      var key, item, last := ms[i].key, ms[i].item, i + 1 == |ms|;
      var lead, u, trail := Lead(key, d, false), Text(item, d, false), Trail(last, false);
      var more, close := MembersText(ms, i + 1, d, true) + rest, MembersText(ms, i + 1, d, false) + [CLOSE_BRACE];
      var value := Text(item, d, true) + (Trail(last, true) + more);
      assert MembersText(ms, i, d, true) + rest == Lead(key, d, true) + value;
      assert MembersText(ms, i, d, false) + [CLOSE_BRACE] == lead + (u + (trail + close));
      MembersHead(ms, i + 1, d);
      ValueHead(item, d, trail + close);
      MinifyLead(key, d, value, u + (trail + close));
      MinifyValue(item, d, last, more, close);
      if !EndsInBackslash(key) && !NoTrailingBackslash(item) {
        DivergeBehind(lead, u + (trail + close), Minified(value));
      } else if !EndsInBackslash(key) {
        MinifyMembers(ms, i + 1, d, rest);
        if MembersClean(ms, i + 1) {
          assert lead + (u + (trail + (MembersText(ms, i + 1, d, false) + Minified(rest)))) ==
                 MembersText(ms, i, d, false) + Minified(rest);
        } else {
          DivergeBehind(trail, close, Minified(more));
          DivergeBehind(u, trail + close, trail + Minified(more));
          DivergeBehind(lead, u + (trail + close), u + (trail + Minified(more)));
        }
      }
    }
  }

  lemma MembersHead(ms: seq<Member>, i: nat, d: nat)
    ensures var close := MembersText(ms, i, d, false) + [CLOSE_BRACE];
            if i >= |ms| then close == [CLOSE_BRACE] else close[0] == QUOTE
  {}

  lemma ValueHead(t: Json, d: nat, more: bytes)
    requires Printable(t)
    ensures Text(t, d, false) + more != [] && (Text(t, d, false) + more)[0] > 32
  {
    TextStart(t, d, false);
  }

  /** The lead of a member, followed by a value `x` in the unformatted text. */
  lemma MinifyLead(key: bytes, d: nat, value: bytes, x: bytes)
    requires x != [] && x[0] > 32
    ensures !EndsInBackslash(key) ==> Minified(Lead(key, d, true) + value) == Lead(key, d, false) + Minified(value)
    ensures EndsInBackslash(key) ==> Diverge(Lead(key, d, false) + x, Minified(Lead(key, d, true) + value))
  {
    hide Minified, MinifiedInString, JsonString.Quoted, Diverge;
    var q, more := JsonString.Quoted(key), [COLON, TAB] + value;
    assert Lead(key, d, true) + value == Tabs(d) + (q + more);
    TabsOutside(d, q + more);
    QuotedOutside(key, more);
    if EndsInBackslash(key) {
      ColonInString(value);
      assert Lead(key, d, false) + x == q + ([COLON] + x);
      DivergeAt([COLON] + x, MinifiedInString(more), 1);
      DivergeBehind(q, [COLON] + x, MinifiedInString(more));
    } else {
      assert more == [COLON] + ([TAB] + value);
      PlainOutside(COLON, [TAB] + value);
      BlankOutside(TAB, value);
      assert q + ([COLON] + Minified(value)) == Lead(key, d, false) + Minified(value);
    }
  }

  lemma ColonInString(more: bytes)
    ensures |MinifiedInString([COLON, TAB] + more)| >= 2
    ensures MinifiedInString([COLON, TAB] + more)[0] == COLON && MinifiedInString([COLON, TAB] + more)[1] == TAB
  {
    assert ([COLON, TAB] + more)[1..] == [TAB] + more;
    PlainInString(COLON, [TAB] + more);
    assert MinifiedInString([TAB] + more)[0] == TAB;
  }

  /** A member's value and what follows it; `close` is what follows in the unformatted text. */
  lemma MinifyValue(t: Json, d: nat, last: bool, more: bytes, close: bytes)
    requires Printable(t) && close != [] && (if last then close[0] == CLOSE_BRACE else close[0] == QUOTE)
    ensures NoTrailingBackslash(t) ==>
              Minified(Text(t, d, true) + (Trail(last, true) + more)) == Text(t, d, false) + (Trail(last, false) + Minified(more))
    ensures !NoTrailingBackslash(t) ==>
              Diverge(Text(t, d, false) + (Trail(last, false) + close), Minified(Text(t, d, true) + (Trail(last, true) + more)))
    decreases t, 1
  {
    hide Minified, MinifiedInString, Text, NoTrailingBackslash, Harmless, Diverge, Printable;
    var f, u, rest, after := Text(t, d, true), Text(t, d, false), Trail(last, true) + more, Trail(last, false) + close;
    MinifyText(t, d, rest);
    if NoTrailingBackslash(t) {
      TrailOutside(last, more);
    } else if Harmless(t) {
      TrailInString(last, more);
      var i := if last then 0 else 1;
      DivergeAt(after, MinifiedInString(rest), i);
      DivergeBehind(u, after, MinifiedInString(rest));
    } else {
      DivergeMore(u, after, Minified(f + rest));
    }
  }

  lemma TrailOutside(last: bool, more: bytes)
    ensures Minified(Trail(last, true) + more) == Trail(last, false) + Minified(more)
  {
    hide Minified;
    BlankOutside(LF, more);
    if last {
      assert Trail(last, true) == [LF];
      assert [] + Minified(more) == Minified(more);
    } else {
      assert Trail(last, true) + more == [COMMA] + ([LF] + more);
      PlainOutside(COMMA, [LF] + more);
    }
  }

  lemma TrailInString(last: bool, more: bytes)
    ensures var i := if last then 0 else 1;
            |MinifiedInString(Trail(last, true) + more)| > i && MinifiedInString(Trail(last, true) + more)[i] == LF
  {
    if last {
      assert (Trail(last, true) + more)[0] == LF;
    } else {
      assert Trail(last, true) + more == [COMMA, LF] + more;
      CommaInString(LF, more);
    }
  }

  /** Minifying formatted output gives the unformatted output exactly when no string or key ends
      with a backslash, except possibly the one string that only closing brackets follow. */
  lemma MinifyFormatted(t: Json)
    requires Printable(t)
    ensures Minified(Print(t, true)) == Print(t, false) <==> Harmless(t)
  {
    hide Minified, MinifiedInString, Text, NoTrailingBackslash, Harmless;
    var f, u := Print(t, true), Print(t, false);
    MinifyText(t, 0, []);
    CleanIsHarmless(t);
    assert f + [] == f && u + [] == u;
    assert Minified([]) == MinifiedInString([]) == [] by { NothingLeft(); }
  }

  /** In particular it does for every tree in which no string and no key ends with a backslash. */
  lemma MinifyClean(t: Json)
    requires Printable(t) && NoTrailingBackslash(t)
    ensures Minified(Print(t, true)) == Print(t, false)
  {
    CleanIsHarmless(t);
    MinifyFormatted(t);
  }

  /** It fails for the array of the one-backslash string and null: the blank after the comma stays. */
  lemma MinifyKeepsABlank()
    ensures var t := Array([String([BACKSLASH]), Json.Null]);
            Printable(t) && Minified(Print(t, true)) != Print(t, false)
  {
    var t := Array([String([BACKSLASH]), Json.Null]);
    assert !ItemsHarmless(t.items, 0);
    MinifyFormatted(t);
  }
}
