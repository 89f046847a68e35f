/** The text cJSON prints, as a pure function, and what that text looks like. */
module JsonPrinter {
  import opened Bytes
  import opened JsonTree
  import JsonString

  function Tabs(n: nat): (s: bytes)
    ensures |s| == n && forall i :: 0 <= i < n ==> s[i] == TAB
  {
    if n == 0 then [] else Tabs(n - 1) + [TAB]
  }

  function Separator(format: bool): bytes { if format then [COMMA, SPACE] else [COMMA] }

  /** What stands in front of a member's value. */
  function Lead(key: bytes, depth: nat, format: bool): bytes {
    (if format then Tabs(depth) else []) + JsonString.Quoted(key) + (if format then [COLON, TAB] else [COLON])
  }

  /** What stands behind a member's value. */
  function Trail(last: bool, format: bool): bytes {
    (if last then [] else [COMMA]) + (if format then [LF] else [])
  }

  function OpenObject(format: bool): bytes { if format then [OPEN_BRACE, LF] else [OPEN_BRACE] }

  function CloseObject(depth: nat, format: bool): bytes {
    (if format then Tabs(depth) else []) + [CLOSE_BRACE]
  }

  /** print_value of `t` with `depth` containers open around it. A Real's text is libc's and stands
      for itself; nothing is claimed about printing one. */
  function Text(t: Json, depth: nat, format: bool): bytes
    decreases t, 0
  {
    match t
    case Null => [110, 117, 108, 108]
    case False => [102, 97, 108, 115, 101]
    case True => [116, 114, 117, 101]
    case Number(n) => IntText(n)
    case Real(s) => s
    case String(s) => JsonString.Quoted(s)
    case Array(items) => [OPEN_BRACKET] + ItemsText(items, 0, depth + 1, format) + [CLOSE_BRACKET]
    case Object(ms) => OpenObject(format) + MembersText(ms, 0, depth + 1, format) + CloseObject(depth, format)
  }

  /** The elements from index `i` on, with their separators. */
  function ItemsText(items: seq<Json>, i: nat, depth: nat, format: bool): bytes
    decreases items, if i < |items| then |items| - i else 0
  {
    if i >= |items| then []
    else if i + 1 == |items| then Text(items[i], depth, format)
    else Text(items[i], depth, format) + (Separator(format) + ItemsText(items, i + 1, depth, format))
  }

  function MembersText(ms: seq<Member>, i: nat, depth: nat, format: bool): bytes
    decreases ms, if i < |ms| then |ms| - i else 0
  {
    if i >= |ms| then []
    else
      Lead(ms[i].key, depth, format) + (Text(ms[i].item, depth, format) +
      (Trail(i + 1 == |ms|, format) + MembersText(ms, i + 1, depth, format)))
  }

  /** A whole document. */
  function Print(t: Json, format: bool): bytes { Text(t, 0, format) }

  // ---- the shape of the text ----

  lemma QuotedIsVisible(s: bytes)
    ensures forall i :: 0 <= i < |JsonString.Quoted(s)| ==> JsonString.Quoted(s)[i] >= 32
  {
    JsonString.EscapeIsPrintable(s);
  }

  lemma TextStart(t: Json, depth: nat, format: bool)
    requires !t.Real?
    ensures Text(t, depth, format) != [] && StartsValue(Text(t, depth, format)[0])
  {
    if t.Number? { assert IsDigit(DecText(if t.value < 0 then -t.value else t.value)[0]); }
  }

  /** Printed text holds no NUL, so strlen in update_offset stops exactly at its end. */
  lemma {:induction false} TextNulFree(t: Json, depth: nat, format: bool)
    requires Printable(t)
    ensures NulFree(Text(t, depth, format))
    decreases t, 0
  {
    hide ItemsText, MembersText, IntText, JsonString.Quoted;
    match t
    case Number(n) => IntTextNulFree(n);
    case String(s) => QuotedIsVisible(s);
    case Array(items) =>
      ItemsNulFree(items, 0, depth + 1, format);
      var body := ItemsText(items, 0, depth + 1, format);
      NulFreeConcat([OPEN_BRACKET], body);
      NulFreeConcat([OPEN_BRACKET] + body, [CLOSE_BRACKET]);
    case Object(ms) =>
      MembersNulFree(ms, 0, depth + 1, format);
      var open, body := OpenObject(format), MembersText(ms, 0, depth + 1, format);
      NulFreeConcat(open, body);
      NulFreeConcat(open + body, CloseObject(depth, format));
    case _ =>
  }

  lemma NulFreeConcat(s: bytes, t: bytes)
    ensures NulFree(s + t) <==> NulFree(s) && NulFree(t)
  {}

  lemma IntTextNulFree(n: int)
    ensures NulFree(IntText(n))
  {
    NulFreeConcat([MINUS], DecText(if n < 0 then -n else n));
  }

  lemma {:induction false} ItemsNulFree(items: seq<Json>, i: nat, depth: nat, format: bool)
    requires forall k :: 0 <= k < |items| ==> Printable(items[k])
    ensures NulFree(ItemsText(items, i, depth, format))
    decreases items, if i < |items| then |items| - i else 0
  {
    hide NulFree, Text;
    if i < |items| {
      var text, more := Text(items[i], depth, format), ItemsText(items, i + 1, depth, format);
      TextNulFree(items[i], depth, format);
      ItemsNulFree(items, i + 1, depth, format);
      assert NulFree(Separator(format)) by { SeparatorNulFree(format); }
      NulFreeConcat(Separator(format), more);
      NulFreeConcat(text, Separator(format) + more);
    } else {
      assert NulFree([]) by { SeparatorNulFree(format); }
    }
  }

  lemma SeparatorNulFree(format: bool)
    ensures NulFree(Separator(format)) && NulFree([])
  {}

  /** What surrounds a member's value is visible or a tab or a line feed. */
  lemma AroundNulFree(key: bytes, last: bool, depth: nat, format: bool)
    ensures NulFree(Lead(key, depth, format)) && NulFree(Trail(last, format))
  {
    QuotedIsVisible(key);
    var tabs := if format then Tabs(depth) else [];
    NulFreeConcat(tabs, JsonString.Quoted(key));
  }

  lemma {:induction false} MembersNulFree(ms: seq<Member>, i: nat, depth: nat, format: bool)
    requires forall k :: 0 <= k < |ms| ==> Printable(ms[k].item)
    ensures NulFree(MembersText(ms, i, depth, format))
    decreases ms, if i < |ms| then |ms| - i else 0
  {
    hide NulFree, Text, Lead, Trail;
    if i < |ms| {
      var lead, trail := Lead(ms[i].key, depth, format), Trail(i + 1 == |ms|, format);
      var text, more := Text(ms[i].item, depth, format), MembersText(ms, i + 1, depth, format);
      AroundNulFree(ms[i].key, i + 1 == |ms|, depth, format);
      TextNulFree(ms[i].item, depth, format);
      MembersNulFree(ms, i + 1, depth, format);
      NulFreeConcat(trail, more);
      NulFreeConcat(text, trail + more);
      NulFreeConcat(lead, text + (trail + more));
    } else {
      assert NulFree([]) by { SeparatorNulFree(format); }
    }
  }
}
