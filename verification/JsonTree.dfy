/** The values a cJSON tree stands for. */
module JsonTree {
  import opened Bytes

  const NESTING_LIMIT: nat := 1000

  /** A cJSON item. `Number` is a number whose double is a C int (valueint == valuedouble).
      `Real` is any other number: only the text strtod consumed is kept, its double is libc's. */
  datatype Json =
    | Null
    | False
    | True
    | Number(value: int)
    | Real(text: bytes)
    | String(str: bytes)
    | Array(items: seq<Json>)
    | Object(members: seq<Member>)

  /** A child of an object: cJSON keeps its key in the child's own `string` field. */
  datatype Member = Member(key: bytes, item: Json)

  predicate IsCInt(n: int) { INT_MIN <= n <= INT_MAX }

  /** The trees cJSON can print faithfully: C-int numbers, and strings that are C strings. */
  ghost predicate Printable(t: Json) {
    match t
    case Number(n) => IsCInt(n)
    case Real(_) => false
    case String(s) => NulFree(s)
    case Array(items) => forall i :: 0 <= i < |items| ==> Printable(items[i])
    case Object(ms) => forall i :: 0 <= i < |ms| ==> NulFree(ms[i].key) && Printable(ms[i].item)
    case _ => true
  }

  lemma ItemPrintable(items: seq<Json>, i: nat)
    requires Printable(Array(items)) && i < |items|
    ensures Printable(items[i])
  {}

  lemma MemberPrintable(ms: seq<Member>, i: nat)
    requires Printable(Object(ms)) && i < |ms|
    ensures NulFree(ms[i].key) && Printable(ms[i].item)
  {}

  /** What a C program sees of a tree: `valuestring` and the keys end at their first NUL. */
  function Seen(t: Json): Json {
    match t
    case String(s) => String(CText(s))
    case Array(items) => Array(SeenItems(items))
    case Object(ms) => Object(SeenMembers(ms))
    case _ => t
  }

  function SeenItems(items: seq<Json>): seq<Json> {
    if items == [] then [] else [Seen(items[0])] + SeenItems(items[1..])
  }

  function SeenMembers(ms: seq<Member>): seq<Member> {
    if ms == [] then [] else [Member(CText(ms[0].key), Seen(ms[0].item))] + SeenMembers(ms[1..])
  }

  /** How many containers are open at the deepest point of `t`. */
  function Nesting(t: Json): nat
    decreases t, 0
  {
    match t
    case Array(items) => 1 + ItemsNesting(items, 0)
    case Object(ms) => 1 + MembersNesting(ms, 0)
    case _ => 0
  }

  function ItemsNesting(items: seq<Json>, i: nat): nat
    decreases items, if i < |items| then |items| - i else 0
  {
    if i >= |items| then 0 else Max(Nesting(items[i]), ItemsNesting(items, i + 1))
  }

  function MembersNesting(ms: seq<Member>, i: nat): nat
    decreases ms, if i < |ms| then |ms| - i else 0
  {
    if i >= |ms| then 0 else Max(Nesting(ms[i].item), MembersNesting(ms, i + 1))
  }

  /** The first byte of a value's text tells its kind, and is never white space, a comma or a bracket
      that closes. */
  predicate StartsValue(b: byte) {
    b == 110 || b == 102 || b == 116 || b == MINUS || IsDigit(b) || b == QUOTE || b == OPEN_BRACKET || b == OPEN_BRACE
  }
}
