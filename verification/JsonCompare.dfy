/** cJSON_Compare: an equivalence on trees, and equality up to the order of object members when
    keys are distinct. */
module JsonCompare {
  import opened Bytes
  import opened JsonTree

  // ---- numbers and keys ----

  const EPSILON: real := 1.0 / 4503599627370496.0

  /** compare_double on two integers: the distance against the larger magnitude times epsilon. */
  predicate CloseEnough(a: int, b: int) {
    var x, y := if a < 0 then -a else a, if b < 0 then -b else b;
    var d := if a < b then b - a else a - b;
    d as real <= Max(x, y) as real * EPSILON
  }

  /** On C ints the tolerance never bites. */
  lemma CloseEnoughIsEqual(a: int, b: int)
    requires IsCInt(a) && IsCInt(b)
    ensures CloseEnough(a, b) <==> a == b
  {
    var x, y := if a < 0 then -a else a, if b < 0 then -b else b;
    assert Max(x, y) as real * EPSILON <= 2147483648.0 * EPSILON;
    assert 2147483648.0 * EPSILON < 1.0;
  }

  /** tolower in the C locale. */
  function Lower(b: byte): byte { if 65 <= b <= 90 then b + 32 else b }

  /** A key as the comparison mode sees it. */
  function Fold(key: bytes, caseSensitive: bool): (s: bytes)
    ensures |s| == |key|
  {
    if caseSensitive then key else seq(|key|, i requires 0 <= i < |key| => Lower(key[i]))
  }

  /** strcmp or case_insensitive_strcmp reporting equality. */
  predicate SameKey(a: bytes, b: bytes, caseSensitive: bool) { Fold(a, caseSensitive) == Fold(b, caseSensitive) }

  /** get_object_item: the first member with the key from `i` on, or the number of members. */
  function FindMember(ms: seq<Member>, key: bytes, caseSensitive: bool, i: nat): (k: nat)
    requires i <= |ms|
    ensures i <= k <= |ms|
    ensures k < |ms| ==> SameKey(key, ms[k].key, caseSensitive)
    ensures forall j :: i <= j < k ==> !SameKey(key, ms[j].key, caseSensitive)
    decreases |ms| - i
  {
    if i == |ms| || SameKey(key, ms[i].key, caseSensitive) then i else FindMember(ms, key, caseSensitive, i + 1)
  }

  // ---- the comparison ----

  lemma {:induction false} ItemNesting(items: seq<Json>, i: nat, k: nat)
    requires i <= k < |items|
    ensures Nesting(items[k]) <= ItemsNesting(items, i)
    decreases k - i
  {
    if i < k { ItemNesting(items, i + 1, k); }
  }

  lemma {:induction false} MemberNesting(ms: seq<Member>, i: nat, k: nat)
    requires i <= k < |ms|
    ensures Nesting(ms[k].item) <= MembersNesting(ms, i)
    decreases k - i
  {
    if i < k { MemberNesting(ms, i + 1, k); }
  }

  /** How deep a comparison can still go. */
  function Depth(a: Json, b: Json): nat { Nesting(a) + Nesting(b) }

  /** cJSON_Compare. Two Reals are compared by their text; their doubles are not part of this model. */
  predicate Compare(a: Json, b: Json, caseSensitive: bool)
    decreases Depth(a, b), 2, 0
  {
    match (a, b)
    case (Number(x), Number(y)) => CloseEnough(x, y)
    case (Real(x), Real(y)) => x == y
    case (String(x), String(y)) => x == y
    case (Array(xs), Array(ys)) => CompareItems(xs, ys, 0, caseSensitive)
    case (Object(xs), Object(ys)) => Covered(xs, ys, 0, caseSensitive) && Covered(ys, xs, 0, caseSensitive)
    case _ => (a.Null? && b.Null?) || (a.False? && b.False?) || (a.True? && b.True?)
  }

  predicate CompareItems(xs: seq<Json>, ys: seq<Json>, i: nat, caseSensitive: bool)
    decreases Depth(Array(xs), Array(ys)), 1, if i < |xs| then |xs| - i else 0
  {
    if i >= |xs| || i >= |ys| then |xs| <= i && |ys| <= i
    else
      ItemNesting(xs, 0, i);
      ItemNesting(ys, 0, i);
      Compare(xs[i], ys[i], caseSensitive) && CompareItems(xs, ys, i + 1, caseSensitive)
  }

  /** The first member of `ys` with the key of `x` has an equal value. */
  predicate Matched(xs: seq<Member>, i: nat, ys: seq<Member>, caseSensitive: bool)
    requires i < |xs|
    decreases Depth(Object(xs), Object(ys)), 0, 0
  {
    var k := FindMember(ys, xs[i].key, caseSensitive, 0);
    if k == |ys| then false
    else
      MemberNesting(xs, 0, i);
      MemberNesting(ys, 0, k);
      Compare(xs[i].item, ys[k].item, caseSensitive)
  }

  /** One of the two loops over the members of an object. */
  predicate Covered(xs: seq<Member>, ys: seq<Member>, i: nat, caseSensitive: bool)
    decreases Depth(Object(xs), Object(ys)), 1, if i < |xs| then |xs| - i else 0
  {
    i >= |xs| || (Matched(xs, i, ys, caseSensitive) && Covered(xs, ys, i + 1, caseSensitive))
  }

  lemma CoveredStep(xs: seq<Member>, ys: seq<Member>, i: nat, caseSensitive: bool)
    requires i < |xs|
    ensures Covered(xs, ys, i, caseSensitive) == (Matched(xs, i, ys, caseSensitive) && Covered(xs, ys, i + 1, caseSensitive))
  {}

  lemma {:induction false} CoveredAll(xs: seq<Member>, ys: seq<Member>, i: nat, caseSensitive: bool)
    ensures Covered(xs, ys, i, caseSensitive) <==> forall k :: i <= k < |xs| ==> Matched(xs, k, ys, caseSensitive)
    decreases if i < |xs| then |xs| - i else 0
  {
    if i < |xs| {
      CoveredStep(xs, ys, i, caseSensitive);
      CoveredAll(xs, ys, i + 1, caseSensitive);
    }
  }

  lemma {:induction false} ItemsAll(xs: seq<Json>, ys: seq<Json>, i: nat, caseSensitive: bool)
    requires i <= |xs| && i <= |ys|
    ensures CompareItems(xs, ys, i, caseSensitive) <==>
            |xs| == |ys| && forall k :: i <= k < |xs| ==> Compare(xs[k], ys[k], caseSensitive)
    decreases |xs| - i
  {
    hide Compare;
    if i < |xs| && i < |ys| { ItemsAll(xs, ys, i + 1, caseSensitive); }
  }

  // ---- as cJSON runs it ----

  /** get_object_item. */
  method GetObjectItem(ms: seq<Member>, key: bytes, caseSensitive: bool) returns (k: nat)
    ensures k == FindMember(ms, key, caseSensitive, 0)
  {
    k := 0;
    while k < |ms| && !SameKey(key, ms[k].key, caseSensitive)
      invariant k <= |ms|
      invariant FindMember(ms, key, caseSensitive, k) == FindMember(ms, key, caseSensitive, 0)
    {
      k := k + 1;
    }
  }

  /** cJSON_Compare with its loops over siblings. */
  method CompareTrees(a: Json, b: Json, caseSensitive: bool) returns (r: bool)
    ensures r == Compare(a, b, caseSensitive)
    decreases Depth(a, b), 1
  {
    match (a, b)
    case (Number(x), Number(y)) => return CloseEnough(x, y);
    case (Real(x), Real(y)) => return x == y;
    case (String(x), String(y)) => return x == y;
    case (Array(xs), Array(ys)) =>
      var i := 0;
      while i < |xs| && i < |ys|
        invariant i <= |xs| && i <= |ys|
        invariant CompareItems(xs, ys, i, caseSensitive) == Compare(a, b, caseSensitive)
      {
        ItemNesting(xs, 0, i);
        ItemNesting(ys, 0, i);
        var same := CompareTrees(xs[i], ys[i], caseSensitive);
        if !same { return false; }
        i := i + 1;
      }
      return i == |xs| && i == |ys|;
    case (Object(xs), Object(ys)) =>
      r := CoverMembers(xs, ys, caseSensitive);
      if !r { return false; }
      r := CoverMembers(ys, xs, caseSensitive);
    case _ =>
      return (a.Null? && b.Null?) || (a.False? && b.False?) || (a.True? && b.True?);
  }

  /** One of its two loops over object members. */
  method CoverMembers(xs: seq<Member>, ys: seq<Member>, caseSensitive: bool) returns (r: bool)
    ensures r == Covered(xs, ys, 0, caseSensitive)
    decreases Depth(Object(xs), Object(ys)), 0
  {
    var i := 0;
    while i < |xs|
      invariant i <= |xs|
      invariant Covered(xs, ys, i, caseSensitive) == Covered(xs, ys, 0, caseSensitive)
    {
      var k := GetObjectItem(ys, xs[i].key, caseSensitive);
      if k == |ys| { return false; }
      MemberNesting(xs, 0, i);
      MemberNesting(ys, 0, k);
      var same := CompareTrees(xs[i].item, ys[k].item, caseSensitive);
      if !same { return false; }
      i := i + 1;
    }
    return true;
  }

  // ---- an equivalence ----

  /** Symmetric on all trees, in both modes, duplicate keys included. */
  lemma {:induction false} Symmetric(a: Json, b: Json, caseSensitive: bool)
    ensures Compare(a, b, caseSensitive) == Compare(b, a, caseSensitive)
    decreases Depth(a, b)
  {
    if a.Array? && b.Array? {
      hide Compare;
      var xs, ys := a.items, b.items;
      forall k | 0 <= k < |xs| && k < |ys|
        ensures Compare(xs[k], ys[k], caseSensitive) == Compare(ys[k], xs[k], caseSensitive)
      {
        ItemNesting(xs, 0, k);
        ItemNesting(ys, 0, k);
        Symmetric(xs[k], ys[k], caseSensitive);
      }
      ItemsAll(xs, ys, 0, caseSensitive);
      ItemsAll(ys, xs, 0, caseSensitive);
      CompareArrays(xs, ys, caseSensitive);
      CompareArrays(ys, xs, caseSensitive);
    }
  }

  lemma CompareArrays(xs: seq<Json>, ys: seq<Json>, caseSensitive: bool)
    ensures Compare(Array(xs), Array(ys), caseSensitive) == CompareItems(xs, ys, 0, caseSensitive)
  {}

  lemma CompareObjects(xs: seq<Member>, ys: seq<Member>, caseSensitive: bool)
    ensures Compare(Object(xs), Object(ys), caseSensitive) ==
            (Covered(xs, ys, 0, caseSensitive) && Covered(ys, xs, 0, caseSensitive))
  {}

  lemma CompareKinds(a: Json, b: Json, caseSensitive: bool)
    requires Compare(a, b, caseSensitive)
    ensures a.Array? <==> b.Array?
    ensures a.Object? <==> b.Object?
  {}

  /** Transitive on trees of C ints, in both modes. */
  lemma {:induction false} Transitive(a: Json, b: Json, c: Json, caseSensitive: bool)
    requires Printable(a) && Printable(b) && Printable(c)
    requires Compare(a, b, caseSensitive) && Compare(b, c, caseSensitive)
    ensures Compare(a, c, caseSensitive)
    decreases Nesting(a) + Nesting(b) + Nesting(c), 1
  {
    CompareKinds(a, b, caseSensitive);
    CompareKinds(b, c, caseSensitive);
    if a.Array? {
      hide Compare;
      var xs, ys, zs := a.items, b.items, c.items;
      CompareArrays(xs, ys, caseSensitive);
      CompareArrays(ys, zs, caseSensitive);
      CompareArrays(xs, zs, caseSensitive);
      ItemsAll(xs, ys, 0, caseSensitive);
      ItemsAll(ys, zs, 0, caseSensitive);
      forall k | 0 <= k < |xs| ensures Compare(xs[k], zs[k], caseSensitive) {
        ItemNesting(xs, 0, k);
        ItemNesting(ys, 0, k);
        ItemNesting(zs, 0, k);
        Transitive(xs[k], ys[k], zs[k], caseSensitive);
      }
      ItemsAll(xs, zs, 0, caseSensitive);
    } else if a.Object? {
      hide Compare;
      CompareObjects(a.members, b.members, caseSensitive);
      CompareObjects(b.members, c.members, caseSensitive);
      CompareObjects(a.members, c.members, caseSensitive);
      CoveredTransitive(a.members, b.members, c.members, caseSensitive);
      CoveredTransitive(c.members, b.members, a.members, caseSensitive);
    } else if a.Number? {
      CloseEnoughIsEqual(a.value, b.value);
      CloseEnoughIsEqual(b.value, c.value);
    }
  }

  lemma {:induction false} CoveredTransitive(xs: seq<Member>, ys: seq<Member>, zs: seq<Member>, caseSensitive: bool)
    requires Printable(Object(xs)) && Printable(Object(ys)) && Printable(Object(zs))
    requires Covered(xs, ys, 0, caseSensitive) && Covered(ys, zs, 0, caseSensitive)
    ensures Covered(xs, zs, 0, caseSensitive)
    decreases Nesting(Object(xs)) + Nesting(Object(ys)) + Nesting(Object(zs)), 0
  {
    hide Compare, Covered, Fold;
    CoveredAll(xs, ys, 0, caseSensitive);
    CoveredAll(ys, zs, 0, caseSensitive);
    forall i | 0 <= i < |xs| ensures Matched(xs, i, zs, caseSensitive) {
      assert Matched(xs, i, ys, caseSensitive);
      var k := FindMember(ys, xs[i].key, caseSensitive, 0);
      assert Matched(ys, k, zs, caseSensitive);
      SameFind(zs, xs[i].key, ys[k].key, caseSensitive, 0);
      var m := FindMember(zs, ys[k].key, caseSensitive, 0);
      MemberNesting(xs, 0, i);
      MemberNesting(ys, 0, k);
      MemberNesting(zs, 0, m);
      Transitive(xs[i].item, ys[k].item, zs[m].item, caseSensitive);
    }
    CoveredAll(xs, zs, 0, caseSensitive);
  }

  lemma {:induction false} SameFind(ms: seq<Member>, a: bytes, b: bytes, caseSensitive: bool, i: nat)
    requires SameKey(a, b, caseSensitive) && i <= |ms|
    ensures FindMember(ms, a, caseSensitive, i) == FindMember(ms, b, caseSensitive, i)
    decreases |ms| - i
  {
    hide Fold;
    if i < |ms| { SameFind(ms, a, b, caseSensitive, i + 1); }
  }

  // ---- equality up to the order of members ----

  /** A JSON value with its objects as maps: the reference the comparison is measured against. */
  datatype Value =
    | VNull
    | VFalse
    | VTrue
    | VNumber(value: int)
    | VReal(text: bytes)
    | VString(str: bytes)
    | VArray(items: seq<Value>)
    | VObject(members: map<bytes, Value>)

  /** The value of a tree; of several members with one key the first counts. */
  function Meaning(t: Json, caseSensitive: bool): Value
    decreases t, 0
  {
    match t
    case Null => VNull
    case False => VFalse
    case True => VTrue
    case Number(n) => VNumber(n)
    case Real(s) => VReal(s)
    case String(s) => VString(s)
    case Array(items) => VArray(ItemsMeaning(items, 0, caseSensitive))
    case Object(ms) => VObject(MembersMeaning(ms, 0, caseSensitive))
  }

  function ItemsMeaning(items: seq<Json>, i: nat, caseSensitive: bool): seq<Value>
    decreases items, if i < |items| then |items| - i else 0
  {
    if i >= |items| then [] else [Meaning(items[i], caseSensitive)] + ItemsMeaning(items, i + 1, caseSensitive)
  }

  function MembersMeaning(ms: seq<Member>, i: nat, caseSensitive: bool): map<bytes, Value>
    decreases ms, if i < |ms| then |ms| - i else 0
  {
    if i >= |ms| then map[]
    else MembersMeaning(ms, i + 1, caseSensitive)[Fold(ms[i].key, caseSensitive) := Meaning(ms[i].item, caseSensitive)]
  }

  /** Within every object, members whose keys are the same in the given mode have the same value. */
  ghost predicate Consistent(t: Json, caseSensitive: bool) {
    match t
    case Array(items) => forall i :: 0 <= i < |items| ==> Consistent(items[i], caseSensitive)
    case Object(ms) =>
      (forall i, j :: 0 <= i < |ms| && 0 <= j < |ms| && SameKey(ms[i].key, ms[j].key, caseSensitive) ==>
         Meaning(ms[i].item, caseSensitive) == Meaning(ms[j].item, caseSensitive)) &&
      (forall i :: 0 <= i < |ms| ==> Consistent(ms[i].item, caseSensitive))
    case _ => true
  }

  /** Within every object the keys are pairwise distinct in the given mode. */
  ghost predicate DistinctKeys(t: Json, caseSensitive: bool) {
    match t
    case Array(items) => forall i :: 0 <= i < |items| ==> DistinctKeys(items[i], caseSensitive)
    case Object(ms) =>
      (forall i, j :: 0 <= i < j < |ms| ==> !SameKey(ms[i].key, ms[j].key, caseSensitive)) &&
      (forall i :: 0 <= i < |ms| ==> DistinctKeys(ms[i].item, caseSensitive))
    case _ => true
  }

  lemma {:induction false} DistinctIsConsistent(t: Json, caseSensitive: bool)
    requires DistinctKeys(t, caseSensitive)
    ensures Consistent(t, caseSensitive)
    decreases t
  {
    hide Meaning, Fold;
    match t
    case Array(items) =>
      forall i | 0 <= i < |items| ensures Consistent(items[i], caseSensitive) { DistinctIsConsistent(items[i], caseSensitive); }
    case Object(ms) =>
      forall i | 0 <= i < |ms| ensures Consistent(ms[i].item, caseSensitive) { DistinctIsConsistent(ms[i].item, caseSensitive); }
      forall i, j | 0 <= i < |ms| && 0 <= j < |ms| && SameKey(ms[i].key, ms[j].key, caseSensitive) ensures i == j {
        assert SameKey(ms[j].key, ms[i].key, caseSensitive);
      }
    case _ =>
  }

  /** The map of an object: a key's value is that of the first member with it. */
  lemma {:induction false} MembersMeaningAt(ms: seq<Member>, i: nat, key: bytes, caseSensitive: bool)
    requires i <= |ms|
    ensures var k, m := FindMember(ms, key, caseSensitive, i), MembersMeaning(ms, i, caseSensitive);
            (Fold(key, caseSensitive) in m <==> k < |ms|) &&
            (k < |ms| ==> m[Fold(key, caseSensitive)] == Meaning(ms[k].item, caseSensitive))
    decreases |ms| - i
  {
    hide Meaning, Fold;
    if i < |ms| { MembersMeaningAt(ms, i + 1, key, caseSensitive); }
  }

  lemma {:induction false} MembersMeaningKeys(ms: seq<Member>, i: nat, caseSensitive: bool)
    requires i <= |ms|
    ensures forall s :: s in MembersMeaning(ms, i, caseSensitive) ==>
              exists k :: i <= k < |ms| && s == Fold(ms[k].key, caseSensitive)
    decreases |ms| - i
  {
    hide Meaning, Fold;
    if i < |ms| { MembersMeaningKeys(ms, i + 1, caseSensitive); }
  }

  /** The characterization: on trees of C ints cJSON_Compare holds exactly when both trees are
      consistent and they mean the same value; in the case-sensitive mode, when they are equal up
      to the order and repetition of object members. */
  lemma {:induction false} CompareIsMeaning(a: Json, b: Json, caseSensitive: bool)
    requires Printable(a) && Printable(b)
    ensures Compare(a, b, caseSensitive) <==>
            Consistent(a, caseSensitive) && Consistent(b, caseSensitive) && Meaning(a, caseSensitive) == Meaning(b, caseSensitive)
    decreases Depth(a, b), 3
  {
    hide Covered, CompareItems, ItemsMeaning, MembersMeaning, Nesting, Matched;
    match (a, b)
    case (Number(x), Number(y)) => CloseEnoughIsEqual(x, y);
    case (Array(xs), Array(ys)) =>
      ItemsAll(xs, ys, 0, caseSensitive);
      ItemsAreMeaning(xs, ys, caseSensitive);
    case (Object(xs), Object(ys)) =>
      ObjectsAreMeaning(xs, ys, caseSensitive);
    case _ =>
  }

  lemma {:induction false} ItemsAreMeaning(xs: seq<Json>, ys: seq<Json>, caseSensitive: bool)
    requires Printable(Array(xs)) && Printable(Array(ys))
    ensures (|xs| == |ys| && forall k :: 0 <= k < |xs| ==> Compare(xs[k], ys[k], caseSensitive)) <==>
            Consistent(Array(xs), caseSensitive) && Consistent(Array(ys), caseSensitive) &&
            ItemsMeaning(xs, 0, caseSensitive) == ItemsMeaning(ys, 0, caseSensitive)
    decreases Depth(Array(xs), Array(ys)), 0
  {
    hide Compare, Meaning, ItemsMeaning, Consistent;
    ArrayConsistent(xs, caseSensitive);
    ArrayConsistent(ys, caseSensitive);
    SameItems(xs, ys, 0, caseSensitive);
    forall k | 0 <= k < |xs| && k < |ys|
      ensures Compare(xs[k], ys[k], caseSensitive) <==>
              Consistent(xs[k], caseSensitive) && Consistent(ys[k], caseSensitive) &&
              Meaning(xs[k], caseSensitive) == Meaning(ys[k], caseSensitive)
    {
      ItemNesting(xs, 0, k);
      ItemNesting(ys, 0, k);
      CompareIsMeaning(xs[k], ys[k], caseSensitive);
    }
  }

  lemma ArrayConsistent(items: seq<Json>, caseSensitive: bool)
    ensures Consistent(Array(items), caseSensitive) <==> forall k :: 0 <= k < |items| ==> Consistent(items[k], caseSensitive)
  {}

  lemma {:induction false} SameItems(xs: seq<Json>, ys: seq<Json>, i: nat, caseSensitive: bool)
    requires i <= |xs| && i <= |ys|
    ensures ItemsMeaning(xs, i, caseSensitive) == ItemsMeaning(ys, i, caseSensitive) <==>
            |xs| == |ys| && forall k :: i <= k < |xs| ==> Meaning(xs[k], caseSensitive) == Meaning(ys[k], caseSensitive)
    decreases |xs| - i
  {
    hide Meaning;
    if i < |xs| && i < |ys| {
      SameItems(xs, ys, i + 1, caseSensitive);
      SameCons(Meaning(xs[i], caseSensitive), ItemsMeaning(xs, i + 1, caseSensitive),
               Meaning(ys[i], caseSensitive), ItemsMeaning(ys, i + 1, caseSensitive));
    }
  }

  lemma SameCons(x: Value, xs: seq<Value>, y: Value, ys: seq<Value>)
    ensures [x] + xs == [y] + ys <==> x == y && xs == ys
  {
    if [x] + xs == [y] + ys {
      assert ([x] + xs)[0] == x && ([y] + ys)[0] == y;
      assert ([x] + xs)[1..] == xs && ([y] + ys)[1..] == ys;
    }
  }

  /** The member `x` of one object is matched by another object exactly if the other has its key,
      with the same value first, and both values are consistent. */
  lemma {:induction false} MatchedMeans(xs: seq<Member>, i: nat, ys: seq<Member>, caseSensitive: bool)
    requires Printable(Object(xs)) && Printable(Object(ys)) && i < |xs|
    ensures var k := FindMember(ys, xs[i].key, caseSensitive, 0);
            Matched(xs, i, ys, caseSensitive) <==>
            k < |ys| && Consistent(xs[i].item, caseSensitive) && Consistent(ys[k].item, caseSensitive) &&
            Meaning(xs[i].item, caseSensitive) == Meaning(ys[k].item, caseSensitive)
    decreases Depth(Object(xs), Object(ys)), 0
  {
    hide Compare, Meaning, Fold, Consistent;
    MatchedIs(xs, i, ys, caseSensitive);
    var k := FindMember(ys, xs[i].key, caseSensitive, 0);
    if k < |ys| {
      MemberNesting(xs, 0, i);
      MemberNesting(ys, 0, k);
      CompareIsMeaning(xs[i].item, ys[k].item, caseSensitive);
    }
  }

  /** Every value of an object's map is that of a member, the first with its key. */
  lemma MapValue(ms: seq<Member>, i: nat, caseSensitive: bool)
    requires i < |ms|
    ensures var k, s := FindMember(ms, ms[i].key, caseSensitive, 0), Fold(ms[i].key, caseSensitive);
            k <= i && SameKey(ms[i].key, ms[k].key, caseSensitive) && s in MembersMeaning(ms, 0, caseSensitive) &&
            MembersMeaning(ms, 0, caseSensitive)[s] == Meaning(ms[k].item, caseSensitive)
  {
    hide Fold, Meaning, MembersMeaning;
    assert SameKey(ms[i].key, ms[i].key, caseSensitive);
    MembersMeaningAt(ms, 0, ms[i].key, caseSensitive);
  }

  /** Every entry of `m` is one of `n`. */
  ghost predicate Submap(m: map<bytes, Value>, n: map<bytes, Value>) {
    forall s :: s in m ==> s in n && m[s] == n[s]
  }

  /** A loop over members that succeeds has found consistent values, and the map of one object in
      the other's. */
  lemma {:induction false} CoveredIsConsistent(xs: seq<Member>, ys: seq<Member>, caseSensitive: bool)
    requires Printable(Object(xs)) && Printable(Object(ys)) && Covered(xs, ys, 0, caseSensitive)
    ensures Consistent(Object(xs), caseSensitive)
    ensures Submap(MembersMeaning(xs, 0, caseSensitive), MembersMeaning(ys, 0, caseSensitive))
    decreases Depth(Object(xs), Object(ys)), 1
  {
    hide Covered, MembersMeaning, Meaning, Fold, Compare, Matched;
    CoveredAll(xs, ys, 0, caseSensitive);
    forall i | 0 <= i < |xs| ensures Matched(xs, i, ys, caseSensitive) {}
    forall i | 0 <= i < |xs| ensures Consistent(xs[i].item, caseSensitive) { MatchedMeans(xs, i, ys, caseSensitive); }
    forall i, j | 0 <= i < |xs| && 0 <= j < |xs| && SameKey(xs[i].key, xs[j].key, caseSensitive)
      ensures Meaning(xs[i].item, caseSensitive) == Meaning(xs[j].item, caseSensitive)
    {
      MatchedMeans(xs, i, ys, caseSensitive);
      MatchedMeans(xs, j, ys, caseSensitive);
      SameFind(ys, xs[i].key, xs[j].key, caseSensitive, 0);
    }
    var m, n := MembersMeaning(xs, 0, caseSensitive), MembersMeaning(ys, 0, caseSensitive);
    MembersMeaningKeys(xs, 0, caseSensitive);
    forall s | s in m ensures s in n && m[s] == n[s] {
      var i :| 0 <= i < |xs| && s == Fold(xs[i].key, caseSensitive);
      MapValue(xs, i, caseSensitive);
      var k := FindMember(xs, xs[i].key, caseSensitive, 0);
      MatchedMeans(xs, k, ys, caseSensitive);
      MembersMeaningAt(ys, 0, xs[k].key, caseSensitive);
    }
  }

  /** And it succeeds on consistent objects when the one map is part of the other. */
  lemma {:induction false} ConsistentIsCovered(xs: seq<Member>, ys: seq<Member>, caseSensitive: bool)
    requires Printable(Object(xs)) && Printable(Object(ys))
    requires Consistent(Object(xs), caseSensitive) && Consistent(Object(ys), caseSensitive)
    requires Submap(MembersMeaning(xs, 0, caseSensitive), MembersMeaning(ys, 0, caseSensitive))
    ensures Covered(xs, ys, 0, caseSensitive)
    decreases Depth(Object(xs), Object(ys)), 1
  {
    hide Covered, MembersMeaning, Meaning, Fold, Compare, Matched;
    forall i | 0 <= i < |xs| ensures Matched(xs, i, ys, caseSensitive) {
      MapValue(xs, i, caseSensitive);
      var k := FindMember(xs, xs[i].key, caseSensitive, 0);
      assert Meaning(xs[i].item, caseSensitive) == Meaning(xs[k].item, caseSensitive);
      MembersMeaningAt(ys, 0, xs[i].key, caseSensitive);
      MatchedMeans(xs, i, ys, caseSensitive);
    }
    CoveredAll(xs, ys, 0, caseSensitive);
  }

  /** One loop over members of consistent objects decides whether the map of one is part of the
      other's. */
  lemma CoveredIsSubmap(xs: seq<Member>, ys: seq<Member>, caseSensitive: bool)
    requires Printable(Object(xs)) && Printable(Object(ys))
    requires Consistent(Object(xs), caseSensitive) && Consistent(Object(ys), caseSensitive)
    ensures Covered(xs, ys, 0, caseSensitive) <==>
            Submap(MembersMeaning(xs, 0, caseSensitive), MembersMeaning(ys, 0, caseSensitive))
  {
    hide Covered, Submap, Consistent, Printable;
    if Covered(xs, ys, 0, caseSensitive) { CoveredIsConsistent(xs, ys, caseSensitive); }
    if Submap(MembersMeaning(xs, 0, caseSensitive), MembersMeaning(ys, 0, caseSensitive)) {
      ConsistentIsCovered(xs, ys, caseSensitive);
    }
  }

  lemma MatchedIs(xs: seq<Member>, i: nat, ys: seq<Member>, caseSensitive: bool)
    requires i < |xs|
    ensures var k := FindMember(ys, xs[i].key, caseSensitive, 0);
            Matched(xs, i, ys, caseSensitive) <==> k < |ys| && Compare(xs[i].item, ys[k].item, caseSensitive)
  {
    hide Compare;
  }

  lemma {:induction false} ObjectsAreMeaning(xs: seq<Member>, ys: seq<Member>, caseSensitive: bool)
    requires Printable(Object(xs)) && Printable(Object(ys))
    ensures Compare(Object(xs), Object(ys), caseSensitive) <==>
            Consistent(Object(xs), caseSensitive) && Consistent(Object(ys), caseSensitive) &&
            MembersMeaning(xs, 0, caseSensitive) == MembersMeaning(ys, 0, caseSensitive)
    decreases Depth(Object(xs), Object(ys)), 2
  {
    hide Covered, MembersMeaning, Compare, Consistent, Printable;
    CompareObjects(xs, ys, caseSensitive);
    if Covered(xs, ys, 0, caseSensitive) && Covered(ys, xs, 0, caseSensitive) {
      CoveredIsConsistent(xs, ys, caseSensitive);
      CoveredIsConsistent(ys, xs, caseSensitive);
    }
    if Consistent(Object(xs), caseSensitive) && Consistent(Object(ys), caseSensitive) &&
       MembersMeaning(xs, 0, caseSensitive) == MembersMeaning(ys, 0, caseSensitive)
    {
      ConsistentIsCovered(xs, ys, caseSensitive);
      ConsistentIsCovered(ys, xs, caseSensitive);
    }
  }

  /** A tree of C ints compares equal to a separate copy of itself exactly if it is consistent. (For
      the very same node the code answers without looking.) */
  lemma Reflexive(a: Json, caseSensitive: bool)
    requires Printable(a)
    ensures Compare(a, a, caseSensitive) <==> Consistent(a, caseSensitive)
  {
    hide Compare, Meaning, Consistent, Printable;
    CompareIsMeaning(a, a, caseSensitive);
  }

  /** In particular to a copy, if keys are distinct. */
  lemma DistinctReflexive(a: Json, caseSensitive: bool)
    requires Printable(a) && DistinctKeys(a, caseSensitive)
    ensures Compare(a, a, caseSensitive)
  {
    hide Compare, Consistent, DistinctKeys, Printable;
    DistinctIsConsistent(a, caseSensitive);
    Reflexive(a, caseSensitive);
  }

  /** Reordering the members of an object, in any way, is no difference to a consistent object. */
  lemma Reordered(xs: seq<Member>, ys: seq<Member>, caseSensitive: bool)
    requires Printable(Object(xs)) && multiset(xs) == multiset(ys)
    ensures Compare(Object(xs), Object(ys), caseSensitive) <==> Consistent(Object(xs), caseSensitive)
  {
    hide Compare, Meaning, Fold, MembersMeaning, Consistent;
    forall y | y in ys ensures y in xs { assert y in multiset(ys); }
    forall x | x in xs ensures x in ys { assert x in multiset(xs); }
    PrintablePart(xs, ys);
    ObjectsAreMeaning(xs, ys, caseSensitive);
    if Consistent(Object(xs), caseSensitive) {
      ConsistentPart(xs, ys, caseSensitive);
      SubmapOfPart(xs, ys, caseSensitive);
      SubmapOfPart(ys, xs, caseSensitive);
    }
  }

  lemma PrintablePart(xs: seq<Member>, ys: seq<Member>)
    requires Printable(Object(xs)) && forall y :: y in ys ==> y in xs
    ensures Printable(Object(ys))
  {
    forall j | 0 <= j < |ys| ensures NulFree(ys[j].key) && Printable(ys[j].item) {
      var i := IndexOf(xs, ys[j]);
      assert Printable(xs[i].item);
    }
  }

  lemma IndexOf(ms: seq<Member>, x: Member) returns (i: nat)
    requires x in ms
    ensures i < |ms| && ms[i] == x
  {
    i :| i < |ms| && ms[i] == x;
  }

  lemma ConsistentPart(xs: seq<Member>, ys: seq<Member>, caseSensitive: bool)
    requires (forall y :: y in ys ==> y in xs) && Consistent(Object(xs), caseSensitive)
    ensures Consistent(Object(ys), caseSensitive)
  {
    hide Meaning, Fold;
    forall j | 0 <= j < |ys| ensures Consistent(ys[j].item, caseSensitive) {
      var i := IndexOf(xs, ys[j]);
      assert Consistent(xs[i].item, caseSensitive);
    }
    forall i, j | 0 <= i < |ys| && 0 <= j < |ys| && SameKey(ys[i].key, ys[j].key, caseSensitive)
      ensures Meaning(ys[i].item, caseSensitive) == Meaning(ys[j].item, caseSensitive)
    {
      var i' := IndexOf(xs, ys[i]);
      var j' := IndexOf(xs, ys[j]);
      assert SameKey(xs[i'].key, xs[j'].key, caseSensitive);
    }
  }

  lemma SubmapOfPart(xs: seq<Member>, ys: seq<Member>, caseSensitive: bool)
    requires (forall x :: x in xs ==> x in ys) && Consistent(Object(ys), caseSensitive)
    ensures Submap(MembersMeaning(xs, 0, caseSensitive), MembersMeaning(ys, 0, caseSensitive))
  {
    hide Meaning, Fold, MembersMeaning;
    var m, n := MembersMeaning(xs, 0, caseSensitive), MembersMeaning(ys, 0, caseSensitive);
    MembersMeaningKeys(xs, 0, caseSensitive);
    forall s | s in m ensures s in n && m[s] == n[s] {
      var i :| 0 <= i < |xs| && s == Fold(xs[i].key, caseSensitive);
      MapValue(xs, i, caseSensitive);
      var k := FindMember(xs, xs[i].key, caseSensitive, 0);
      var j := IndexOf(ys, xs[k]);
      MapValue(ys, j, caseSensitive);
      var l := FindMember(ys, ys[j].key, caseSensitive, 0);
      assert SameKey(ys[j].key, ys[l].key, caseSensitive);
    }
  }

  /** An instance: one key for true and for false. */
  lemma DuplicateKeysBreakReflexivity(key: bytes, caseSensitive: bool)
    ensures var a := Object([Member(key, True), Member(key, False)]); !Compare(a, a, caseSensitive)
  {
    var ms := [Member(key, True), Member(key, False)];
    assert SameKey(key, key, caseSensitive);
    assert FindMember(ms, ms[1].key, caseSensitive, 0) == 0;
    assert !Matched(ms, 1, ms, caseSensitive);
    CoveredAll(ms, ms, 0, caseSensitive);
  }
}
