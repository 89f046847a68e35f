/** The children of a cJSON array or object: a `next` chain whose head's `prev` is the tail. The
    list operations keep that shape and act on the sequence of children. */
module Siblings {
  import opened Bytes

  class Item {
    var next: Item?
    var prev: Item?
    var child: Item?
    /** The children in order. */
    ghost var kids: seq<Item>

    constructor ()
      ensures next == null && prev == null && child == null && kids == [] && Linked()
    {
      next, prev, child, kids := null, null, null, [];
    }

    /** The sibling invariant: every child is linked once, `next` leads to the successor and ends
        in NULL, `prev` leads to the predecessor, and the head's `prev` is the tail. Nothing here
        keeps an item from being its own child. */
    ghost predicate Linked()
      reads this, kids
    {
      (forall i, j :: 0 <= i < j < |kids| ==> kids[i] != kids[j]) &&
      child == (if kids == [] then null else kids[0]) &&
      (forall i {:trigger kids[i].next} :: 0 <= i < |kids| ==> kids[i].next == if i + 1 < |kids| then kids[i + 1] else null) &&
      (forall i {:trigger kids[i].prev} :: 0 <= i < |kids| ==> kids[i].prev == if i > 0 then kids[i - 1] else kids[|kids| - 1])
    }
  }

  ghost function Kids(parent: Item?): seq<Item>
    reads parent
  {
    if parent == null then [] else parent.kids
  }

  /** An item that can be put into the list is not in it already. */
  ghost predicate Addable(parent: Item?, item: Item?)
    reads parent
  {
    item != null && parent != null ==> item !in parent.kids
  }

  /** Nothing the operation may touch has changed. */
  twostate predicate Untouched(parent: Item?, item: Item?)
    reads parent, item, Kids(parent)
  {
    (parent != null ==> unchanged(parent) && forall k | k in old(parent.kids) :: unchanged(k)) &&
    (item != null ==> unchanged(item))
  }

  /** get_array_item. */
  method GetArrayItem(parent: Item?, index: nat) returns (r: Item?)
    requires parent != null ==> parent.Linked()
    ensures r == if parent != null && index < |parent.kids| then parent.kids[index] else null
  {
    if parent == null { return null; }
    var current := parent.child;
    var left := index;
    ghost var at := 0;
    while current != null && left > 0
      invariant at + left == index && left >= 0 && 0 <= at <= |parent.kids|
      invariant current == if at < |parent.kids| then parent.kids[at] else null
      decreases left
    {
      left := left - 1;
      current := current.next;
      at := at + 1;
    }
    return current;
  }

  /** add_item_to_array. It clears the item's own `next` only in an empty list, so appending keeps
      the list in order exactly if the list was empty or the item's `next` was NULL. */
  method AddItemToArray(parent: Item?, item: Item?) returns (ok: bool)
    requires parent != null ==> parent.Linked()
    requires item != parent ==> Addable(parent, item)
    modifies parent, Kids(parent), item
    ensures ok <==> item != null && parent != null && parent != item
    ensures ok ==> parent.kids == old(parent.kids) + [item]
    ensures ok ==> (parent.Linked() <==> old(parent.kids) == [] || old(item.next) == null)
    ensures ok ==> item.next == if old(parent.kids) == [] then null else old(item.next)
    ensures !ok && parent != null ==> parent.Linked()
    ensures !ok ==> Untouched(parent, item)
  {
    if item == null || parent == null || parent == item { return false; }
    var child := parent.child;
    if child == null {
      parent.child := item;
      item.prev := item;
      item.next := null;
    } else if child.prev != null {
      child.prev.next := item;
      item.prev := child.prev;
      parent.child.prev := item;
    }
    ghost var n := |parent.kids|;
    parent.kids := parent.kids + [item];
    assert parent.kids[n].next == item.next;
    return true;
  }

  /** cJSON_InsertItemInArray: at the index, or at the end when the index is past it, where the
      item's own `next` matters. Only there an array is not inserted into itself. */
  method InsertItemInArray(parent: Item?, which: int, newitem: Item?) returns (ok: bool)
    requires parent != null ==> parent.Linked()
    requires newitem != parent || (parent != null && which < |parent.kids|) ==> Addable(parent, newitem)
    modifies parent, Kids(parent), newitem
    ensures ok <==> which >= 0 && newitem != null && parent != null && (parent != newitem || which < |old(parent.kids)|)
    ensures ok ==> (parent.Linked() <==>
                    which < |old(parent.kids)| || old(parent.kids) == [] || old(newitem.next) == null)
    ensures !ok && parent != null ==> parent.Linked()
    ensures ok ==> parent.kids == InsertAt(old(parent.kids), which, newitem)
    ensures !ok ==> Untouched(parent, newitem)
  {
    if which < 0 || newitem == null { return false; }
    var after := GetArrayItem(parent, which);
    if after == null {
      ok := AddItemToArray(parent, newitem);
      return;
    }
    if after != parent.child && after.prev == null { return false; }
    LinkBefore(parent, after, newitem, which);
    return true;
  }

  /** The relinking of cJSON_InsertItemInArray, in front of child number `k`. */
  method LinkBefore(parent: Item, after: Item, newitem: Item, ghost k: nat)
    requires parent.Linked() && k < |parent.kids| && after == parent.kids[k]
    requires newitem !in parent.kids
    modifies parent, parent.kids, newitem
    ensures parent.Linked() && parent.kids == InsertAt(old(parent.kids), k, newitem)
  {
    ghost var kids := parent.kids;
    newitem.next := after;
    newitem.prev := after.prev;
    after.prev := newitem;
    if after == parent.child {
      parent.child := newitem;
    } else {
      newitem.prev.next := newitem;
    }
    parent.kids := kids[..k] + [newitem] + kids[k..];
    assert Spliced(parent, kids, k, newitem);
    hide Spliced, Item.Linked;
    SplicedIsLinked(parent, kids, k, newitem);
  }

  /** The links once `x` stands in front of `kids[k]`. */
  ghost predicate Spliced(parent: Item, kids: seq<Item>, k: nat, x: Item)
    reads parent, kids, x
  {
    k < |kids| && x !in kids &&
    (forall i, j :: 0 <= i < j < |kids| ==> kids[i] != kids[j]) &&
    parent.child == (if k == 0 then x else kids[0]) &&
    (forall i {:trigger kids[i].next} :: 0 <= i < |kids| && i + 1 != k ==> kids[i].next == if i + 1 < |kids| then kids[i + 1] else null) &&
    (forall i {:trigger kids[i].prev} :: 0 <= i < |kids| && i != k ==> kids[i].prev == if i > 0 then kids[i - 1] else kids[|kids| - 1]) &&
    x.next == kids[k] && kids[k].prev == x && (k > 0 ==> kids[k - 1].next == x) &&
    x.prev == (if k > 0 then kids[k - 1] else kids[|kids| - 1])
  }

  lemma SplicedIsLinked(parent: Item, kids: seq<Item>, k: nat, x: Item)
    requires Spliced(parent, kids, k, x) && parent.kids == kids[..k] + [x] + kids[k..]
    ensures parent.Linked()
  {
    InsertedAt(kids, k, x);
    var s := parent.kids;
    forall i | 0 <= i < |s|
      ensures s[i].next == (if i + 1 < |s| then s[i + 1] else null)
      ensures s[i].prev == if i > 0 then s[i - 1] else s[|s| - 1]
    {
      if i < k { assert s[i] == kids[i]; } else if i > k { assert s[i] == kids[i - 1]; }
    }
  }

  lemma InsertedAt(kids: seq<Item>, k: nat, x: Item)
    requires k < |kids|
    ensures var s := kids[..k] + [x] + kids[k..];
            |s| == |kids| + 1 && s[k] == x && (forall i :: 0 <= i < k ==> s[i] == kids[i]) &&
            (forall i :: k < i < |s| ==> s[i] == kids[i - 1])
  {}

  /** cJSON_DetachItemViaPointer on child number `k`, or on an item that is nobody's child. */
  method DetachItemViaPointer(parent: Item?, item: Item?, ghost k: nat) returns (detached: Item?)
    requires parent != null ==> parent.Linked()
    requires parent != null && item != null ==>
               (k < |parent.kids| && parent.kids[k] == item) || (item !in parent.kids && item.prev == null)
    modifies parent, Kids(parent)
    ensures detached == if parent != null && item != null && item in old(parent.kids) then item else null
    ensures parent != null ==> parent.Linked()
    ensures detached != null ==> parent.kids == RemoveAt(old(parent.kids), k)
    ensures detached != null ==> item.next == null && item.prev == null
    ensures detached == null ==> Untouched(parent, null)
  {
    if parent == null || item == null || (item != parent.child && item.prev == null) { return null; }
    Unlink(parent, item, k);
    return item;
  }

  /** The relinking of cJSON_DetachItemViaPointer, for head, middle and tail. */
  method Unlink(parent: Item, item: Item, ghost k: nat)
    requires parent.Linked() && k < |parent.kids| && parent.kids[k] == item
    modifies parent, parent.kids
    ensures parent.Linked() && parent.kids == RemoveAt(old(parent.kids), k)
    ensures item.next == null && item.prev == null
  {
    ghost var kids := parent.kids;
    if item != parent.child {
      item.prev.next := item.next;
    }
    if item.next != null {
      item.next.prev := item.prev;
    }
    if item == parent.child {
      parent.child := item.next;
    } else if item.next == null {
      parent.child.prev := item.prev;
    }
    item.prev := null;
    item.next := null;
    parent.kids := RemoveAt(kids, k);
    assert Closed(parent, kids, k);
    hide Closed, Item.Linked;
    ClosedIsLinked(parent, kids, k);
  }

  /** The links once `kids[k]` is taken out. */
  ghost predicate Closed(parent: Item, kids: seq<Item>, k: nat)
    reads parent, kids
  {
    var last := |kids| - 1;
    k <= last && (forall i, j :: 0 <= i < j < |kids| ==> kids[i] != kids[j]) &&
    parent.child == (if k > 0 then kids[0] else if k < last then kids[1] else null) &&
    (forall i {:trigger kids[i].next} :: 0 <= i <= last && i != k && i + 1 != k ==> kids[i].next == if i < last then kids[i + 1] else null) &&
    (forall i {:trigger kids[i].prev} :: 0 < i <= last && i != k && i != k + 1 ==> kids[i].prev == kids[i - 1]) &&
    (k > 0 ==> kids[k - 1].next == (if k < last then kids[k + 1] else null) &&
               kids[0].prev == kids[if k == last then last - 1 else last]) &&
    (k < last ==> kids[k + 1].prev == if k > 0 then kids[k - 1] else kids[last])
  }

  lemma ClosedIsLinked(parent: Item, kids: seq<Item>, k: nat)
    requires Closed(parent, kids, k) && parent.kids == RemoveAt(kids, k)
    ensures parent.Linked()
  {
    RemovedAt(kids, k);
    var s := parent.kids;
    forall i | 0 <= i < |s|
      ensures s[i].next == (if i + 1 < |s| then s[i + 1] else null)
      ensures s[i].prev == if i > 0 then s[i - 1] else s[|s| - 1]
    {
      if i < k { assert s[i] == kids[i]; } else { assert s[i] == kids[i + 1]; }
    }
  }

  lemma RemovedAt(kids: seq<Item>, k: nat)
    requires k < |kids|
    ensures var s := RemoveAt(kids, k);
            |s| == |kids| - 1 && (forall i :: 0 <= i < k ==> s[i] == kids[i]) && (forall i :: k <= i < |s| ==> s[i] == kids[i + 1])
  {}

  /** cJSON_DetachItemFromArray. */
  method DetachItemFromArray(parent: Item?, which: int) returns (detached: Item?)
    requires parent != null ==> parent.Linked()
    modifies parent, Kids(parent)
    ensures detached == if parent != null && 0 <= which < |old(parent.kids)| then old(parent.kids)[which] else null
    ensures parent != null ==> parent.Linked()
    ensures detached != null ==> parent.kids == RemoveAt(old(parent.kids), which)
    ensures detached != null ==> detached.next == null && detached.prev == null
    ensures detached == null ==> Untouched(parent, null)
  {
    if which < 0 { return null; }
    var item := GetArrayItem(parent, which);
    detached := DetachItemViaPointer(parent, item, which);
  }

  /** cJSON_ReplaceItemViaPointer on child number `k`; deleting the old item frees it. */
  method ReplaceItemViaPointer(parent: Item?, item: Item?, replacement: Item?, ghost k: nat) returns (ok: bool)
    requires parent != null ==> parent.Linked()
    requires parent != null && item != null ==> k < |parent.kids| && parent.kids[k] == item
    requires replacement != item ==> Addable(parent, replacement)
    modifies parent, Kids(parent), replacement
    ensures ok <==> parent != null && item != null && replacement != null
    ensures parent != null ==> parent.Linked()
    ensures ok ==> parent.kids == old(parent.kids)[k := replacement]
    ensures ok && replacement != item ==> item.next == null && item.prev == null
    ensures !ok ==> Untouched(parent, replacement)
  {
    if parent == null || parent.child == null || replacement == null || item == null { return false; }
    if replacement == item { return true; }
    Exchange(parent, item, replacement, k);
    return true;
  }

  /** The relinking of cJSON_ReplaceItemViaPointer, for head, middle and tail. */
  method Exchange(parent: Item, item: Item, replacement: Item, ghost k: nat)
    requires parent.Linked() && k < |parent.kids| && parent.kids[k] == item && replacement !in parent.kids
    modifies parent, parent.kids, replacement
    ensures parent.Linked() && parent.kids == old(parent.kids)[k := replacement]
    ensures item.next == null && item.prev == null
  {
    ghost var kids := parent.kids;
    replacement.next := item.next;
    replacement.prev := item.prev;
    if replacement.next != null {
      replacement.next.prev := replacement;
    }
    if parent.child == item {
      if parent.child.prev == parent.child {
        replacement.prev := replacement;
      }
      parent.child := replacement;
    } else {
      if replacement.prev != null {
        replacement.prev.next := replacement;
      }
      if replacement.next == null {
        parent.child.prev := replacement;
      }
    }
    item.next := null;
    item.prev := null;
    parent.kids := kids[k := replacement];
    assert Exchanged(parent, kids, k, replacement);
    hide Exchanged, Item.Linked;
    ExchangedIsLinked(parent, kids, k, replacement);
  }

  /** The links once `x` stands in the place of `kids[k]`. */
  ghost predicate Exchanged(parent: Item, kids: seq<Item>, k: nat, x: Item)
    reads parent, kids, x
  {
    var last := |kids| - 1;
    k <= last && x !in kids && (forall i, j :: 0 <= i < j < |kids| ==> kids[i] != kids[j]) &&
    parent.child == (if k == 0 then x else kids[0]) &&
    (forall i {:trigger kids[i].next} :: 0 <= i <= last && i != k && i + 1 != k ==> kids[i].next == if i < last then kids[i + 1] else null) &&
    (forall i {:trigger kids[i].prev} :: 0 < i <= last && i != k && i != k + 1 ==> kids[i].prev == kids[i - 1]) &&
    x.next == (if k < last then kids[k + 1] else null) && x.prev == (if k > 0 then kids[k - 1] else if last > 0 then kids[last] else x) &&
    (k > 0 ==> kids[k - 1].next == x && kids[0].prev == if k == last then x else kids[last]) &&
    (k < last ==> kids[k + 1].prev == x)
  }

  lemma ExchangedIsLinked(parent: Item, kids: seq<Item>, k: nat, x: Item)
    requires Exchanged(parent, kids, k, x) && parent.kids == kids[k := x]
    ensures parent.Linked()
  {
    var s := parent.kids;
    forall i | 0 <= i < |s|
      ensures s[i].next == (if i + 1 < |s| then s[i + 1] else null)
      ensures s[i].prev == if i > 0 then s[i - 1] else s[|s| - 1]
    {
      if i != k { assert s[i] == kids[i]; }
    }
  }

  /** cJSON_ReplaceItemInArray. */
  method ReplaceItemInArray(parent: Item?, which: int, newitem: Item?) returns (ok: bool)
    requires parent != null ==> parent.Linked()
    requires Addable(parent, newitem)
    modifies parent, Kids(parent), newitem
    ensures ok <==> parent != null && newitem != null && 0 <= which < |old(parent.kids)|
    ensures parent != null ==> parent.Linked()
    ensures ok ==> parent.kids == old(parent.kids)[which := newitem]
    ensures ok ==> old(parent.kids)[which].next == null && old(parent.kids)[which].prev == null
    ensures !ok ==> Untouched(parent, newitem)
  {
    if which < 0 { return false; }
    var item := GetArrayItem(parent, which);
    ok := ReplaceItemViaPointer(parent, item, newitem, which);
  }

  // ---- the operations on sequences ----

  ghost function InsertAt<T>(s: seq<T>, i: nat, x: T): seq<T> {
    if i >= |s| then s + [x] else s[..i] + [x] + s[i..]
  }

  ghost function RemoveAt<T>(s: seq<T>, i: nat): seq<T>
    requires i < |s|
  {
    s[..i] + s[i + 1..]
  }

  // ---- sequences of operations ----

  datatype Op =
    | Append(item: Item)
    | Insert(which: int, item: Item)
    | Detach(which: int)
    | Replace(which: int, item: Item)
    | DetachPointer(target: Item)
    | ReplacePointer(target: Item, item: Item)

  /** Where `x` stands among the children, or -1. */
  ghost function Position(kids: seq<Item>, x: Item): (i: int)
    ensures -1 <= i < |kids|
    ensures x in kids ==> i >= 0 && kids[i] == x
    ensures x !in kids ==> i == -1
  {
    if x !in kids then -1
    else if kids[|kids| - 1] == x then |kids| - 1
    else
      assert x in kids[..|kids| - 1] by { var i :| 0 <= i < |kids| && kids[i] == x; assert kids[..|kids| - 1][i] == x; }
      Position(kids[..|kids| - 1], x)
  }

  /** An operation by pointer is one by index. */
  ghost function Indexed(kids: seq<Item>, op: Op): Op {
    match op
    case DetachPointer(t) => Detach(Position(kids, t))
    case ReplacePointer(t, x) => Replace(Position(kids, t), x)
    case _ => op
  }

  /** What an operation does to the children; an index out of range does nothing, except that
      inserting past the end appends. */
  ghost function Apply(kids: seq<Item>, op: Op): seq<Item> {
    match Indexed(kids, op)
    case Append(x) => kids + [x]
    case Insert(i, x) => if i < 0 then kids else InsertAt(kids, i, x)
    case Detach(i) => if 0 <= i < |kids| then RemoveAt(kids, i) else kids
    case Replace(i, x) => if 0 <= i < |kids| then kids[i := x] else kids
  }

  ghost function ApplyAll(kids: seq<Item>, ops: seq<Op>): seq<Item>
    decreases |ops|
  {
    if ops == [] then kids else ApplyAll(Apply(kids, ops[0]), ops[1..])
  }

  predicate Adds(op: Op) { !op.Detach? && !op.DetachPointer? }

  /** An item an operation adds comes from the pool and is not a child at that moment; a pointer to
      detach is in the pool, child or not; a pointer to replace is a child. */
  ghost predicate FairOp(kids: seq<Item>, op: Op, pool: set<Item>) {
    (Adds(op) ==> op.item in pool && op.item !in kids) && (op.DetachPointer? ==> op.target in pool) &&
    (op.ReplacePointer? ==> op.target in kids)
  }

  ghost predicate Fair(kids: seq<Item>, ops: seq<Op>, pool: set<Item>)
    decreases |ops|
  {
    ops == [] || (FairOp(kids, ops[0], pool) && Fair(Apply(kids, ops[0]), ops[1..], pool))
  }

  /** The parent, its children and the other items of the pool, which are unlinked. */
  ghost predicate Ready(parent: Item, pool: set<Item>)
    reads parent, parent.kids, pool
  {
    parent.Linked() && parent !in pool && (forall k :: k in parent.kids ==> k in pool) &&
    forall x :: x in pool && x !in parent.kids ==> x.next == null && x.prev == null
  }

  /** One operation of the API. */
  method Perform(parent: Item, op: Op, ghost pool: set<Item>)
    requires Ready(parent, pool) && FairOp(parent.kids, op, pool)
    modifies parent, pool
    ensures Ready(parent, pool) && parent.kids == Apply(old(parent.kids), op)
  {
    match op
    case DetachPointer(t) =>
      if t.prev != null { DetachOne(parent, t, pool); } else { DetachNone(parent, t, pool); }
    case ReplacePointer(t, x) =>
      ReplaceOne(parent, t, x, pool);
    case _ =>
      PerformAt(parent, op, pool);
  }

  /** The operations by index. */
  method PerformAt(parent: Item, op: Op, ghost pool: set<Item>)
    requires Ready(parent, pool) && FairOp(parent.kids, op, pool) && !op.DetachPointer? && !op.ReplacePointer?
    modifies parent, pool
    ensures Ready(parent, pool) && parent.kids == Apply(old(parent.kids), op)
  {
    hide Position;
    Members(parent.kids, op);
    match op
    case Append(x) =>
      var ok := AddItemToArray(parent, x);
    case Insert(i, x) =>
      var ok := InsertItemInArray(parent, i, x);
    case Detach(i) =>
      var detached := DetachItemFromArray(parent, i);
    case Replace(i, x) =>
      var ok := ReplaceItemInArray(parent, i, x);
      assert ok ==> parent.kids[i] == x;
  }

  /** cJSON_DetachItemViaPointer on a child. */
  method DetachOne(parent: Item, target: Item, ghost pool: set<Item>)
    requires Ready(parent, pool) && target in parent.kids
    modifies parent, pool
    ensures Ready(parent, pool) && parent.kids == Apply(old(parent.kids), DetachPointer(target))
  {
    ghost var i := Position(parent.kids, target);
    hide Position;
    Members(parent.kids, Detach(i));
    var detached := DetachItemViaPointer(parent, target, i);
  }

  /** cJSON_DetachItemViaPointer on an item that is nobody's child. */
  method DetachNone(parent: Item, target: Item, ghost pool: set<Item>)
    requires Ready(parent, pool) && target in pool && target !in parent.kids
    modifies parent, pool
    ensures Ready(parent, pool) && parent.kids == Apply(old(parent.kids), DetachPointer(target))
  {
    hide Position;
    var detached := DetachItemViaPointer(parent, target, 0);
  }

  /** cJSON_ReplaceItemViaPointer on a child. */
  method ReplaceOne(parent: Item, target: Item, x: Item, ghost pool: set<Item>)
    requires Ready(parent, pool) && target in parent.kids && x in pool && x !in parent.kids
    modifies parent, pool
    ensures Ready(parent, pool) && parent.kids == Apply(old(parent.kids), ReplacePointer(target, x))
  {
    ghost var i := Position(parent.kids, target);
    hide Position;
    Members(parent.kids, Replace(i, x));
    var ok := ReplaceItemViaPointer(parent, target, x, i);
    assert parent.kids[i] == x;
  }

  /** Which items can come and go by one operation by index. */
  lemma Members(kids: seq<Item>, op: Op)
    requires !op.DetachPointer? && !op.ReplacePointer?
    ensures forall k :: k in Apply(kids, op) ==> k in kids || (Adds(op) && k == op.item)
    ensures forall k :: k in kids && k !in Apply(kids, op) ==>
              (op.Detach? || op.Replace?) && 0 <= op.which < |kids| && k == kids[op.which]
  {
    forall j | 0 <= j < |kids|
      ensures kids[j] in Apply(kids, op) || ((op.Detach? || op.Replace?) && op.which == j)
    {
      Stays(kids, op, j);
    }
  }

  lemma Stays(kids: seq<Item>, op: Op, j: nat)
    requires j < |kids| && !op.DetachPointer? && !op.ReplacePointer?
    ensures kids[j] in Apply(kids, op) || ((op.Detach? || op.Replace?) && op.which == j)
  {
    match op
    case Append(x) => assert Apply(kids, op)[j] == kids[j];
    case Insert(i, x) =>
      if i >= 0 { assert Apply(kids, op)[if i <= j then j + 1 else j] == kids[j]; }
    case Detach(i) =>
      if 0 <= i < |kids| && i != j { assert Apply(kids, op)[if i < j then j - 1 else j] == kids[j]; }
    case Replace(i, x) =>
      if 0 <= i < |kids| && i != j { assert Apply(kids, op)[j] == kids[j]; }
  }

  /** Every sequence of operations keeps the sibling invariant and leaves exactly the children that
      the same operations on sequences give. */
  method PerformAll(parent: Item, ops: seq<Op>, ghost pool: set<Item>)
    requires Ready(parent, pool) && Fair(parent.kids, ops, pool)
    modifies parent, pool
    ensures Ready(parent, pool) && parent.kids == ApplyAll(old(parent.kids), ops)
  {
    var i := 0;
    assert ops[0..] == ops;
    while i < |ops|
      invariant 0 <= i <= |ops|
      invariant Ready(parent, pool) && Fair(parent.kids, ops[i..], pool)
      invariant ApplyAll(parent.kids, ops[i..]) == ApplyAll(old(parent.kids), ops)
    {
      assert ops[i..][1..] == ops[i + 1..];
      Perform(parent, ops[i], pool);
      i := i + 1;
    }
  }

  /** Detaching at the index just used for an insertion undoes it, in range or past the end. */
  lemma InsertThenDetach(kids: seq<Item>, i: nat, x: Item)
    ensures Apply(Apply(kids, Insert(i, x)), Detach(Min(i, |kids|))) == kids
  {
    assert RemoveAt(InsertAt(kids, i, x), Min(i, |kids|)) == kids;
  }

  /** Replacing is detaching and inserting in the same place. */
  lemma ReplaceIsDetachInsert(kids: seq<Item>, i: nat, x: Item)
    requires i < |kids|
    ensures Apply(kids, Replace(i, x)) == Apply(Apply(kids, Detach(i)), Insert(i, x))
  {
    var r := RemoveAt(kids, i);
    assert r[..i] == kids[..i];
    assert r[i..] == kids[i + 1..];
    assert kids[i := x] == InsertAt(r, i, x);
  }

  // ---- instances ----

  method TwoItems() returns (q: Item, x: Item, y: Item)
    ensures q.Linked() && q.kids == [x, y] && x.next == y && fresh(q) && fresh(x) && fresh(y)
  {
    q := new Item();
    x := new Item();
    y := new Item();
    var ok := AddItemToArray(q, x);
    ok := AddItemToArray(q, y);
    assert q.kids[0].next == q.kids[1];
  }

  /** An item that still stands in another list: appending it to a list that is not empty takes the
      item behind it along, so that the list is no longer in order. */
  method AppendWithoutDetaching() returns (p: Item, x: Item, y: Item)
    ensures |p.kids| == 2 && p.kids[1] == x && x.next == y && y !in p.kids && !p.Linked()
  {
    var q;
    q, x, y := TwoItems();
    p := new Item();
    var a := new Item();
    var ok := AddItemToArray(p, a);
    ok := AddItemToArray(p, x);
  }

  /** An array inserted into itself in front of its only child becomes its own first child, in a list
      that is in order. */
  method InsertIntoItself() returns (p: Item, a: Item)
    ensures p.Linked() && p.kids == [p, a] && p.child == p && p.next == a && p.prev == a && a.next == null
  {
    p := new Item();
    a := new Item();
    var ok := AddItemToArray(p, a);
    ok := InsertItemInArray(p, 0, p);
    assert p.kids == [p, a];
    assert p.kids[0].next == p.kids[1] && p.kids[0].prev == p.kids[1] && p.kids[1].next == null;
  }
}
