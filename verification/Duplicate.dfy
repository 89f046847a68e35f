/** cJSON_Duplicate on the heap: a deep copy made of new nodes, equal in structure, with the sibling
    links in order at every level. */
module Duplicate {
  import opened Bytes

  const CIRCULAR_LIMIT: nat := 10000

  /** The fields cJSON_Duplicate copies: type, both numbers (the double by its 64 bits), and the two
      strings. */
  datatype Fields = Fields(kind: int, valueint: int, valuedouble: nat, valuestring: Option<bytes>, key: Option<bytes>)

  /** The tree below a node. */
  datatype Tree = Tree(fields: Fields, kids: seq<Tree>)

  /** How many levels of children there are. */
  function Height(t: Tree): nat
    decreases t, 0
  {
    if t.kids == [] then 0 else 1 + KidsHeight(t.kids, 0)
  }

  function KidsHeight(ts: seq<Tree>, i: nat): nat
    decreases ts, if i < |ts| then |ts| - i else 0
  {
    if i >= |ts| then 0 else Max(Height(ts[i]), KidsHeight(ts, i + 1))
  }

  class Node {
    var fields: Fields
    var next: Node?
    var prev: Node?
    var child: Node?
    ghost var kids: seq<Node>
    ghost var tree: Tree
    ghost var repr: set<Node>

    /** The node and everything below it form the tree `tree` without sharing, and the children are
        linked in order. The node's own `next` and `prev` are its parent's business. */
    ghost predicate Valid()
      reads this`fields, this`child, this`kids, this`tree, this`repr, repr - {this}
      decreases tree
    {
      this in repr && fields == tree.fields && |kids| == |tree.kids| &&
      child == (if kids == [] then null else kids[0]) &&
      (forall i :: 0 <= i < |kids| ==> kids[i] in repr - {this}) &&
      Linked(kids) &&
      (forall i :: 0 <= i < |kids| ==>
         kids[i].repr <= repr - {this} && kids[i].tree == tree.kids[i] && kids[i].Valid()) &&
      (forall i, j :: 0 <= i < j < |kids| ==> kids[i].repr !! kids[j].repr)
    }

    /** cJSON_New_Item: every pointer is NULL. */
    constructor (fields: Fields)
      ensures Valid() && tree == Tree(fields, []) && repr == {this} && next == null && prev == null
    {
      this.fields := fields;
      next, prev, child := null, null, null;
      kids, tree, repr := [], Tree(fields, []), {this};
    }
  }

  /** Each `next` is the successor, each `prev` the predecessor, and the head's `prev` the tail. */
  ghost predicate Linked(kids: seq<Node>)
    reads kids
  {
    Chained(kids) && (kids != [] ==> kids[0].prev == kids[|kids| - 1])
  }

  /** The same while the list is being built: the head's `prev` is not set yet. */
  ghost predicate Chained(kids: seq<Node>)
    reads kids
  {
    (forall i {:trigger kids[i].next} :: 0 <= i < |kids| ==> kids[i].next == if i + 1 < |kids| then kids[i + 1] else null) &&
    (forall i {:trigger kids[i].prev} :: 0 < i < |kids| ==> kids[i].prev == kids[i - 1])
  }

  /** The copies made so far, whose nodes are among `all`: whole trees, apart from each other, and
      equal to the first children of `t`. */
  ghost predicate Copies(copies: seq<Node>, all: set<Node>, t: Tree)
    reads all
  {
    |copies| <= |t.kids| &&
    (forall i :: 0 <= i < |copies| ==>
       copies[i] in all && copies[i] in copies[i].repr && copies[i].repr <= all && copies[i].tree == t.kids[i] && copies[i].Valid()) &&
    (forall i, j :: 0 <= i < j < |copies| ==> copies[i].repr !! copies[j].repr)
  }

  lemma NoCopies(t: Tree)
    ensures Copies([], {}, t) && Chained([])
  {}

  /** What a whole tree says about its root and its child number `i`. */
  lemma FirstLevel(item: Node, i: nat)
    requires item.Valid()
    ensures item in item.repr && item.fields == item.tree.fields && |item.kids| == |item.tree.kids|
    ensures item.child == if item.kids == [] then null else item.kids[0]
    ensures i < |item.kids| ==> item.kids[i].Valid() && item.kids[i].tree == item.tree.kids[i]
    ensures i < |item.kids| ==> item.kids[i].next == if i + 1 < |item.kids| then item.kids[i + 1] else null
  {}

  /** cJSON_Duplicate_rec. It succeeds exactly when no child lies deeper than the limit, touches
      nothing that existed, and returns a tree of new nodes. */
  method DuplicateRec(item: Node, depth: nat, recurse: bool) returns (newitem: Node?)
    requires item.Valid()
    ensures newitem != null <==> !recurse || depth + Height(item.tree) <= CIRCULAR_LIMIT || item.tree.kids == []
    ensures newitem != null ==> newitem.Valid() && fresh(newitem.repr) && newitem.next == null && newitem.prev == null
    ensures newitem != null ==> newitem.tree == if recurse then item.tree else Tree(item.fields, [])
    decreases item.tree, 0
  {
    hide Node.Valid, Height, Copies, Chained;
    newitem := new Node(item.fields);
    if !recurse { return newitem; }
    FirstLevel(item, 0);
    NoCopies(item.tree);
    var child := item.child;
    var last: Node? := null;
    ghost var copies: seq<Node>, all: set<Node> := [], {};
    while child != null
      invariant item.Valid() && |copies| <= |item.kids|
      invariant child == if |copies| < |item.kids| then item.kids[|copies|] else null
      invariant fresh(newitem) && newitem.fields == item.fields && newitem.next == null && newitem.prev == null
      invariant newitem.child == if copies == [] then null else copies[0]
      invariant last == if copies == [] then null else copies[|copies| - 1]
      invariant fresh(all) && newitem !in all && Copies(copies, all, item.tree) && Chained(copies)
      invariant forall i :: 0 <= i < |copies| ==> depth + 1 + Height(item.tree.kids[i]) <= CIRCULAR_LIMIT
      decreases |item.kids| - |copies|
    {
      FirstLevel(item, |copies|);
      TooDeep(item.tree, depth, |copies|);
      var newchild := CopyChild(child, depth, newitem, last, copies, all, item.tree);
      if newchild == null { return null; }
      FirstLevel(item, |copies|);
      last := newchild;
      copies, all := copies + [newchild], all + newchild.repr;
      child := child.next;
    }
    FirstLevel(item, 0);
    Adopt(newitem, last, copies, all, item.tree);
    FitsAll(item.tree, depth);
  }

  /** One turn of the loop over the children: the limit, the recursion, and the links. */
  method CopyChild(child: Node, depth: nat, newitem: Node, last: Node?, ghost copies: seq<Node>, ghost all: set<Node>, ghost t: Tree)
    returns (newchild: Node?)
    requires Copies(copies, all, t) && Chained(copies) && |copies| < |t.kids|
    requires child.Valid() && child.tree == t.kids[|copies|] && newitem !in all
    requires last == if copies == [] then null else copies[|copies| - 1]
    requires newitem.child == if copies == [] then null else copies[0]
    modifies newitem`child, all`next
    ensures newchild != null <==> depth + 1 + Height(child.tree) <= CIRCULAR_LIMIT
    ensures newchild != null ==> fresh(newchild.repr) && newchild in newchild.repr && newitem !in newchild.repr
    ensures newchild != null ==> Copies(copies + [newchild], all + newchild.repr, t) && Chained(copies + [newchild])
    ensures newchild != null ==> newitem.child == (copies + [newchild])[0]
    decreases child.tree, 1
  {
    hide Node.Valid, Copies, Chained;
    if depth >= CIRCULAR_LIMIT { return null; }
    newchild := DuplicateRec(child, depth + 1, true);
    if newchild == null { return null; }
    FirstLevel(newchild, 0);
    AppendCopy(newitem, last, newchild, copies, all, t);
  }

  /** Links one more copy behind the last one. */
  method AppendCopy(newitem: Node, last: Node?, newchild: Node, ghost copies: seq<Node>, ghost all: set<Node>, ghost t: Tree)
    requires Copies(copies, all, t) && Chained(copies) && |copies| < |t.kids|
    requires newchild.Valid() && newchild.tree == t.kids[|copies|] && newchild in newchild.repr && newchild.repr !! all
    requires newchild.next == null && newchild.prev == null && newitem !in all && newitem !in newchild.repr
    requires last == if copies == [] then null else copies[|copies| - 1]
    requires newitem.child == if copies == [] then null else copies[0]
    modifies newitem`child, newchild`prev, all`next
    ensures Copies(copies + [newchild], all + newchild.repr, t) && Chained(copies + [newchild])
    ensures newitem.child == (copies + [newchild])[0]
  {
    hide Node.Valid;
    if last != null {
      last.next := newchild;
      newchild.prev := last;
    } else {
      newitem.child := newchild;
    }
  }

  /** Closes the ring of the copies and makes them the children of the new node. */
  method Adopt(newitem: Node, last: Node?, ghost copies: seq<Node>, ghost all: set<Node>, ghost t: Tree)
    requires Copies(copies, all, t) && Chained(copies) && |copies| == |t.kids|
    requires newitem.fields == t.fields && newitem !in all
    requires last == if copies == [] then null else copies[|copies| - 1]
    requires newitem.child == if copies == [] then null else copies[0]
    modifies newitem`kids, newitem`tree, newitem`repr, all`prev
    ensures newitem.Valid() && newitem.tree == t && newitem.repr == {newitem} + all
  {
    hide Node.Valid;
    if newitem.child != null {
      newitem.child.prev := last;
    }
    newitem.kids, newitem.tree, newitem.repr := copies, t, {newitem} + all;
    Assemble(newitem, all);
  }

  lemma Assemble(item: Node, all: set<Node>)
    requires Copies(item.kids, all, item.tree) && Linked(item.kids) && |item.kids| == |item.tree.kids|
    requires item.fields == item.tree.fields && item !in all && item.repr == {item} + all
    requires item.child == if item.kids == [] then null else item.kids[0]
    ensures item.Valid()
  {
    assert item.repr - {item} == all;
  }

  lemma {:induction false} KidHeight(ts: seq<Tree>, i: nat, k: nat)
    requires i <= k < |ts|
    ensures Height(ts[k]) <= KidsHeight(ts, i)
    decreases k - i
  {
    if i < k { KidHeight(ts, i + 1, k); }
  }

  /** A child out of reach makes the whole tree too deep. */
  lemma TooDeep(t: Tree, depth: nat, k: nat)
    requires k < |t.kids|
    ensures depth + 1 + Height(t.kids[k]) > CIRCULAR_LIMIT ==> depth + Height(t) > CIRCULAR_LIMIT
  {
    KidHeight(t.kids, 0, k);
  }

  lemma {:induction false} KidsFit(ts: seq<Tree>, i: nat, bound: nat)
    requires forall k :: i <= k < |ts| ==> Height(ts[k]) <= bound
    ensures KidsHeight(ts, i) <= bound
    decreases if i < |ts| then |ts| - i else 0
  {
    if i < |ts| { KidsFit(ts, i + 1, bound); }
  }

  lemma FitsAll(t: Tree, depth: nat)
    requires forall i :: 0 <= i < |t.kids| ==> depth + 1 + Height(t.kids[i]) <= CIRCULAR_LIMIT
    ensures t.kids != [] ==> depth + Height(t) <= CIRCULAR_LIMIT
  {
    if t.kids != [] {
      assert depth + 1 + Height(t.kids[0]) <= CIRCULAR_LIMIT;
      KidsFit(t.kids, 0, CIRCULAR_LIMIT - depth - 1);
    }
  }
}
