/** The search tree of the shared-memory dictionary: heap nodes ordered by hash and, for equal
    hashes, by key bytes. nginx's own rotations are not part of this model: wherever nginx
    rebalances, the model continues with an arbitrary shape that has the same in-order sequence. */
module ShmTree {
  import opened Bytes
  import opened Sequences

  datatype Tree = Leaf | Branch(left: Tree, node: Node, right: Tree)

  class Node {
    const hash: nat
    const key: Bytes
    var value: Bytes
    var valueType: nat
    var userFlags: nat
    var expires: nat

    constructor (hash: nat, key: Bytes, value: Bytes, valueType: nat, userFlags: nat, expires: nat)
      ensures this.hash == hash && this.key == key && this.value == value && this.valueType == valueType
      ensures this.userFlags == userFlags && this.expires == expires
    {
      this.hash, this.key, this.value, this.valueType := hash, key, value, valueType;
      this.userFlags, this.expires := userFlags, expires;
    }
  }

  function InOrder(t: Tree): seq<Node>
  {
    match t
    case Leaf => []
    case Branch(l, x, r) => InOrder(l) + [x] + InOrder(r)
  }

  function Nodes(t: Tree): (s: set<Node>)
    ensures forall n :: n in s ==> n in InOrder(t)
    ensures forall n :: n in InOrder(t) ==> n in s
  {
    match t
    case Leaf => {}
    case Branch(l, x, r) => Nodes(l) + {x} + Nodes(r)
  }

  predicate NoDuplicates<T(==)>(s: seq<T>)
  {
    forall i, j :: 0 <= i < j < |s| ==> s[i] != s[j]
  }

  predicate Before(hash: nat, key: Bytes, n: Node)
  {
    hash < n.hash || (hash == n.hash && Memn2Cmp(key, n.key) < 0)
  }

  predicate Less(a: Node, b: Node)
  {
    Before(a.hash, a.key, b)
  }

  ghost predicate Ordered(s: seq<Node>)
  {
    forall i, j :: 0 <= i < j < |s| ==> Less(s[i], s[j])
  }

  lemma LessTransitive(a: Node, b: Node, c: Node)
    requires Less(a, b) && Less(b, c)
    ensures Less(a, c)
  {
    if a.hash == b.hash == c.hash {
      CompareTransitive(a.key, b.key, c.key);
    }
  }

  /** Two distinct places in the order: exactly one of the three relations holds. */
  lemma LessTotal(a: Node, b: Node)
    ensures Less(a, b) ==> !Less(b, a) && a != b
    ensures !Less(a, b) && !Less(b, a) <==> a.hash == b.hash && a.key == b.key
  {
    CompareZero(a.key, b.key);
    CompareFlips(a.key, b.key);
    CompareFlips(b.key, a.key);
    CompareZero(a.key, a.key);
  }

  lemma OrderedHasNoDuplicates(s: seq<Node>)
    requires Ordered(s)
    ensures NoDuplicates(s)
  {
    forall i, j | 0 <= i < j < |s| ensures s[i] != s[j] {
      LessTotal(s[i], s[j]);
    }
  }

  // --- the insertion walk of ngx_shm_dict_rbtree_insert_value ---

  /** The walk goes left exactly when the new node sorts before the current one. */
  function TreeInsert(t: Tree, x: Node): Tree
  {
    match t
    case Leaf => Branch(Leaf, x, Leaf)
    case Branch(l, y, r) =>
      if Less(x, y) then Branch(TreeInsert(l, x), y, r) else Branch(l, y, TreeInsert(r, x))
  }

  lemma {:induction false} NodesAfterInsert(t: Tree, x: Node)
    ensures Nodes(TreeInsert(t, x)) == Nodes(t) + {x}
  {
    if t.Branch? {
      NodesAfterInsert(t.left, x);
      NodesAfterInsert(t.right, x);
    }
  }

  /** The node below which the walk hangs the new node. */
  function Spot(t: Tree, x: Node): Node
    requires t.Branch?
  {
    var next := if Less(x, t.node) then t.left else t.right;
    if next.Leaf? then t.node else Spot(next, x)
  }

  lemma {:induction false} SpotInTree(t: Tree, x: Node)
    requires t.Branch?
    ensures Spot(t, x) in InOrder(t)
  {
    var next := if Less(x, t.node) then t.left else t.right;
    if next.Branch? {
      SpotInTree(next, x);
    }
  }

  lemma OrderedSplit(a: seq<Node>, y: Node, b: seq<Node>)
    requires Ordered(a + [y] + b)
    ensures Ordered(a) && Ordered(b)
    ensures forall n :: n in a ==> Less(n, y)
    ensures forall n :: n in b ==> Less(y, n)
  {
    var s := a + [y] + b;
    assert forall i :: 0 <= i < |a| ==> s[i] == a[i];
    assert s[|a|] == y;
    assert forall i :: 0 <= i < |b| ==> s[|a| + 1 + i] == b[i];
  }

  lemma OrderedJoin(a: seq<Node>, y: Node, b: seq<Node>)
    requires Ordered(a) && Ordered(b)
    requires forall n :: n in a ==> Less(n, y)
    requires forall n :: n in b ==> Less(y, n)
    ensures Ordered(a + [y] + b)
  {
    forall n, m | n in a && m in b ensures Less(n, m) { LessTransitive(n, y, m); }
  }

  /** Search order is kept by the insertion walk whenever the new key is not stored yet. */
  lemma {:induction false} InsertInOrder(t: Tree, x: Node)
    requires Ordered(InOrder(t))
    requires forall y :: y in InOrder(t) ==> Less(x, y) || Less(y, x)
    ensures Ordered(InOrder(TreeInsert(t, x)))
    decreases t
  {
    match t
    case Leaf =>
    case Branch(l, y, r) =>
      OrderedSplit(InOrder(l), y, InOrder(r));
      assert y in InOrder(t);
      NodesAfterInsert(l, x);
      NodesAfterInsert(r, x);
      if Less(x, y) {
        InsertInOrder(l, x);
        OrderedJoin(InOrder(TreeInsert(l, x)), y, InOrder(r));
      } else {
        InsertInOrder(r, x);
        OrderedJoin(InOrder(l), y, InOrder(TreeInsert(r, x)));
      }
  }

  /** The child pointers of every node; `null` is the sentinel. */
  type Links = map<Node, (Node?, Node?)>

  /** Following the pointers of `k` from `n` spells out the shape `t`. */
  ghost predicate Wired(k: Links, n: Node?, t: Tree)
  {
    match t
    case Leaf => n == null
    case Branch(l, x, r) => n == x && x in k && Wired(k, k[x].0, l) && Wired(k, k[x].1, r)
  }

  lemma {:induction false} WiredFrame(k: Links, k': Links, n: Node?, t: Tree)
    requires Wired(k, n, t)
    requires forall y :: y in Nodes(t) && y in k ==> y in k' && k'[y] == k[y]
    ensures Wired(k', n, t)
    decreases t
  {
    match t
    case Leaf =>
    case Branch(l, x, r) =>
      assert x in Nodes(t);
      WiredFrame(k, k', k[x].0, l);
      WiredFrame(k, k', k[x].1, r);
  }

  /** Hanging `x` below the end of its walk turns a tree of shape `t` into one of shape
      `TreeInsert(t, x)`; no other pointer has to change. */
  lemma {:induction false} HangBelowSpot(k: Links, k': Links, n: Node?, t: Tree, x: Node)
    requires t.Branch? && Wired(k, n, t)
    requires NoDuplicates(InOrder(t)) && x !in Nodes(t)
    requires x in k' && k'[x] == (null, null)
    requires forall y :: y in Nodes(t) && y in k && y != Spot(t, x) ==> y in k' && k'[y] == k[y]
    requires Spot(t, x) in k && Spot(t, x) in k'
    requires k'[Spot(t, x)] == if Less(x, Spot(t, x)) then (x, k[Spot(t, x)].1) else (k[Spot(t, x)].0, x)
    ensures Wired(k', n, TreeInsert(t, x))
    decreases t
  {
    var Branch(l, y, r) := t;
    assert y in Nodes(t);
    SplitDistinct(InOrder(l), y, InOrder(r));
    if Less(x, y) {
      if l.Branch? {
        SpotInTree(l, x);
        HangBelowSpot(k, k', k[y].0, l, x);
      }
      WiredFrame(k, k', k[y].1, r);
    } else {
      if r.Branch? {
        SpotInTree(r, x);
        HangBelowSpot(k, k', k[y].1, r, x);
      }
      WiredFrame(k, k', k[y].0, l);
    }
  }

  lemma SplitDistinct(a: seq<Node>, y: Node, b: seq<Node>)
    requires NoDuplicates(a + [y] + b)
    ensures NoDuplicates(a) && NoDuplicates(b)
    ensures y !in a && y !in b
    ensures forall n :: n in a ==> n !in b
  {
    var s := a + [y] + b;
    assert forall i :: 0 <= i < |a| ==> s[i] == a[i];
    assert s[|a|] == y;
    assert forall i :: 0 <= i < |b| ==> s[|a| + 1 + i] == b[i];
  }

  // --- rebalancing ---

  /** Some tree with a given in-order sequence: a right spine. */
  function Spine(s: seq<Node>): (t: Tree)
    ensures InOrder(t) == s
  {
    if s == [] then Leaf else Branch(Leaf, s[0], Spine(s[1..]))
  }

  function RootOf(t: Tree): Node?
  {
    if t.Leaf? then null else t.node
  }

  function LinksOf(t: Tree): (k: Links)
    ensures k.Keys == Nodes(t)
  {
    match t
    case Leaf => map[]
    case Branch(l, x, r) => LinksOf(l) + LinksOf(r) + map[x := (RootOf(l), RootOf(r))]
  }

  lemma {:induction false} LinksWired(t: Tree)
    requires NoDuplicates(InOrder(t))
    ensures Wired(LinksOf(t), RootOf(t), t)
  {
    match t
    case Leaf =>
    case Branch(l, x, r) =>
      SplitDistinct(InOrder(l), x, InOrder(r));
      LinksWired(l);
      LinksWired(r);
      WiredFrame(LinksOf(l), LinksOf(t), RootOf(l), l);
      WiredFrame(LinksOf(r), LinksOf(t), RootOf(r), r);
  }

  // --- the tree as nginx keeps it: a root and child pointers ---

  function DropNode(s: seq<Node>, n: Node): seq<Node>
    requires n in s
  {
    s[..FirstIndex(s, n)] + s[FirstIndex(s, n) + 1..]
  }

  lemma DropNodeMembers(s: seq<Node>, n: Node)
    requires n in s && NoDuplicates(s)
    ensures NoDuplicates(DropNode(s, n))
    ensures forall m :: m in DropNode(s, n) <==> m in s && m != n
  {}

  lemma DropNodeOrdered(s: seq<Node>, n: Node)
    requires n in s && Ordered(s)
    ensures Ordered(DropNode(s, n))
    ensures forall m :: m in DropNode(s, n) <==> m in s && m != n
  {
    OrderedHasNoDuplicates(s);
    DropNodeMembers(s, n);
    var i, rest := FirstIndex(s, n), DropNode(s, n);
    assert forall k :: 0 <= k < |rest| ==> rest[k] == s[if k < i then k else k + 1];
  }

  /** `shape` is the tree that the child pointers currently spell out from the root. */
  class SearchTree {
    var root: Node?
    var links: Links
    var shape: Tree

    ghost predicate Valid()
      reads this
    {
      Wired(links, root, shape) && Ordered(InOrder(shape))
    }

    ghost function Members(): set<Node>
      reads this
    {
      Nodes(shape)
    }

    constructor ()
      ensures Valid() && Members() == {}
    {
      root, links, shape := null, map[], Leaf;
    }

    /** The search loop of `ngx_shm_dict_lookup`: finds the pair of hash and key exactly when it is
        stored, for every tree shape and even among equal hashes. */
    method Find(hash: nat, key: Bytes) returns (found: Node?)
      requires Valid()
      ensures found != null ==> found in Members() && found.hash == hash && found.key == key
      ensures found == null ==> forall n :: n in Members() ==> n.hash != hash || n.key != key
    {
      var node := root;
      ghost var t := shape;
      while node != null
        invariant Wired(links, node, t) && Ordered(InOrder(t)) && Nodes(t) <= Members()
        invariant forall n :: n in Members() && n.hash == hash && n.key == key ==> n in Nodes(t)
        decreases t
      {
        OrderedSplit(InOrder(t.left), t.node, InOrder(t.right));
        CompareFlips(key, node.key);
        CompareZero(key, node.key);
        CompareFlips(node.key, key);
        if hash < node.hash {
          node, t := links[node].0, t.left;
          continue;
        }
        if hash > node.hash {
          node, t := links[node].1, t.right;
          continue;
        }
        var rc := Memn2Cmp(key, node.key);
        if rc == 0 {
          return node;
        }
        if rc < 0 {
          node, t := links[node].0, t.left;
        } else {
          node, t := links[node].1, t.right;
        }
      }
      return null;
    }

    /** The walk of `ngx_shm_dict_rbtree_insert_value`: descend until the chosen child is the
        sentinel, and link the node there. */
    method InsertValue(node: Node)
      requires Valid() && root != null && node !in Members()
      requires forall m :: m in Members() ==> Less(node, m) || Less(m, node)
      modifies this
      ensures Valid() && root == old(root) && Members() == old(Members()) + {node}
      ensures shape == TreeInsert(old(shape), node)
    {
      var temp := root;
      ghost var t := shape;
      var goLeft := Less(node, temp);
      while (if goLeft then links[temp].0 else links[temp].1) != null
        invariant t.Branch? && temp == t.node && Wired(links, temp, t) && goLeft == Less(node, temp)
        invariant Spot(t, node) == Spot(shape, node)
        decreases t
      {
        temp, t := if goLeft then links[temp].0 else links[temp].1, if goLeft then t.left else t.right;
        goLeft := Less(node, temp);
      }
      ghost var before := links;
      links := links[temp := if goLeft then (node, links[temp].1) else (links[temp].0, node)][node := (null, null)];
      OrderedHasNoDuplicates(InOrder(shape));
      SpotInTree(shape, node);
      HangBelowSpot(before, links, root, shape, node);
      InsertInOrder(shape, node);
      NodesAfterInsert(shape, node);
      shape := TreeInsert(shape, node);
    }

    /** nginx's rebalancing: any pointers whose tree has the same in-order sequence. */
    method Rebalance(order: seq<Node>)
      requires Ordered(order)
      modifies this
      ensures Valid() && InOrder(shape) == order
    {
      assert InOrder(Spine(order)) == order;
      var t: Tree :| InOrder(t) == order;
      OrderedHasNoDuplicates(order);
      LinksWired(t);
      root, links, shape := RootOf(t), LinksOf(t), t;
    }

    /** `ngx_rbtree_insert`: an empty tree takes the node as its root, any other runs the walk. */
    method Insert(n: Node)
      requires Valid() && n !in Members()
      requires forall m :: m in Members() ==> n.hash != m.hash || n.key != m.key
      modifies this
      ensures Valid() && Members() == old(Members()) + {n}
    {
      forall m | m in Members() ensures Less(n, m) || Less(m, n) { LessTotal(n, m); }
      if root == null {
        root, links, shape := n, map[n := (null, null)], Branch(Leaf, n, Leaf);
      } else {
        InsertValue(n);
      }
      Rebalance(InOrder(shape));
    }

    /** `ngx_rbtree_delete`. */
    method Delete(n: Node)
      requires Valid() && n in Members()
      modifies this
      ensures Valid() && Members() == old(Members()) - {n}
    {
      DropNodeOrdered(InOrder(shape), n);
      Rebalance(DropNode(InOrder(shape), n));
    }
  }
}
