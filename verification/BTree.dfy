// The B-tree as objects that are changed in place and shared between trees.

module BTrees {
  import opened Bytes
  import opened Entries
  import opened BTreeValue
  import opened NodeGraph
  import opened NodeSteps
  import opened TreeSteps

  /** struct btree_node. */
  class Node {
    var rc: int
    const leaf: bool
    var items: seq<Entry>
    var children: seq<Node>

    /** btree_node_new */
    constructor (leaf: bool)
      ensures this.leaf == leaf && rc == 0 && items == [] && children == []
    {
      this.leaf := leaf;
      rc, items, children := 0, [], [];
    }
  }

  /** All live nodes and the trees over them, for the proofs: what the shared memory holds. */
  class Heap {
    ghost var s: State<Node, BTree>
    ghost var trees: set<BTree>

    /** The objects hold what the state says. */
    ghost predicate Agrees()
      reads this, s.g.Keys
    {
      forall n :: n in s.g ==> Holds(n, s.g[n])
    }

    /** Everything in the shared memory is in order: exact counts, faithful values, sound trees. */
    ghost predicate Ok()
      reads this, s.g.Keys, trees
    {
      && Agrees() && Linked(s) && AllFaithful(s)
      && (forall b :: b in s.roots ==> b in trees)
      && (forall b :: b in trees ==> b.heap == this && b.RootOk(s))
    }

    constructor ()
      ensures Ok() && trees == {} && s == State(map[], map[])
    {
      s, trees := State(map[], map[]), {};
    }

    /** The state after a deal, once the objects hold it. */
    ghost method ApplyDeal(d: Deal<Node>)
      requires DealPre(s, d)
      requires forall n :: n in s.g && n != d.p && n != d.l && n != d.r ==> Holds(n, s.g[n])
      requires d.p.rc == s.g[d.p].rc && d.p.leaf == s.g[d.p].leaf && d.p.items == d.pItems && d.p.children == d.pKids
      requires d.l.rc == s.g[d.l].rc && d.l.leaf == s.g[d.l].leaf && d.l.items == d.lItems && d.l.children == d.lKids
      requires d.keep ==> d.r.rc == 0 && d.r.leaf == s.g[d.l].leaf && d.r.items == d.rItems && d.r.children == d.rKids
      modifies this`s
      ensures DealPre(old(s), d) && s == Redeal(old(s), d) && Agrees()
    {
      DealFields(s, d);
      s := Redeal(s, d);
    }

    /** The state after a root split, once the objects hold it. */
    ghost method ApplySplitRoot(b: BTree, q: Node, r: Node, c: Node)
      requires b in s.roots && s.roots[b] == c && c in s.g && q !in s.g && r !in s.g && r != q
      requires OwnKid(Grow(s, b, q), q, 0) && b.minItems < |s.g[c].items|
      requires DealPre(Grow(s, b, q), SplitDeal(Grow(s, b, q), q, 0, b.minItems, r))
      requires forall n :: n in s.g && n != c ==> Holds(n, s.g[n])
      requires c.rc == s.g[c].rc && c.leaf == s.g[c].leaf && c.items == s.g[c].items[..b.minItems]
      requires c.children == if c.leaf then [] else s.g[c].children[..b.minItems + 1]
      requires q.rc == 0 && !q.leaf && q.items == [s.g[c].items[b.minItems]] && q.children == [c, r]
      requires r.rc == 0 && r.leaf == c.leaf && r.items == s.g[c].items[b.minItems + 1..]
      requires r.children == if c.leaf then [] else s.g[c].children[b.minItems + 1..]
      modifies this`s
      ensures b in old(s.roots) && old(s.roots[b]) in old(s.g) && OwnKid(Grow(old(s), b, q), q, 0)
      ensures b.minItems < |Grow(old(s), b, q).g[Grow(old(s), b, q).g[q].children[0]].items|
      ensures DealPre(Grow(old(s), b, q), SplitDeal(Grow(old(s), b, q), q, 0, b.minItems, r))
      ensures s == SplitRoot(old(s), b, q, r, b.minItems) && Agrees()
    {
      hide DealPre, Redeal, OwnKid, DownOk;
      s := Grow(s, b, q);
      ApplyDeal(SplitDeal(s, q, 0, b.minItems, r));
    }

    static ghost predicate Holds(n: Node, r: Rec<Node, BTree>)
      reads n
    {
      n.rc == r.rc && n.leaf == r.leaf && n.items == r.items && n.children == r.children
    }
  }

  class BTree {
    var root: Node?
    var count: nat
    var height: nat
    const maxItems: nat
    const minItems: nat
    ghost const heap: Heap

    /** udx_btree_new: an empty tree with the normalised node capacity. */
    constructor (maxItems: nat, ghost heap: Heap)
      requires heap.Ok()
      ensures root == null && count == 0 && height == 0 && this.heap == heap
      ensures Params() && this.maxItems == Normalised(maxItems) && minItems == this.maxItems / 2
      ensures this.maxItems == if maxItems <= 1 then 255
                               else if maxItems <= 3 then 3
                               else if maxItems < 2048 then maxItems / 2 * 2 - 1
                               else 2045
      ensures this !in heap.s.roots && TreeOk(heap.s, this, 0, 0, minItems)
    {
      root, count, height := null, 0, 0;
      var deg := maxItems / 2;
      deg := if deg == 0 then 128 else if deg == 1 then 2 else deg;
      var max := deg * 2 - 1;
      if max > 2045 {
        max := 2045;
      }
      this.maxItems := max;
      this.minItems := max / 2;
      this.heap := heap;
    }

    /** The node capacity for a requested one: odd, at least 3, at most 2045. */
    static function Normalised(maxItems: nat): nat {
      var deg := if maxItems / 2 == 0 then 128 else if maxItems / 2 == 1 then 2 else maxItems / 2;
      if deg * 2 - 1 > 2045 then 2045 else deg * 2 - 1
    }

    /** The fields of the tree match its root. */
    ghost predicate RootOk(s: State<Node, BTree>)
      reads this
    {
      && Params()
      && (root == null <==> this !in s.roots) && (root != null ==> s.roots[this] == root)
      && TreeOk(s, this, count, height, minItems)
    }

    /** btree_node_bsearch */
    method Bsearch(node: Node, key: Buffer) returns (i: nat, found: bool)
      requires Sorted(node.items)
      ensures i == Rank(node.items, key) && found == Has(node.items, key)
    {
      var n := |node.items|;
      i := 0;
      while i < n
        invariant 0 <= i <= n <= |node.items|
        invariant forall j :: 0 <= j < i ==> Less(node.items[j].key, key)
        invariant n < |node.items| ==> Less(key, node.items[n].key)
      {
        var j := (i + n) / 2;
        var cmp := Compare(key, node.items[j].key);
        if cmp == 0 {
          LessIrreflexive(key);
          RankIs(node.items, key, j);
          return j, true;
        } else if cmp < 0 {
          n := j;
        } else {
          forall x | i <= x <= j ensures Less(node.items[x].key, key) {
            if x < j { LessTransitive(node.items[x].key, node.items[j].key, key); }
          }
          i := j + 1;
        }
      }
      if n < |node.items| { LessAsymmetric(key, node.items[n].key); }
      RankIs(node.items, key, i);
      return i, false;
    }

    /** btree_node_copy: the copy shares the children, and each of them counts one more reference. */
    method CopyNode(node: Node) returns (node2: Node)
      requires Distinct(node.children) && node !in node.children
      modifies node.children
      ensures fresh(node2) && node2.rc == 0 && node2.leaf == node.leaf
      ensures node2.items == node.items && node2.children == node.children
      ensures forall c :: c in node.children ==>
        c.rc == old(c.rc) + 1 && c.items == old(c.items) && c.children == old(c.children)
    {
      node2 := new Node(node.leaf);
      node2.children := node.children;
      node2.items := node.items;
      var i := 0;
      while i < |node2.children|
        invariant 0 <= i <= |node.children|
        invariant node2.children == node.children && node2.items == node.items && node2.rc == 0
        invariant forall j :: 0 <= j < i ==> node.children[j].rc == old(node.children[j].rc) + 1
        invariant forall j :: i <= j < |node.children| ==> node.children[j].rc == old(node.children[j].rc)
        invariant forall c :: c in node.children ==> c.items == old(c.items) && c.children == old(c.children)
      {
        node2.children[i].rc := node2.children[i].rc + 1;
        i := i + 1;
      }
    }

    /** The copying branch of btree_cow_node_or on slot i of a node. */
    method CowCopy(node: Node, i: nat) returns (node2: Node)
      requires heap.Agrees() && node in heap.s.g && i < |node.children|
      requires var c := node.children[i];
        && c in heap.s.g && c != node && Distinct(c.children)
        && forall k :: k in c.children ==> k in heap.s.g && k != c && k != node
      modifies heap`s, heap.s.g.Keys
      ensures heap.Agrees() && fresh(node2) && heap.s == Cow(old(heap.s), Parent(node), i, old(node.children[i]), node2)
    {
      ghost var s := heap.s;
      var c := node.children[i];
      node2 := CopyNode(c);
      c.rc := c.rc - 1;
      node.children := node.children[i := node2];
      heap.s := Cow(s, Parent(node), i, c, node2);
      forall n | n in heap.s.g ensures Heap.Holds(n, heap.s.g[n]) {
        assert n != node2 ==> old(Heap.Holds(n, s.g[n]));
      }
    }

    /** btree_cow_node_or on slot i of a node. */
    method CowChild(node: Node, i: nat)
      requires heap.Agrees() && Linked(heap.s) && node in heap.s.g && i < |node.children|
      modifies heap`s, heap.s.g.Keys
      ensures heap.Agrees() && CowStep(old(heap.s), heap.s, node, i)
      ensures forall l: nat :: Faithful(old(heap.s), l) ==> Faithful(heap.s, l)
      ensures OnlyFresh()
    {
      ghost var s := heap.s;
      CowKids(s, node, i);
      if node.children[i].rc > 0 {
        ghost var c := node.children[i];
        var node2 := CowCopy(node, i);
        CowStepOk(s, node, i, c, node2);
      } else {
        CowStepIdle(s, node, i);
      }
    }

    /** Writing the items of one node. */
    method WriteItems(node: Node, items: seq<Entry>, ghost v: Tree)
      requires heap.Agrees() && node in heap.s.g
      modifies heap`s, node`items
      ensures heap.Agrees() && node in old(heap.s.g) && heap.s == SetItems(old(heap.s), node, items, v)
    {
      node.items := items;
      heap.s := SetItems(heap.s, node, items, v);
    }

    /** btree_node_split: node keeps the lower half, right is the upper half. */
    method SplitNode(node: Node) returns (right: Node, median: Entry)
      requires minItems == maxItems / 2 && minItems < |node.items|
      requires !node.leaf ==> |node.children| == |node.items| + 1
      modifies node
      ensures fresh(right) && right.rc == 0 && right.leaf == node.leaf && median == old(node.items[minItems])
      ensures node.rc == old(node.rc)
      ensures node.items == old(node.items[..minItems]) && right.items == old(node.items[minItems + 1..])
      ensures node.leaf ==> node.children == old(node.children) && right.children == []
      ensures !node.leaf ==> node.children == old(node.children[..minItems + 1])
                             && right.children == old(node.children[minItems + 1..])
    {
      right := new Node(node.leaf);
      var mid := maxItems / 2;
      median := node.items[mid];
      right.items := node.items[mid + 1..];
      if !node.leaf {
        right.children := node.children[mid + 1..];
        node.children := node.children[..mid + 1];
      }
      node.items := node.items[..mid];
    }

    /** Splitting child i and hooking the upper half in beside it. */
    method SplitChildAt(node: Node, i: nat) returns (right: Node)
      requires heap.Agrees() && OwnKid(heap.s, node, i) && minItems == maxItems / 2
      requires minItems < |heap.s.g[heap.s.g[node].children[i]].items|
      modifies heap`s, heap.s.g.Keys
      ensures heap.Agrees() && fresh(right) && right !in old(heap.s.g)
      ensures DealPre(old(heap.s), SplitDeal(old(heap.s), node, i, minItems, right))
      ensures heap.s == Redeal(old(heap.s), SplitDeal(old(heap.s), node, i, minItems, right))
    {
      ghost var s := heap.s;
      var child := node.children[i];
      var median;
      right, median := SplitNode(child);
      node.items := node.items[..i] + [median] + node.items[i..];
      node.children := node.children[..i + 1] + [right] + node.children[i + 1..];
      SplitDealOk(s, node, i, minItems, right);
      heap.ApplyDeal(SplitDeal(s, node, i, minItems, right));
    }

    /** New nodes are newly allocated. */
    twostate predicate OnlyFresh()
      reads heap
    {
      forall n :: n in heap.s.g && n !in old(heap.s.g) ==> fresh(n)
    }

    ghost predicate Params() {
      1 <= minItems && maxItems == 2 * minItems + 1
    }

    /** Splitting the full child i of a node that has room. */
    method SplitFull(node: Node, i: nat)
      requires Params() && heap.Agrees() && Ready(heap.s, node, minItems) && OwnKid(heap.s, node, i)
      requires |node.items| < maxItems && |heap.s.g[heap.s.g[node].children[i]].items| == maxItems
      modifies heap`s, heap.s.g.Keys
      ensures heap.Agrees() && SplitPost(old(heap.s), heap.s, node, i, minItems) && OnlyFresh()
    {
      hide Linked, Faithful, Frame, Kept, OwnKid, Shape, Sorted, ChildOutcome, SetOutcome, Flat, CowStep;
      ghost var s := heap.s;
      var right := SplitChildAt(node, i);
      SplitStep(s, node, i, minItems, right);
    }

    /** The part of btree_node_set that ends at this node. */
    method SetHere(node: Node, item: Entry, i: nat, found: bool) returns (r: Mut)
      requires Params() && heap.Agrees() && Ready(heap.s, node, minItems)
      requires i == Rank(node.items, item.key) && found == Has(node.items, item.key) && (found || node.leaf)
      modifies heap`s, node`items
      ensures heap.Agrees() && SetPost(old(heap.s), heap.s, node, minItems, item, r) && OnlyFresh()
    {
      ghost var s, v := heap.s, heap.s.g[node].value;
      ReadyFields(s, node, minItems);
      if found {
        r := MutReplaced(node.items[i]);
        WriteItems(node, node.items[i := item], v.(items := node.items[i := item]));
        SetItemsStep(s, node, node.items, heap.s.g[node].value);
      } else if |node.items| == maxItems {
        r := MutMustSplit;
      } else {
        WriteItems(node, node.items[..i] + [item] + node.items[i..], Leaf(node.items[..i] + [item] + node.items[i..]));
        SetItemsStep(s, node, node.items, heap.s.g[node].value);
        r := MutInserted;
      }
    }

    /** Copy on write of child i and the recursive call on it. */
    method SetChild(node: Node, item: Entry, i: nat) returns (r: Mut)
      requires Params() && heap.Agrees() && Ready(heap.s, node, minItems) && i < |node.children|
      modifies heap`s, heap.s.g.Keys
      ensures heap.Agrees() && SetChildPost(old(heap.s), heap.s, node, i, minItems, item, r) && OnlyFresh()
      decreases heap.s.g[node].level, 0, 0
    {
      hide Linked, Faithful, Frame, Kept, OwnKid, Shape, Sorted, ChildOutcome, SetOutcome, Flat, CowStep;
      ghost var s := heap.s;
      CowChild(node, i);
      ghost var s1 := heap.s;
      CowStepReady(s, s1, node, i, minItems);
      ReadyChild(s1, node, i, minItems);
      r := NodeSet(node.children[i], item);
      ghost var s2 := heap.s;
      SetChildOk(s, s1, s2, node, i, minItems, item, r);
      heap.s := Refresh(s1, s2, node, i, s1.g[node].items);
    }

    /** btree_node_set */
    method NodeSet(node: Node, item: Entry) returns (r: Mut)
      requires Params() && heap.Agrees() && Ready(heap.s, node, minItems)
      modifies heap`s, heap.s.g.Keys
      ensures heap.Agrees() && SetPost(old(heap.s), heap.s, node, minItems, item, r) && OnlyFresh()
      decreases heap.s.g[node].level, maxItems + 1 - |node.items|, 1
    {
      hide Linked, Faithful, Frame, Kept, OwnKid, Shape, ChildOutcome, SetOutcome, Flat, DownOk, ValueOk, SetNode;
      ghost var s := heap.s;
      ReadyFields(s, node, minItems);
      var i, found := Bsearch(node, item.key);
      if found || node.leaf {
        r := SetHere(node, item, i, found);
        return;
      }
      r := SetChild(node, item, i);
      ghost var s1 := heap.s;
      if !r.MutMustSplit? || |node.items| == maxItems {
        SetChildDone(s, s1, node, i, minItems, item, r);
        return;
      }
      SetChildSplit(s, s1, node, i, minItems, item, r);
      SplitFull(node, i);
      ghost var s2 := heap.s;
      r := NodeSet(node, item);
      SetRetry(s, s1, s2, heap.s, node, i, minItems, item, r);
    }

    /** The merging branch of btree_node_rebalance. */
    method MergePair(node: Node, i: nat)
      requires heap.Agrees() && OwnPair(heap.s, node, i)
      modifies heap`s, heap.s.g.Keys
      ensures heap.Agrees() && DealPre(old(heap.s), MergeDeal(old(heap.s), node, i))
      ensures heap.s == Redeal(old(heap.s), MergeDeal(old(heap.s), node, i))
    {
      hide DealPre, Redeal, DownOk, ValueOk;
      ghost var s := heap.s;
      PairFacts(s, node, i);
      MergeDealOk(s, node, i);
      var left, right := node.children[i], node.children[i + 1];
      left.items := left.items + [node.items[i]] + right.items;
      if !left.leaf {
        left.children := left.children + right.children;
      }
      node.items := node.items[..i] + node.items[i + 1..];
      node.children := node.children[..i + 1] + node.children[i + 2..];
      heap.ApplyDeal(MergeDeal(s, node, i));
    }

    /** The branch that moves an item from the left sibling to the right one. */
    method MoveRight(node: Node, i: nat)
      requires heap.Agrees() && OwnPair(heap.s, node, i) && heap.s.g[heap.s.g[node].children[i]].items != []
      modifies heap`s, heap.s.g.Keys
      ensures heap.Agrees() && DealPre(old(heap.s), RightDeal(old(heap.s), node, i))
      ensures heap.s == Redeal(old(heap.s), RightDeal(old(heap.s), node, i))
    {
      hide DealPre, Redeal, DownOk, ValueOk;
      ghost var s := heap.s;
      PairFacts(s, node, i);
      RightDealOk(s, node, i);
      var left, right := node.children[i], node.children[i + 1];
      right.items := [node.items[i]] + right.items;
      if !left.leaf {
        right.children := [left.children[|left.items|]] + right.children;
        left.children := left.children[..|left.items|];
      }
      node.items := node.items[i := left.items[|left.items| - 1]];
      left.items := left.items[..|left.items| - 1];
      heap.ApplyDeal(RightDeal(s, node, i));
    }

    /** The branch that moves an item from the right sibling to the left one. */
    method MoveLeft(node: Node, i: nat)
      requires heap.Agrees() && OwnPair(heap.s, node, i) && heap.s.g[heap.s.g[node].children[i + 1]].items != []
      modifies heap`s, heap.s.g.Keys
      ensures heap.Agrees() && DealPre(old(heap.s), LeftDeal(old(heap.s), node, i))
      ensures heap.s == Redeal(old(heap.s), LeftDeal(old(heap.s), node, i))
    {
      hide DealPre, Redeal, DownOk, ValueOk;
      ghost var s := heap.s;
      PairFacts(s, node, i);
      LeftDealOk(s, node, i);
      var left, right := node.children[i], node.children[i + 1];
      left.items := left.items + [node.items[i]];
      if !left.leaf {
        left.children := left.children + [right.children[0]];
        right.children := right.children[1..];
      }
      node.items := node.items[i := right.items[0]];
      right.items := right.items[1..];
      heap.ApplyDeal(LeftDeal(s, node, i));
    }

    /** btree_node_rebalance: merge child k with a sibling, or move one item between them. */
    method Rebalance(node: Node, k: nat)
      requires Params() && heap.Agrees() && node in heap.s.g && 1 <= |node.items| && k <= |node.items|
      requires Linked(heap.s) && Faithful(heap.s, heap.s.g[node].level)
      requires OwnPair(heap.s, node, if k == |node.items| then k - 1 else k)
      modifies heap`s, heap.s.g.Keys
      ensures heap.Agrees() && RebalancePost(old(heap.s), heap.s, node, k, minItems) && OnlyFresh()
    {
      hide DealPre, Redeal, DownOk, ValueOk, Linked, Faithful;
      ghost var s := heap.s;
      var i := if k == |node.items| then k - 1 else k;
      PairFacts(s, node, i);
      RebalanceStep(s, node, k, minItems);
      var left, right := node.children[i], node.children[i + 1];
      assert Heap.Holds(left, s.g[left]) && Heap.Holds(right, s.g[right]);
      if |left.items| + |right.items| < maxItems {
        MergePair(node, i);
      } else if |left.items| > |right.items| {
        MoveRight(node, i);
      } else {
        MoveLeft(node, i);
      }
      DealFields(s, RebalanceDeal(s, node, i, minItems));
    }

    /** Where btree_node_delete goes at this node. */
    method FindTarget(node: Node, act: Act) returns (i: nat, found: bool)
      requires Sorted(node.items) && 1 <= |node.items| && heap.Agrees() && node in heap.s.g
      requires heap.s.g[node].value.items == node.items && heap.s.g[node].value.Leaf? == node.leaf
      ensures (i as int, found) == Target(heap.s.g[node].value, act)
    {
      match act {
        case DelKey(key) =>
          i, found := Bsearch(node, key);
        case PopMax =>
          i, found := |node.items| - 1, true;
        case PopFront =>
          i, found := 0, node.leaf;
        case PopBack =>
          if !node.leaf {
            i, found := |node.items|, false;
          } else {
            i, found := |node.items| - 1, true;
          }
      }
    }

    /** The part of btree_node_delete that ends at a leaf. */
    method DeleteHere(node: Node, act: Act, i: nat, found: bool) returns (r: Mut)
      requires Params() && heap.Agrees() && Ready(heap.s, node, minItems) && node.leaf
      requires (i as int, found) == Target(heap.s.g[node].value, act)
      modifies heap`s, node`items
      ensures heap.Agrees() && DelPost(old(heap.s), heap.s, node, minItems, act, r) && OnlyFresh()
    {
      ghost var s := heap.s;
      ReadyFields(s, node, minItems);
      if found {
        r := MutDeleted(node.items[i]);
        WriteItems(node, node.items[..i] + node.items[i + 1..], Leaf(node.items[..i] + node.items[i + 1..]));
        SetItemsStep(s, node, node.items, heap.s.g[node].value);
      } else {
        r := MutNoChange;
      }
    }

    /** Copy on write of child i and of the sibling that rebalancing may need. */
    method CowPair(node: Node, i: nat)
      requires heap.Agrees() && Ready(heap.s, node, minItems) && !node.leaf && i <= |node.items|
      modifies heap`s, heap.s.g.Keys
      ensures heap.Agrees() && PairReady(old(heap.s), heap.s, node, i, minItems) && OnlyFresh()
    {
      hide Linked, Faithful, Frame, DownOk, ValueOk, Shape, Flat;
      ghost var s := heap.s;
      ReadyFields(s, node, minItems);
      CowChild(node, i);
      ghost var s1 := heap.s;
      CowStepReady(s, s1, node, i, minItems);
      ReadyFields(s1, node, minItems);
      CowChild(node, Sibling(i, |node.items|));
      PairReadyOk(s, s1, heap.s, node, i, minItems);
    }

    /** The recursive call on the child, and the item of this node that it replaces. */
    method DeleteChild(node: Node, act: Act, i: nat, found: bool) returns (r: Mut)
      requires Params() && heap.Agrees() && Ready(heap.s, node, minItems) && !node.leaf
      requires (i as int, found) == Target(heap.s.g[node].value, act)
      modifies heap`s, heap.s.g.Keys
      ensures heap.Agrees() && node in old(heap.s.g) && OnlyFresh()
      ensures DelChildPost(old(heap.s), heap.s, node, Descends(old(heap.s.g[node].value), act), minItems, act, r)
      decreases heap.s.g[node].level, 0
    {
      hide Linked, Faithful, Frame, DownOk, ValueOk, Shape, Flat;
      hide OwnKid, Kept, Sorted, DelNode, DelOutcome, DelChildOutcome, DelChildPost;
      ghost var s, v := heap.s, heap.s.g[node].value;
      ReadyFields(s, node, minItems);
      var down := if found && act.PopMax? then i + 1 else i;
      CowPair(node, down);
      ghost var s1 := heap.s;
      ReadyChild(s1, node, down, minItems);
      ChildItems(s1, node, down);
      r := NodeDelete(node.children[down], if found then PopMax else act);
      ghost var s2 := heap.s;
      DelChildOk(s, s1, s2, node, minItems, act, r);
      var items := if found && !act.PopMax? && r.MutDeleted? then node.items[i := r.was] else node.items;
      ghost var u := Refresh(s1, s2, node, down, ItemsAfter(s1.g[node].items, act, r));
      WriteItems(node, items, u.g[node].value);
    }

    /** btree_node_delete */
    method NodeDelete(node: Node, act: Act) returns (r: Mut)
      requires Params() && heap.Agrees() && Ready(heap.s, node, minItems)
      modifies heap`s, heap.s.g.Keys
      ensures heap.Agrees() && DelPost(old(heap.s), heap.s, node, minItems, act, r) && OnlyFresh()
      decreases heap.s.g[node].level, 1
    {
      hide Linked, Faithful, Frame, DownOk, ValueOk, Shape, Flat, OwnKid, DelNode, DelOutcome, DelChildOutcome, Sorted;
      ghost var s := heap.s;
      ReadyFields(s, node, minItems);
      var i, found := FindTarget(node, act);
      if node.leaf {
        r := DeleteHere(node, act, i, found);
        return;
      }
      var prev := if found && !act.PopMax? then Some(node.items[i]) else None;
      var down := if found && act.PopMax? then i + 1 else i;
      r := DeleteChild(node, act, i, found);
      ghost var s1 := heap.s;
      if !r.MutDeleted? {
        DelNothing(s, s1, node, down, minItems, act, r);
        return;
      }
      ghost var r0 := r;
      if prev.Some? {
        r := MutDeleted(prev.value);
      }
      ChildItems(s1, node, down);
      assert Heap.Holds(node.children[down], s1.g[node.children[down]]);
      if |node.children[down].items| < minItems {
        DelPair(s, s1, node, minItems, act, r0);
        Rebalance(node, down);
        DelRebalanced(s, s1, heap.s, node, minItems, act, r0);
      } else {
        DelEnough(s, s1, node, minItems, act, r0);
      }
    }

    // -------------------------------------------------------------- whole trees

    /** The ordered contents. */
    ghost function Items(): seq<Entry>
      reads this, heap
    {
      Contents(heap.s, this)
    }

    /** Nothing but this tree has changed for its users. */
    twostate predicate OnlyThis()
      reads heap, heap.trees
    {
      && heap.trees == old(heap.trees)
      && forall b :: b in heap.trees && b != this ==>
         b.root == old(b.root) && b.count == old(b.count) && b.height == old(b.height)
         && Contents(heap.s, b) == old(Contents(heap.s, b))
    }

    /** A step for this tree keeps the shared memory in order. */
    twostate lemma StepOk()
      requires old(heap.Ok()) && heap.Agrees() && TreeStep(old(heap.s), heap.s, this)
      requires heap.trees == old(heap.trees) && this in heap.trees && RootOk(heap.s)
      requires forall b :: b in heap.trees && b != this ==> unchanged(b)
      ensures heap.Ok() && OnlyThis()
    {
      hide Linked, AllFaithful, TreeOk, Contents, Others;
      forall b | b in heap.trees && b != this
        ensures b.RootOk(heap.s) && Contents(heap.s, b) == old(Contents(heap.s, b))
      {
        assert old(b.RootOk(heap.s));
        OtherTree(old(heap.s), heap.s, this, b, b.count, b.height, b.minItems);
        SameRoots(old(heap.s), heap.s, this, b);
      }
      NewRoots(old(heap.s), heap.s, this);
    }

    /** The copying branch of btree_cow_node_or on the root. */
    method CowRootCopy() returns (ghost c: Node)
      requires heap.Agrees() && root != null && root in heap.s.g
      requires Distinct(root.children) && forall k :: k in root.children ==> k in heap.s.g && k != root
      modifies this`root, heap`s, heap.s.g.Keys
      ensures heap.Agrees() && root != null && fresh(root) && c == old(root) && c in old(heap.s.g)
      ensures heap.s == Cow(old(heap.s), Holder(this), 0, c, root)
    {
      ghost var s := heap.s;
      var old_ := root;
      c := old_;
      var node2 := CopyNode(old_);
      old_.rc := old_.rc - 1;
      root := node2;
      heap.s := Cow(s, Holder(this), 0, old_, node2);
      forall n | n in heap.s.g ensures Heap.Holds(n, heap.s.g[n]) {
        assert n != node2 ==> old(Heap.Holds(n, s.g[n]));
      }
    }

    /** btree_cow_node_or on the root. */
    method CowRoot()
      requires heap.Agrees() && Linked(heap.s) && AllFaithful(heap.s) && root != null
      requires this in heap.s.roots && heap.s.roots[this] == root && root in heap.s.g
      modifies this`root, heap`s, heap.s.g.Keys
      ensures heap.Agrees() && root != null && OwnRoot(heap.s, this) && heap.s.roots[this] == root
      ensures TreeStep(old(heap.s), heap.s, this) && root in heap.s.g && old(root) in old(heap.s.g)
      ensures SameFields(old(heap.s.g[root]), heap.s.g[root]) && OnlyFresh()
    {
      hide DownOk, UpOk, ValueOk;
      ghost var s := heap.s;
      CowRootKids(s, root);
      if root.rc > 0 {
        ghost var c := CowRootCopy();
        CowRootStep(s, this, root);
      } else {
        RootUnshared(s, this);
        StayStep(s, this);
      }
    }

    /** In the middle of an operation: the root is unshared and everything is in order. */
    ghost predicate Working()
      reads this, heap, heap.s.g.Keys
    {
      && Params() && heap.Agrees() && Linked(heap.s) && AllFaithful(heap.s)
      && root != null && OwnRoot(heap.s, this) && heap.s.roots[this] == root
      && TreeOk(heap.s, this, count, height, minItems)
    }

    /** The objects of a root split: the root becomes the left child of a new root. */
    method SplitRootObjects() returns (newRoot: Node, right: Node)
      requires root != null && minItems == maxItems / 2 && minItems < |root.items|
      requires root.leaf ==> root.children == []
      requires !root.leaf ==> |root.children| == |root.items| + 1
      modifies this`root, this`height, root
      ensures var c := old(root);
        && fresh(newRoot) && fresh(right) && newRoot != right && root == newRoot && height == old(height) + 1
        && c.rc == old(c.rc) && c.items == old(c.items[..minItems])
        && c.children == (if c.leaf then [] else old(c.children[..minItems + 1]))
        && newRoot.rc == 0 && !newRoot.leaf && newRoot.items == [old(c.items[minItems])]
        && newRoot.children == [c, right]
        && right.rc == 0 && right.leaf == c.leaf && right.items == old(c.items[minItems + 1..])
        && right.children == if c.leaf then [] else old(c.children[minItems + 1..])
    {
      var oldRoot := root;
      newRoot := new Node(false);
      var median;
      right, median := SplitNode(oldRoot);
      root := newRoot;
      root.children := [oldRoot, right];
      root.items := [median];
      height := height + 1;
    }

    /** The full root becomes the left child of a new root. */
    method SplitRootNode()
      requires Working() && |root.items| == maxItems
      modifies this`root, this`height, heap`s, heap.s.g.Keys
      ensures Working() && |root.items| == 1 && height == old(height) + 1 && OnlyFresh()
      ensures TreeStep(old(heap.s), heap.s, this) && Items() == old(Items())
    {
      hide Linked, AllFaithful, DealPre, DownOk, UpOk, ValueOk;
      hide Contents, TreeOk, Others, OwnKid, SplitRoot, SplitDeal, Grow;
      ghost var s, c, h := heap.s, root, height;
      NodeFields(s, root);
      var newRoot, right := SplitRootObjects();
      SplitRootTree(s, this, newRoot, right, count, h, minItems);
      heap.ApplySplitRoot(this, newRoot, right, c);
    }

    /** Whether a set of key k raises the height: a tree without root, or a full path to an absent key. */
    ghost predicate Grows(k: Buffer)
      reads this, heap
    {
      this !in heap.s.roots
      || (heap.s.roots[this] in heap.s.g && PathFull(heap.s.g[heap.s.roots[this]].value, k, minItems))
    }

    /** The first entry of an empty tree. */
    method PlantRoot(item: Entry)
      requires heap.Ok() && this in heap.trees && root == null
      modifies this`root, this`count, this`height, heap`s
      ensures heap.Ok() && OnlyThis() && OnlyFresh()
      ensures Items() == [item] && count == 1 && height == 1 && Quiet(old(heap.s), heap.s)
    {
      hide Linked, AllFaithful, Contents, TreeOk, Others;
      ghost var s := heap.s;
      var node := new Node(true);
      node.items := [item];
      root := node;
      count := count + 1;
      height := height + 1;
      heap.s := Plant(s, this, node, item);
      PlantStep(s, this, node, item);
      PlantOk(s, this, node, item, minItems);
      EmptyTree(s, this, old(count), old(height), minItems);
      StepOk();
    }

    /** The entry a set of key k hands back. */
    static function Previous(s: seq<Entry>, k: Buffer): Option<Entry> {
      if Has(s, k) then Some(s[Rank(s, k)]) else None
    }

    /** Making the root unshared. */
    method Begin()
      requires heap.Ok() && this in heap.trees && root != null
      modifies this`root, heap`s, heap.s.g.Keys
      ensures Working() && TreeStep(old(heap.s), heap.s, this) && OnlyFresh()
      ensures heap.Ok() && OnlyThis() && Items() == old(Items())
      ensures this in old(heap.s.roots) && old(heap.s.roots[this]) in old(heap.s.g)
      ensures heap.s.g[root].value == old(heap.s.g[heap.s.roots[this]].value)
    {
      hide Linked, AllFaithful, Others;
      CowRoot();
      StepOk();
    }

    /** One call of btree_node_set on the root, and the count. */
    method SetAtRoot(item: Entry) returns (r: Mut)
      requires Working()
      modifies this`count, heap`s, heap.s.g.Keys
      ensures Working() && TreeStep(old(heap.s), heap.s, this) && OnlyFresh() && root == old(root)
      ensures root in old(heap.s.g) && (r.MutMustSplit? <==> PathFull(old(heap.s.g[root].value), item.key, minItems))
      ensures r.MutMustSplit? ==> |root.items| == maxItems && |old(root.items)| == maxItems
                                  && Items() == old(Items()) && !Has(old(Items()), item.key)
      ensures !r.MutMustSplit? ==> Items() == Put(old(Items()), item)
                                   && (r.MutInserted? || r.MutReplaced?)
      ensures r.MutInserted? ==> !Has(old(Items()), item.key)
      ensures r.MutReplaced? ==> Previous(old(Items()), item.key) == Some(r.was)
    {
      hide Linked, AllFaithful, Frame, Faithful, SetNode, Others, Flat, Shape, PathFull;
      ghost var s := heap.s;
      RootReady(s, this, count, height, minItems);
      RootFields(s, this);
      MustSplitIff(s.g[root].value, item, minItems, height);
      r := NodeSet(root, item);
      RootStep(s, heap.s, this);
      SetTreeOk(s, heap.s, this, count, height, minItems, item, r);
      RootFields(heap.s, this);
      if r.MutInserted? {
        count := count + 1;
      }
    }

    /** The retry loop of btree_set0: a full root is split and the call repeated. */
    method SetLoop(item: Entry) returns (r: Mut)
      requires Working()
      modifies this`root, this`count, this`height, heap`s, heap.s.g.Keys
      ensures Working() && TreeStep(old(heap.s), heap.s, this) && OnlyFresh()
      ensures Items() == Put(old(Items()), item) && (r.MutInserted? || r.MutReplaced?)
      ensures r.MutInserted? ==> !Has(old(Items()), item.key)
      ensures r.MutReplaced? ==> Previous(old(Items()), item.key) == Some(r.was)
      ensures old(root) in old(heap.s.g)
      ensures height == old(height) + if PathFull(old(heap.s.g[root].value), item.key, minItems) then 1 else 0
    {
      hide Linked, AllFaithful, Others, Contents, TreeOk, PathFull, TreeStep, OwnRoot;
      ghost var s := heap.s;
      r := SetAtRoot(item);
      while r.MutMustSplit?
        invariant Working() && TreeStep(s, heap.s, this) && OnlyFresh()
        invariant r.MutMustSplit? ==> height == old(height) && |root.items| == maxItems && Items() == old(Items())
                                      && PathFull(old(heap.s.g[root].value), item.key, minItems)
        invariant !r.MutMustSplit? ==>
          && Items() == Put(old(Items()), item) && (r.MutInserted? || r.MutReplaced?)
          && height == old(height) + if PathFull(old(heap.s.g[root].value), item.key, minItems) then 1 else 0
        invariant r.MutInserted? ==> !Has(old(Items()), item.key)
        invariant r.MutReplaced? ==> Previous(old(Items()), item.key) == Some(r.was)
        decreases if r.MutMustSplit? then 1 else 0
      {
        ghost var s2 := heap.s;
        SplitRootNode();
        ghost var s3 := heap.s;
        TreeStepTrans(s, s2, s3, this);
        r := SetAtRoot(item);
        TreeStepTrans(s, s3, heap.s, this);
      }
    }

    /** udx_btree_set: insert the item, or replace the one with its key. */
    method Set(item: Entry) returns (prev: Option<Entry>)
      requires heap.Ok() && this in heap.trees
      modifies this`root, this`count, this`height, heap`s, heap.s.g.Keys
      ensures heap.Ok() && OnlyThis() && OnlyFresh()
      ensures Items() == Put(old(Items()), item)
      ensures prev == Previous(old(Items()), item.key)
      ensures height == old(height) + if old(Grows(item.key)) then 1 else 0
      ensures Quiet(old(heap.s), heap.s)
    {
      hide Linked, AllFaithful, Others, Contents, TreeOk, PathFull, Apart, Quiet;
      ghost var s := heap.s;
      if root == null {
        EmptyTree(s, this, count, height, minItems);
        PlantRoot(item);
        return None;
      }
      Begin();
      ghost var s1 := heap.s;
      var r := SetLoop(item);
      TreeStepTrans(s, s1, heap.s, this);
      StepOk();
      prev := if r.MutReplaced? then Some(r.was) else None;
    }

    /** btree_node_delete on the root, and the count. */
    method DeleteAtRoot(act: Act) returns (r: Mut)
      requires Working()
      modifies this`count, heap`s, heap.s.g.Keys
      ensures Params() && heap.Agrees() && Linked(heap.s) && AllFaithful(heap.s) && OnlyFresh()
      ensures root != null && root == old(root) && OwnRoot(heap.s, this) && heap.s.roots[this] == root
      ensures TreeStep(old(heap.s), heap.s, this)
      ensures old(root) in old(heap.s.g) && height >= 1 && Shape(old(heap.s.g[root].value), height, 1, minItems)
      ensures var c, p := old(Items()), Victim(old(Items()), act);
        if p.None? then r.MutNoChange? && Working() && Items() == c
        else && p.value < |c| && r == MutDeleted(c[p.value]) && Items() == Without(c, p.value)
             && Sorted(Items()) && |Items()| == count
             && heap.s.g[root].level == height && Shape(heap.s.g[root].value, height, 0, minItems)
             && heap.s.g[root].value.items == root.items
             && DelNode(old(heap.s.g[root].value), act, minItems, height).Deleted?
             && root.items == DelNode(old(heap.s.g[root].value), act, minItems, height).tree.items
             && (root.items != [] ==> TreeOk(heap.s, this, count, height, minItems))
    {
      hide Linked, AllFaithful, Frame, Faithful, DelNode, Others, Flat;
      ghost var s := heap.s;
      RootReady(s, this, count, height, minItems);
      RootFields(s, this);
      r := NodeDelete(root, act);
      RootStep(s, heap.s, this);
      DelTreeOk(s, heap.s, this, count, height, minItems, act, r);
      RootFields(heap.s, this);
      if r.MutDeleted? {
        count := count - 1;
      }
    }

    /** An empty root gives way to its only child, or to an empty tree. */
    method DropRoot()
      requires Params() && heap.Agrees() && Linked(heap.s) && AllFaithful(heap.s)
      requires root != null && OwnRoot(heap.s, this) && heap.s.roots[this] == root && root.items == []
      requires Sorted(Items()) && |Items()| == count
      requires heap.s.g[root].level == height && 1 <= height && Shape(heap.s.g[root].value, height, 0, minItems)
      modifies this`root, this`height, heap`s
      ensures heap.Agrees() && TreeStep(old(heap.s), heap.s, this) && RootOk(heap.s)
      ensures Items() == old(Items()) && height == old(height) - 1 && OnlyFresh()
    {
      hide Linked, AllFaithful, Others, Flat, Sorted;
      ghost var s := heap.s;
      RootFields(s, this);
      NodeFields(s, root);
      if !root.leaf {
        CollapseStep(s, this);
        CollapseOk(s, this, count, height, minItems);
        root := root.children[0];
        heap.s := Collapse(s, this);
      } else {
        UprootStep(s, this);
        UprootOk(s, this, count, height, minItems);
        root := null;
        heap.s := Uproot(s, this);
      }
      height := height - 1;
    }

    /** Whether removing by act empties the root node. */
    ghost predicate Empties(act: Act)
      reads this, heap
    {
      && 1 <= minItems && this in heap.s.roots && heap.s.roots[this] in heap.s.g
      && var v := heap.s.g[heap.s.roots[this]].value;
         && Shape(v, height, 1, minItems)
         && DelNode(v, act, minItems, height).Deleted? && DelNode(v, act, minItems, height).tree.items == []
    }

    /** The outcome of a removal for the contents, the entry handed back and the height. */
    static ghost predicate Removal(c: seq<Entry>, c': seq<Entry>, act: Act, prev: Option<Entry>) {
      if c == [] || Victim(c, act).None? then prev == None && c' == c
      else prev == Some(c[Victim(c, act).value]) && c' == Without(c, Victim(c, act).value)
    }

    /** btree_delete0 on an unshared root. */
    method DeleteWork(act: Act) returns (prev: Option<Entry>)
      requires Working()
      modifies this`root, this`count, this`height, heap`s, heap.s.g.Keys
      ensures heap.Agrees() && TreeStep(old(heap.s), heap.s, this) && RootOk(heap.s) && OnlyFresh()
      ensures Removal(old(Items()), Items(), act, prev)
      ensures old(root) in old(heap.s.g) && old(height) >= 1
      ensures Shape(old(heap.s.g[root].value), old(height), 1, minItems)
      ensures var d := DelNode(old(heap.s.g[root].value), act, minItems, old(height));
        height == old(height) - if prev.Some? && d.Deleted? && d.tree.items == [] then 1 else 0
    {
      hide Linked, AllFaithful, Others, Contents, TreeOk, Flat, Shape, DelNode, Frame, TreeStep;
      ghost var s := heap.s;
      var r := DeleteAtRoot(act);
      ghost var s2 := heap.s;
      if r.MutNoChange? {
        return None;
      }
      if |root.items| == 0 {
        DropRoot();
        TreeStepTrans(s, s2, heap.s, this);
      }
      prev := Some(r.was);
    }

    /** btree_delete0: remove the named, the least or the greatest entry. */
    method Delete0(act: Act) returns (prev: Option<Entry>)
      requires heap.Ok() && this in heap.trees
      modifies this`root, this`count, this`height, heap`s, heap.s.g.Keys
      ensures heap.Ok() && OnlyThis() && OnlyFresh()
      ensures Removal(old(Items()), Items(), act, prev)
      ensures height == old(height) - if prev.Some? && old(Empties(act)) then 1 else 0
    {
      hide Linked, AllFaithful, Others, Contents, TreeOk, Flat, Shape, DelNode, Frame, TreeStep;
      ghost var s := heap.s;
      if root == null {
        EmptyTree(s, this, count, height, minItems);
        StayStep(s, this);
        return None;
      }
      Begin();
      ghost var s1 := heap.s;
      prev := DeleteWork(act);
      TreeStepTrans(s, s1, heap.s, this);
      StepOk();
    }

    // -------------------------------------------------------------- lookup and clone

    /** udx_btree_get */
    method Get(key: Buffer) returns (r: Option<Entry>)
      requires heap.Ok() && this in heap.trees
      ensures r == Previous(Items(), key)
    {
      hide KeyAt;
      var node, i := Find(key);
      r := if node == null then None else Some(node.items[i]);
    }

    /** btree_get0, for udx_btree_get_mut as well: a pointer to the stored item, as its node and index. */
    method Find(key: Buffer) returns (node: Node?, i: nat)
      requires heap.Ok() && this in heap.trees
      ensures node == null <==> !Has(Items(), key)
      ensures node != null ==>
        && node in heap.s.g && KeyAt(node, key) && i == Rank(node.items, key) < |node.items|
        && node.items[i] == Items()[Rank(Items(), key)]
    {
      hide Linked, Faithful, Shape, Flat, AllFaithful;
      if root == null {
        EmptyTree(heap.s, this, count, height, minItems);
        return null, 0;
      }
      node := root;
      RootReady(heap.s, this, count, height, minItems);
      while true
        invariant node != null && node in heap.s.g && Ready(heap.s, node, minItems)
        invariant Previous(Items(), key) == Previous(Flat(heap.s.g[node].value), key)
        invariant Has(Items(), key) ==> Has(Flat(heap.s.g[node].value), key)
                                        && KeyNode(heap.s, root, minItems, key) == KeyNode(heap.s, node, minItems, key)
        decreases heap.s.g[node].level
      {
        ReadyFields(heap.s, node, minItems);
        ghost var v := heap.s.g[node].value;
        var found;
        i, found := Bsearch(node, key);
        if found {
          FoundHere(v, key);
          ItemAt(v, i);
          return;
        }
        if node.leaf {
          LeafFlat(v);
          return null, 0;
        }
        GetBelow(v, key, i);
        ReadyDown(heap.s, node, i, minItems);
        node := node.children[i];
      }
    }

    /** Writing through the pointer of udx_btree_get_mut. No other tree notices where no node is shared. */
    method WriteMut(node: Node, i: nat, item: Entry)
      requires heap.Ok() && this in heap.trees && Alone(heap.s)
      requires KeyAt(node, item.key) && i == Rank(node.items, item.key) < |node.items|
      modifies node`items, heap`s
      ensures heap.Ok() && OnlyThis() && OnlyFresh() && Alone(heap.s)
      ensures Items() == Put(old(Items()), item)
    {
      hide Linked, AllFaithful, Frame, Faithful, Flat, Shape, Others, Sorted, KeyNode;
      ghost var s, p := heap.s, heap.s.roots[this];
      assert Heap.Holds(node, s.g[node]);
      RootUnshared(s, this);
      ghost var u, was := WriteInPlace(s, p, minItems, item);
      node.items := node.items[i := item];
      forall n | n in u.g ensures Heap.Holds(n, u.g[n]) { assert old(Heap.Holds(n, s.g[n])); }
      heap.s := u;
      RootStep(s, u, this);
      SetTreeOk(s, u, this, count, height, minItems, item, MutReplaced(was));
      StepOk();
    }

    /** node is the one that has key k in this tree. */
    ghost predicate KeyAt(node: Node, k: Buffer)
      reads this, heap
    {
      && Has(Items(), k) && this in heap.s.roots && heap.s.roots[this] in heap.s.g
      && Ready(heap.s, heap.s.roots[this], minItems)
      && Contents(heap.s, this) == Flat(heap.s.g[heap.s.roots[this]].value)
      && node == KeyNode(heap.s, heap.s.roots[this], minItems, k)
    }

    constructor CopyOf(other: BTree)
      ensures root == other.root && count == other.count && height == other.height
      ensures maxItems == other.maxItems && minItems == other.minItems && heap == other.heap
    {
      root, count, height := other.root, other.count, other.height;
      maxItems, minItems, heap := other.maxItems, other.minItems, other.heap;
    }

    /** udx_btree_clone: the clone shares every node. */
    method Clone() returns (btree2: BTree)
      requires heap.Ok() && this in heap.trees
      modifies heap, heap.s.g.Keys
      ensures fresh(btree2) && btree2.heap == heap && heap.trees == old(heap.trees) + {btree2} && heap.Ok()
      ensures btree2.Items() == Items() == old(Items())
      ensures heap.s.g.Keys == old(heap.s.g.Keys)
      ensures forall b :: b in old(heap.trees) ==>
        b.root == old(b.root) && b.count == old(b.count) && b.height == old(b.height)
        && Contents(heap.s, b) == old(Contents(heap.s, b))
    {
      hide Linked, AllFaithful, TreeOk, Contents, Others;
      ghost var s := heap.s;
      btree2 := new BTree.CopyOf(this);
      if btree2.root != null {
        RootIn(s, this);
        btree2.root.rc := btree2.root.rc + 1;
        heap.s := Share(s, this, btree2);
        ShareStep(s, this, btree2);
        ShareOk(s, this, btree2, count, height, minItems);
      } else {
        StayStep(s, btree2);
        EmptyOk(s, this, btree2, count, height, minItems);
      }
      heap.trees := heap.trees + {btree2};
      forall b | b in old(heap.trees)
        ensures b.RootOk(heap.s) && Contents(heap.s, b) == old(Contents(heap.s, b))
      {
        assert old(b.RootOk(heap.s));
        OtherTree(s, heap.s, btree2, b, b.count, b.height, b.minItems);
        SameRoots(s, heap.s, btree2, b);
      }
      NewRoots(s, heap.s, btree2);
    }

    // -------------------------------------------------------------- pop and load

    /** path leads to the outermost leaf. */
    ghost predicate AtEdge(leaf: Node, path: seq<Node>, last: bool)
      reads this, heap, leaf
    {
      && path != [] && EdgePath(heap.s, path, last) && path[0] == root && path[|path| - 1] == leaf
      && leaf in heap.s.g && leaf.leaf && 1 <= |leaf.items| <= maxItems && (|path| > 1 ==> minItems <= |leaf.items|)
    }

    /** One step down: copy on write of the outermost child. */
    method DescendOne(node: Node, ghost path: seq<Node>, last: bool) returns (child: Node, ghost path': seq<Node>)
      requires Working() && path != [] && EdgePath(heap.s, path, last) && path[0] == root && path[|path| - 1] == node
      requires Ready(heap.s, node, minItems) && !node.leaf
      modifies heap`s, heap.s.g.Keys
      ensures Working() && TreeStep(old(heap.s), heap.s, this) && OnlyFresh() && Items() == old(Items())
      ensures path' != [] && EdgePath(heap.s, path', last) && path'[0] == root && path'[|path'| - 1] == child
      ensures node in old(heap.s.g) && child in heap.s.g && Ready(heap.s, child, minItems)
      ensures heap.s.g[child].level < old(heap.s.g[node].level)
    {
      hide Linked, AllFaithful, Faithful, Frame, Others, Contents, EdgePath;
      ghost var s := heap.s;
      ReadyFields(s, node, minItems);
      EdgeTop(s, path, last);
      var slot := if last then |node.items| else 0;
      CowChild(node, slot);
      CowDeep(s, heap.s, this, node, slot, count, height, minItems);
      EdgeExtend(s, heap.s, path, last, minItems);
      CowStepReady(s, heap.s, node, slot, minItems);
      ReadyChild(heap.s, node, slot, minItems);
      ChildItems(heap.s, node, slot);
      child := node.children[slot];
      path' := path + [child];
    }

    /** Down to the first or the last leaf, unsharing every node on the way. */
    method DescendEdge(last: bool) returns (leaf: Node, ghost path: seq<Node>)
      requires Working()
      modifies heap`s, heap.s.g.Keys
      ensures Working() && TreeStep(old(heap.s), heap.s, this) && OnlyFresh() && Items() == old(Items())
      ensures AtEdge(leaf, path, last)
    {
      hide Linked, AllFaithful, Faithful, Frame, Others, TreeOk, Contents, EdgePath, CowStep, OwnRoot;
      ghost var s := heap.s;
      StayStep(s, this);
      RootStart(s, this, count, height, minItems);
      leaf := root;
      path := [root];
      EdgeStart(s, root, last);
      while !leaf.leaf
        invariant Working() && TreeStep(s, heap.s, this) && OnlyFresh() && Items() == old(Items())
        invariant path != [] && EdgePath(heap.s, path, last) && path[0] == root && path[|path| - 1] == leaf
        invariant Ready(heap.s, leaf, minItems) && leaf in heap.s.g
        decreases heap.s.g[leaf].level
      {
        ghost var s1 := heap.s;
        leaf, path := DescendOne(leaf, path, last);
        TreeStepTrans(s, s1, heap.s, this);
      }
      LeafBound(heap.s, this, path, last, count, height, minItems);
    }

    /** Writing new items into the outermost leaf. */
    method WriteEdge(leaf: Node, ghost path: seq<Node>, last: bool, items: seq<Entry>)
      requires Working() && AtEdge(leaf, path, last)
      requires 1 <= |items| <= maxItems && (|path| > 1 ==> minItems <= |items|)
      modifies leaf`items, heap`s
      ensures heap.Agrees() && TreeStep(old(heap.s), heap.s, this) && OnlyFresh()
      ensures OwnRoot(heap.s, this) && heap.s.roots[this] == root
      ensures var c, e := old(Items()), old(leaf.items);
        && |e| <= |c|
        && (if last then e == c[|c| - |e|..] else e == c[..|e|])
        && Items() == (if last then c[..|c| - |e|] + items else items + c[|e|..])
      ensures Sorted(Items()) ==> TreeOk(heap.s, this, |Items()|, height, minItems)
    {
      hide Linked, AllFaithful, Faithful, Frame, Others, Contents, EdgePath, TreeOk;
      ghost var s := heap.s;
      LeafWrite(s, leaf, items);
      WriteItems(leaf, items, Leaf(items));
      ghost var w := LiftEdge(s, heap.s, path, last, items);
      EdgeTree(s, w, this, path, last, items, count, height, minItems);
      heap.s := w;
    }

    /** An unshared way down to the outermost leaf. */
    method BeginEdge(last: bool) returns (leaf: Node, ghost path: seq<Node>)
      requires heap.Ok() && this in heap.trees && root != null
      modifies this`root, heap`s, heap.s.g.Keys
      ensures heap.Ok() && OnlyThis() && OnlyFresh() && Working() && Items() == old(Items())
      ensures AtEdge(leaf, path, last)
    {
      hide Linked, AllFaithful, Faithful, Frame, Others, Contents, EdgePath, TreeOk, TreeStep, Flat, Shape, Sorted;
      Begin();
      label Unshared:
      leaf, path := DescendEdge(last);
      StepOk@Unshared();
    }

    static lemma EdgeRemoval(c: seq<Entry>, last: bool)
      requires c != []
      ensures var i := if last then |c| - 1 else 0;
        Removal(c, Without(c, i), if last then PopBack else PopFront, Some(c[i])) && |Without(c, i)| == |c| - 1
    {
    }

    /** Taking the first or last entry out of the outermost leaf. */
    method TakeEdge(leaf: Node, ghost path: seq<Node>, last: bool) returns (prev: Entry)
      requires Working() && AtEdge(leaf, path, last) && minItems < |leaf.items|
      modifies this`count, leaf`items, heap`s
      ensures heap.Agrees() && TreeStep(old(heap.s), heap.s, this) && OnlyFresh() && RootOk(heap.s)
      ensures Removal(old(Items()), Items(), if last then PopBack else PopFront, Some(prev))
    {
      hide Linked, AllFaithful, Faithful, Frame, Others, Contents, EdgePath, TreeOk, TreeStep, Sorted, Flat, Less, Rank;
      hide Removal, Without;
      ghost var c, e := Items(), leaf.items;
      CountIs(heap.s, this, count, height, minItems);
      prev := if last then leaf.items[|leaf.items| - 1] else leaf.items[0];
      WriteEdge(leaf, path, last, if last then leaf.items[..|leaf.items| - 1] else leaf.items[1..]);
      EdgePop(c, e, last);
      EdgeRemoval(c, last);
      count := count - 1;
    }

    /** The fast path of udx_btree_pop_min and udx_btree_pop_max: the outermost leaf can spare an entry. */
    method PopEdge(leaf: Node, ghost path: seq<Node>, last: bool) returns (prev: Entry)
      requires heap.Ok() && this in heap.trees && Working() && AtEdge(leaf, path, last) && minItems < |leaf.items|
      modifies this`count, leaf`items, heap`s
      ensures heap.Ok() && OnlyThis() && OnlyFresh()
      ensures Removal(old(Items()), Items(), if last then PopBack else PopFront, Some(prev))
    {
      hide Linked, AllFaithful, Others, Contents, EdgePath, TreeOk, TreeStep, Removal;
      prev := TakeEdge(leaf, path, last);
      StepOk();
    }

    /** udx_btree_pop_min, and udx_btree_pop_max when last is set. */
    method Pop(last: bool) returns (prev: Option<Entry>)
      requires heap.Ok() && this in heap.trees
      modifies this`root, this`count, this`height, heap`s, heap.s.g.Keys
      ensures heap.Ok() && OnlyThis() && OnlyFresh()
      ensures Removal(old(Items()), Items(), if last then PopBack else PopFront, prev)
    {
      hide Linked, AllFaithful, Others, Contents, EdgePath, TreeOk, Removal;
      if root != null {
        var leaf, path := BeginEdge(last);
        if |leaf.items| > minItems {
          var x := PopEdge(leaf, path, last);
          return Some(x);
        }
      }
      prev := Delete0(if last then PopBack else PopFront);
    }

    /** The fast path of udx_btree_load: the item goes behind everything else. */
    method AppendEdge(leaf: Node, ghost path: seq<Node>, item: Entry)
      requires heap.Ok() && this in heap.trees && Working() && AtEdge(leaf, path, true) && |leaf.items| < maxItems
      requires Less(leaf.items[|leaf.items| - 1].key, item.key)
      modifies this`count, leaf`items, heap`s
      ensures heap.Ok() && OnlyThis() && OnlyFresh()
      ensures Items() == Put(old(Items()), item) && !Has(old(Items()), item.key)
    {
      hide Linked, AllFaithful, Faithful, Frame, Others, Contents, EdgePath;
      hide TreeOk, TreeStep, Sorted, Flat, Less, Put, Has;
      ghost var c, e := Items(), leaf.items;
      CountIs(heap.s, this, count, height, minItems);
      WriteEdge(leaf, path, true, leaf.items + [item]);
      EdgePush(c, e, item);
      count := count + 1;
      StepOk();
    }

    /** udx_btree_load: the fast path appends to the last leaf. */
    method Load(item: Entry) returns (prev: Option<Entry>)
      requires heap.Ok() && this in heap.trees
      modifies this`root, this`count, this`height, heap`s, heap.s.g.Keys
      ensures heap.Ok() && OnlyThis() && OnlyFresh()
      ensures Items() == Put(old(Items()), item)
      ensures prev == Previous(old(Items()), item.key)
    {
      hide Linked, AllFaithful, Others, Contents, EdgePath, TreeOk;
      if root == null {
        prev := Set(item);
        return;
      }
      var leaf, path := BeginEdge(true);
      if |leaf.items| < maxItems && Compare(item.key, leaf.items[|leaf.items| - 1].key) > 0 {
        AppendEdge(leaf, path, item);
        return None;
      }
      prev := Set(item);
    }
  }
}
