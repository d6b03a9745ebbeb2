// The B-tree iterator: an explicit stack that stands for one position in the ordered contents.

module BTreeIters {
  import opened Bytes
  import opened Entries
  import opened BTreeValue
  import opened NodeGraph
  import opened NodeSteps
  import opened TreeSteps
  import opened BTreeCursor
  import opened BTrees

  /** struct btree_iter_stack_item */
  datatype Slot = Slot(node: Node, index: int)

  class Iter {
    const btree: BTree
    var item: Entry
    var seeked: bool
    var atstart: bool
    var atend: bool
    var stack: seq<Slot>
    ghost var path: seq<Level>

    /** udx_btree_iter_new */
    constructor (btree: BTree)
      ensures this.btree == btree && !seeked && !atstart && !atend && stack == []
    {
      this.btree := btree;
      item := Entry([], []);
      seeked, atstart, atend, stack, path := false, false, false, [], [];
    }

    // -------------------------------------------------------------- what the stack stands for

    /** The tree being walked is sound. */
    ghost predicate Tied()
      reads btree, btree.heap, btree.heap.s.g.Keys, btree.heap.trees
    {
      btree.heap.Ok() && btree in btree.heap.trees
    }

    ghost predicate OnLevel(k: nat)
      reads this`stack, this`path, btree, btree.heap
      requires k < |stack| && k < |path|
    {
      var s, n := btree.heap.s, stack[k].node;
      && n in s.g && path[k] == Level(s.g[n].value, stack[k].index)
      && Ready(s, n, btree.minItems) && s.g[n].level + k == btree.height
    }

    /** path spells out the values on the stack; the stack never outgrows its allocation of height slots. */
    ghost predicate OnPath()
      reads this`stack, this`path, btree, btree.heap
    {
      && |path| == |stack| <= btree.height
      && forall k :: 0 <= k < |stack| ==> OnLevel(k)
    }

    ghost function RootValue(): Tree
      reads btree, btree.heap
      requires btree in btree.heap.s.roots && btree.heap.s.roots[btree] in btree.heap.s.g
    {
      btree.heap.s.g[btree.heap.s.roots[btree]].value
    }

    ghost predicate Rooted()
      reads btree, btree.heap
    {
      btree in btree.heap.s.roots && btree.heap.s.roots[btree] in btree.heap.s.g
    }

    /** The stack points at position p of the contents; p is -1 for a leaf index in front of everything. */
    ghost predicate Aimed(p: int)
      reads this, btree, btree.heap
    {
      && seeked && stack != [] && Rooted() && OnPath() && Chain(path, RootValue())
      && (if Top(path).t.Leaf? then -1 else 0) <= Top(path).i < |Top(path).t.items|
      && At(path, RootValue()) == p
    }

    /** The iterator stands on entry p: its stack points there and its item is that entry. */
    ghost predicate Standing(p: int)
      reads this, btree, btree.heap
    {
      && Aimed(p) && 0 <= Top(path).i
      && 0 <= p < |btree.Items()| && item == btree.Items()[p]
    }

    lemma Stands(p: int)
      requires Standing(p)
      ensures seeked && 0 <= p < |btree.Items()| && item == btree.Items()[p] && CanStep()
    {
    }

    /** Before the first step, or on some entry. */
    ghost predicate CanStep()
      reads this, btree, btree.heap
    {
      seeked ==> exists p :: Standing(p)
    }

    /** The fields of a node with a sound value. */
    lemma Fields(node: Node)
      requires Tied() && node in btree.heap.s.g && Ready(btree.heap.s, node, btree.minItems)
      ensures var v := btree.heap.s.g[node].value;
        && v.items == node.items && v.Leaf? == node.leaf && Wide(v) && Sorted(Flat(v))
        && 1 <= btree.heap.s.g[node].level
        && btree.heap.s.g[node].children == node.children
        && (!node.leaf ==> |node.children| == |node.items| + 1)
    {
      hide Ready, Linked, AllFaithful, Flat, Sorted;
      NodeWide(btree.heap.s, node, btree.minItems);
      assert Heap.Holds(node, btree.heap.s.g[node]);
    }

    /** The topmost node. */
    lemma TopFields()
      requires Tied() && OnPath() && stack != []
      ensures var node := stack[|stack| - 1].node;
        && |path| == |stack| && node in btree.heap.s.g && Ready(btree.heap.s, node, btree.minItems)
        && Top(path) == Level(btree.heap.s.g[node].value, stack[|stack| - 1].index)
        && btree.heap.s.g[node].level + |stack| - 1 == btree.height
        && Top(path).t.items == node.items && Top(path).t.Leaf? == node.leaf && Wide(Top(path).t)
        && btree.heap.s.g[node].children == node.children
        && (!node.leaf ==> |node.children| == |node.items| + 1)
    {
      hide Tied, Ready, Flat, Sorted;
      assert OnLevel(|stack| - 1);
      Fields(stack[|stack| - 1].node);
    }

    /** The child that index i of a node names. */
    lemma ChildFields(node: Node, i: nat)
      requires Tied() && node in btree.heap.s.g && Ready(btree.heap.s, node, btree.minItems)
      requires !node.leaf && i <= |node.items|
      ensures var s := btree.heap.s; var v := s.g[node].value;
        && i < |node.children| && node.children[i] in s.g && Ready(s, node.children[i], btree.minItems)
        && s.g[node.children[i]].level + 1 == s.g[node].level
        && v.Branch? && i < |v.children| && s.g[node.children[i]].value == v.children[i] && Wide(v.children[i])
    {
      hide Ready, Linked, AllFaithful, Flat, Sorted;
      assert Heap.Holds(node, btree.heap.s.g[node]);
      ChildWide(btree.heap.s, node, i, btree.minItems);
    }

    /** The root of the walked tree. */
    lemma RootFields()
      requires Tied()
      ensures btree.root == null ==> btree.Items() == []
      ensures btree.root != null ==>
        && Rooted() && btree.heap.s.roots[btree] == btree.root && btree.Items() == Flat(RootValue())
        && btree.Items() != []
        && Ready(btree.heap.s, btree.root, btree.minItems) && btree.heap.s.g[btree.root].level == btree.height
        && Wide(RootValue()) && Sorted(btree.Items())
    {
      hide Linked, AllFaithful, Flat, Sorted;
      var s := btree.heap.s;
      if btree.root == null {
        EmptyTree(s, btree, btree.count, btree.height, btree.minItems);
      } else {
        RootReady(s, btree, btree.count, btree.height, btree.minItems);
        NodeWide(s, btree.root, btree.minItems);
        WideFlat(RootValue(), btree.height, btree.minItems);
      }
    }

    // -------------------------------------------------------------- moving the stack

    /** node may be pushed next. */
    ghost predicate Entering(node: Node)
      reads this`stack, this`path, btree, btree.heap
    {
      var s := btree.heap.s;
      && Rooted() && OnPath() && node in s.g && Ready(s, node, btree.minItems)
      && s.g[node].level + |stack| == btree.height && CanEnter(path, s.g[node].value, RootValue())
    }

    /** Pushing one node. */
    method PushSlot(node: Node, index: int)
      requires Entering(node)
      modifies this`stack, this`path
      ensures stack == old(stack) + [Slot(node, index)]
      ensures node in btree.heap.s.g && path == old(path) + [Level(btree.heap.s.g[node].value, index)]
      ensures OnPath()
    {
      hide Ready, CanEnter;
      stack := stack + [Slot(node, index)];
      path := path + [Level(btree.heap.s.g[node].value, index)];
      LevelPositive(btree.heap.s, node, btree.minItems);
      forall k | 0 <= k < |stack| ensures OnLevel(k) {
        assert k < |stack| - 1 ==> old(OnLevel(k));
      }
    }

    /** The descent loop of first, last, next and prev: along the leftmost or the rightmost children to a leaf. */
    method DescendSide(start: Node, last: bool)
      requires Tied() && seeked && Entering(start)
      modifies this`stack, this`path
      ensures btree in btree.heap.s.roots && start in btree.heap.s.g
      ensures CanEnter(old(path), btree.heap.s.g[start].value, RootValue())
      ensures var v := btree.heap.s.g[start].value;
              Aimed(Gate(old(path), v, RootValue()) + if last then |Flat(v)| - 1 else 0)
      ensures path != [] && 0 <= Top(path).i
    {
      hide Ready, Chain, Flat, CanEnter, Tied, Sorted, OnPath, At;
      var node := start;
      ghost var s := btree.heap.s;
      ghost var v0 := s.g[start].value;
      ghost var target := Gate(path, v0, RootValue()) + if last then |Flat(v0)| - 1 else 0;
      while true
        invariant Entering(node) && seeked
        invariant target == Gate(path, s.g[node].value, RootValue()) + if last then |Flat(s.g[node].value)| - 1 else 0
        decreases s.g[node].level
      {
        Fields(node);
        ghost var p, v := path, s.g[node].value;
        PushSlot(node, if last then |node.items| else 0);
        if node.leaf {
          LeafFlat(v);
          if last {
            SetTop(stack[|stack| - 1].index - 1);
          }
          EnterLeaf(p, v, RootValue(), Top(path).i);
          return;
        }
        ChildFields(node, if last then |node.items| else 0);
        EnterChild(p, v, RootValue(), if last then |node.items| else 0);
        node := node.children[if last then |node.items| else 0];
      }
    }

    /** Writing the index of the topmost slot. */
    method SetTop(index: int)
      requires OnPath() && stack != []
      modifies this`stack, this`path
      ensures OnPath() && |stack| == old(|stack|)
      ensures path == Rest(old(path)) + [Level(Top(old(path)).t, index)]
      ensures stack[|stack| - 1] == Slot(old(stack[|stack| - 1].node), index)
    {
      hide Ready;
      var top := |stack| - 1;
      assert OnLevel(top);
      stack := stack[..top] + [Slot(stack[top].node, index)];
      path := path[..top] + [Level(path[top].t, index)];
      forall k | 0 <= k < |stack| ensures OnLevel(k) {
        assert old(OnLevel(k));
      }
    }

    /** iter->nstack-- */
    method PopSlot()
      requires OnPath() && stack != []
      modifies this`stack, this`path
      ensures OnPath() && stack == old(stack[..|stack| - 1]) && path == Rest(old(path))
    {
      hide Ready;
      ghost var n := |stack|;
      assert OnLevel(n - 1);
      stack := stack[..|stack| - 1];
      path := path[..|path| - 1];
      forall k | 0 <= k < |stack| ensures OnLevel(k) {
        assert old(OnLevel(k));
      }
    }

    /** btree_copy_item_into at the topmost slot. */
    method CopyItem(ghost p: int)
      requires Tied() && Aimed(p) && 0 <= Top(path).i
      modifies this`item
      ensures Standing(p)
    {
      hide Ready, Flat, Chain, Tied, Sorted;
      var top := stack[|stack| - 1];
      RootFields();
      TopFields();
      ItemHere(path, RootValue());
      item := top.node.items[top.index];
    }

    // -------------------------------------------------------------- the operations

    /** The fresh state that first, last and seek start from. */
    method Reset()
      modifies this`atend, this`atstart, this`seeked, this`stack, this`path
      ensures !atend && !atstart && !seeked && stack == [] && path == []
      ensures OnPath()
    {
      atend, atstart, seeked, stack, path := false, false, false, [], [];
    }

    /** udx_btree_iter_first, and udx_btree_iter_last when last is set. */
    method Edge(last: bool) returns (ok: bool)
      requires Tied()
      modifies this
      ensures Tied()
      ensures ok == seeked == (btree.Items() != []) && !atstart && !atend
      ensures ok ==> Standing(if last then |btree.Items()| - 1 else 0)
      ensures !ok ==> stack == []
    {
      hide Ready, Flat, Chain, Tied, Sorted;
      RootFields();
      Reset();
      if btree.root == null {
        return false;
      }
      seeked := true;
      EnterRoot(path, RootValue());
      DescendSide(btree.root, last);
      CopyItem(if last then |btree.Items()| - 1 else 0);
      return true;
    }

    /** Behind an item of a branch comes the child at the next index. */
    lemma Turned(was: seq<Level>, p: int)
      requires Tied() && Rooted() && OnPath() && stack != [] && was != [] && Chain(was, RootValue())
      requires Top(was).t.Branch? && 0 <= Top(was).i < |Top(was).t.items| && At(was, RootValue()) == p
      requires path == Rest(was) + [Level(Top(was).t, Top(was).i + 1)]
      ensures var node := stack[|stack| - 1].node;
        && 0 <= Top(was).i + 1 < |node.children| && Entering(node.children[Top(was).i + 1])
        && Gate(path, btree.heap.s.g[node.children[Top(was).i + 1]].value, RootValue()) == p + 1
    {
      hide Ready, Flat, Tied, Sorted, Chain;
      TopFields();
      ChildFields(stack[|stack| - 1].node, Top(was).i);
      ChildFields(stack[|stack| - 1].node, Top(was).i + 1);
      Around(was, RootValue());
    }

    /** Behind an item of a leaf comes the next item, or the end of the leaf. */
    lemma Stepped(was: seq<Level>, p: int)
      requires Tied() && seeked && Rooted() && OnPath() && stack != [] && was != [] && Chain(was, RootValue())
      requires Top(was).t.Leaf? && -1 <= Top(was).i < |Top(was).t.items| && At(was, RootValue()) == p
      requires path == Rest(was) + [Level(Top(was).t, Top(was).i + 1)]
      ensures Chain(path, RootValue()) && Top(path) == Level(Top(was).t, Top(was).i + 1)
      ensures At(path, RootValue()) == p + 1
    {
      hide Ready, Flat, Tied, Sorted, Chain;
      Reindex(was, RootValue(), Top(was).i + 1);
    }

    /** udx_btree_iter_next from any stack that points at some position. */
    method Advance(ghost p: int) returns (ok: bool)
      requires Tied() && Aimed(p)
      modifies this
      ensures Tied()
      ensures seeked && atstart == old(atstart)
      ensures ok == (p + 1 < |btree.Items()|) && atend == (old(atend) || !ok)
      ensures if ok then Standing(p + 1) else stack == []
    {
      hide Ready, Flat, Tied, Sorted, Chain, OnPath, At;
      var top := stack[|stack| - 1];
      RootFields();
      TopFields();
      ghost var was := path;
      SetTop(top.index + 1);
      if top.node.leaf {
        Stepped(was, p);
        if top.index + 1 == |top.node.items| {
          Climb(p + 1);
          if stack == [] {
            atend := true;
            return false;
          }
        }
      } else {
        Turned(was, p);
        DescendSide(top.node.children[top.index + 1], false);
      }
      CopyItem(p + 1);
      ok := true;
    }

    /** The climbing loop of next: off every node that is used up. */
    method Climb(ghost p: int)
      requires Tied() && seeked && stack != [] && Rooted() && OnPath() && Chain(path, RootValue())
      requires Top(path).t.Leaf? && Top(path).i == |Top(path).t.items| && At(path, RootValue()) == p
      modifies this`stack, this`path
      ensures if stack == [] then p == |btree.Items()| else Aimed(p) && 0 <= Top(path).i
    {
      hide Ready, Flat, Chain, Tied, Sorted;
      RootFields();
      while true
        invariant stack != [] && Rooted() && seeked && OnPath() && Chain(path, RootValue())
        invariant Top(path).i == |Top(path).t.items| && At(path, RootValue()) == p
        decreases |stack|
      {
        PopUp(path, RootValue());
        ChainRest(path, RootValue());
        PopSlot();
        if |stack| == 0 {
          return;
        }
        TopFields();
        if stack[|stack| - 1].index < |stack[|stack| - 1].node.items| {
          return;
        }
      }
    }

    /** udx_btree_iter_next */
    method Next() returns (ok: bool)
      requires Tied() && CanStep()
      modifies this
      ensures Tied()
      ensures !old(seeked) ==> ok == seeked == (btree.Items() != []) && (ok ==> Standing(0)) && (!ok ==> stack == [])
      ensures forall p :: old(Standing(p)) ==>
        ok == (p + 1 < |btree.Items()|) && (if ok then Standing(p + 1) else stack == [] && atend)
    {
      hide Ready, Flat, Tied, Sorted, Chain, OnPath;
      if !seeked {
        ok := Edge(false);
      } else {
        ghost var p :| Standing(p);
        ok := Advance(p);
      }
    }

    /** The climbing loop of prev: off every node whose index falls below its first item. */
    method ClimbBack(ghost p: int)
      requires Tied() && seeked && stack != [] && Rooted() && OnPath() && Chain(path, RootValue())
      requires Top(path).i == -1 && Base(path, RootValue()) == p
      modifies this`stack, this`path
      ensures if stack == [] then p == 0 else Aimed(p - 1) && 0 <= Top(path).i
    {
      hide Ready, Flat, Chain, Tied, Sorted;
      RootFields();
      while true
        invariant stack != [] && Rooted() && seeked && OnPath() && Chain(path, RootValue())
        invariant Top(path).i == -1 && Base(path, RootValue()) == p
        decreases |stack|
      {
        PopDown(path, RootValue());
        PopSlot();
        if |stack| == 0 {
          return;
        }
        TopFields();
        SetTop(stack[|stack| - 1].index - 1);
        if stack[|stack| - 1].index > -1 {
          return;
        }
      }
    }

    /** udx_btree_iter_prev */
    method Prev() returns (ok: bool)
      requires Tied() && CanStep()
      modifies this
      ensures Tied()
      ensures !old(seeked) ==> !ok && !seeked
      ensures forall p :: old(Standing(p)) ==>
        ok == (0 < p) && (if ok then Standing(p - 1) else stack == [] && atstart)
    {
      hide Ready, Flat, Tied, Sorted, Chain, OnPath;
      if !seeked {
        return false;
      }
      ghost var p :| Standing(p);
      ok := Retreat(p);
    }

    /** In front of an item of a leaf is the item before it, or the start of the leaf. */
    lemma SteppedBack(was: seq<Level>, p: int)
      requires Tied() && seeked && Rooted() && OnPath() && stack != [] && was != [] && Chain(was, RootValue())
      requires Top(was).t.Leaf? && 0 <= Top(was).i < |Top(was).t.items| && At(was, RootValue()) == p
      requires path == Rest(was) + [Level(Top(was).t, Top(was).i - 1)]
      ensures Chain(path, RootValue()) && Top(path) == Level(Top(was).t, Top(was).i - 1)
      ensures At(path, RootValue()) == p - 1
      ensures Top(was).i == 0 ==> Base(path, RootValue()) == p
    {
      hide Ready, Flat, Tied, Sorted, Chain;
      Reindex(was, RootValue(), Top(was).i - 1);
    }

    /** In front of an item of a branch lies the child at its index. */
    lemma TurnedBack(p: int)
      requires Tied() && Aimed(p) && Top(path).t.Branch?
      ensures var top := stack[|stack| - 1];
        && 0 <= top.index < |top.node.children| && Entering(top.node.children[top.index])
      ensures var c := stack[|stack| - 1].node.children[stack[|stack| - 1].index];
        Gate(path, btree.heap.s.g[c].value, RootValue()) + |Flat(btree.heap.s.g[c].value)| == p
    {
      hide Ready, Flat, Tied, Sorted, Chain;
      TopFields();
      ChildFields(stack[|stack| - 1].node, Top(path).i);
      ChildFields(stack[|stack| - 1].node, Top(path).i + 1);
      Around(path, RootValue());
    }

    method Retreat(ghost p: int) returns (ok: bool)
      requires Tied() && Standing(p)
      modifies this
      ensures Tied()
      ensures seeked && ok == (0 < p)
      ensures if ok then Standing(p - 1) else stack == [] && atstart
    {
      hide Ready, Flat, Tied, Sorted, Chain, OnPath, At;
      var top := stack[|stack| - 1];
      RootFields();
      TopFields();
      if top.node.leaf {
        ghost var was := path;
        SetTop(stack[|stack| - 1].index - 1);
        SteppedBack(was, p);
        if top.index - 1 == -1 {
          ClimbBack(p);
          if |stack| == 0 {
            atstart := true;
            return false;
          }
        }
      } else {
        TurnedBack(p);
        DescendSide(top.node.children[top.index], true);
      }
      CopyItem(p - 1);
      ok := true;
    }

    /** The end of a seek: on the key itself, or one step behind the slot in front of it. */
    method SeekEnd(key: Buffer, found: bool, ghost below: seq<Level>, ghost v: Tree, ghost r: int) returns (ok: bool)
      requires Tied() && seeked && !atend && !atstart && Rooted() && OnPath() && stack != [] && (found || v.Leaf?)
      requires CanEnter(below, v, RootValue()) && path == below + [Level(v, Rank(v.items, key))]
      requires found == Has(v.items, key)
      requires Sorted(Flat(v)) && r == Gate(below, v, RootValue()) + Rank(Flat(v), key)
      modifies this
      ensures Tied()
      ensures ok == (r < |btree.Items()|) && (if ok then Standing(r) else stack == [])
      ensures seeked && !atstart && atend == !ok
    {
      hide Ready, Flat, Chain, Tied, Sorted, CanEnter, OnPath;
      Enter(below, v, RootValue(), Rank(v.items, key));
      CanEnterWide(below, v, RootValue());
      TopFields();
      if found {
        FoundHere(v, key);
        CopyItem(r);
        ok := true;
      } else {
        LeafFlat(v);
        SetTop(stack[|stack| - 1].index - 1);
        EnterLeaf(below, v, RootValue(), Top(path).i);
        ok := Advance(r - 1);
      }
    }

    /** Going on to the child that a key leads to. */
    lemma SeekChild(node: Node, key: Buffer, below: seq<Level>)
      requires Tied() && Rooted() && OnPath() && node in btree.heap.s.g && Ready(btree.heap.s, node, btree.minItems)
      requires !node.leaf && btree.heap.s.g[node].level + |stack| - 1 == btree.height
      requires var v := btree.heap.s.g[node].value;
        && CanEnter(below, v, RootValue()) && !Has(v.items, key) && path == below + [Level(v, Rank(v.items, key))]
      ensures var s, v := btree.heap.s, btree.heap.s.g[node].value; var i := Rank(v.items, key);
        && i < |node.children| && Entering(node.children[i]) && s.g[node.children[i]].level < s.g[node].level
        && var u := s.g[node.children[i]].value;
           Gate(path, u, RootValue()) + Rank(Flat(u), key) == Gate(below, v, RootValue()) + Rank(Flat(v), key)
    {
      hide Ready, Flat, Chain, Tied, Sorted, CanEnter, OnPath, Rank;
      Fields(node);
      var v := btree.heap.s.g[node].value;
      var i := Rank(v.items, key);
      ChildFields(node, i);
      EnterChild(below, v, RootValue(), i);
      SeekDown(v, key);
    }

    /** udx_btree_iter_seek: the first entry not below the key. */
    method Seek(key: Buffer) returns (ok: bool)
      requires Tied()
      modifies this
      ensures Tied()
      ensures ok == (Rank(btree.Items(), key) < |btree.Items()|)
      ensures if ok then Standing(Rank(btree.Items(), key)) else stack == []
      ensures seeked == (btree.Items() != []) && !atstart && atend == (seeked && !ok)
    {
      hide Ready, Flat, Chain, Tied, Sorted, CanEnter, OnPath;
      RootFields();
      Reset();
      if btree.root == null {
        return false;
      }
      seeked := true;
      ghost var s := btree.heap.s;
      ghost var r: int := Rank(btree.Items(), key);
      var node: Node := btree.root;
      EnterRoot(path, RootValue());
      while true
        invariant Entering(node) && seeked && !atend && !atstart
        invariant r == Gate(path, s.g[node].value, RootValue()) + Rank(Flat(s.g[node].value), key)
        decreases s.g[node].level
      {
        Fields(node);
        ghost var p, v := path, s.g[node].value;
        ItemsSorted(v);
        var i, found := btree.Bsearch(node, key);
        PushSlot(node, i);
        if found || node.leaf {
          ok := SeekEnd(key, found, p, v, r);
          return;
        }
        SeekChild(node, key, p);
        node := node.children[i];
      }
    }
  }

  // ---------------------------------------------------------------- facts about ready nodes

  lemma LevelPositive<N, T>(s: State<N, T>, n: N, m: nat)
    requires Ready(s, n, m)
    ensures n in s.g && 1 <= s.g[n].level
  {
    assert DownOk(s, n);
  }

  lemma NodeWide<N, T>(s: State<N, T>, n: N, m: nat)
    requires Ready(s, n, m)
    ensures n in s.g && 1 <= s.g[n].level && Wide(s.g[n].value) && Sorted(Flat(s.g[n].value))
    ensures s.g[n].value.items == s.g[n].items && s.g[n].value.Leaf? == s.g[n].leaf
    ensures !s.g[n].leaf ==> |s.g[n].children| == |s.g[n].items| + 1
  {
    hide Flat;
    LevelPositive(s, n, m);
    ReadyFields(s, n, m);
  }

  lemma ChildWide<N, T>(s: State<N, T>, n: N, i: nat, m: nat)
    requires Ready(s, n, m) && n in s.g && !s.g[n].leaf && i <= |s.g[n].items|
    ensures i < |s.g[n].children| && Ready(s, s.g[n].children[i], m)
    ensures s.g[n].children[i] in s.g && s.g[s.g[n].children[i]].level + 1 == s.g[n].level
    ensures s.g[n].value.Branch? && i < |s.g[n].value.children|
    ensures s.g[s.g[n].children[i]].value == s.g[n].value.children[i]
    ensures Wide(s.g[n].value.children[i])
  {
    hide Ready;
    ReadyDown(s, n, i, m);
    NodeWide(s, s.g[n].children[i], m);
  }

  lemma {:induction false} WideFlat(t: Tree, h: nat, m: nat)
    requires Shape(t, h, 1, m)
    ensures Flat(t) != []
  {
    if t.Branch? { Decompose(t.items, t.children, |t.items| - 1); }
  }

  lemma CanEnterWide(st: seq<Level>, t: Tree, root: Tree)
    requires CanEnter(st, t, root)
    ensures Wide(t)
  {
  }

  lemma EnterRoot(st: seq<Level>, t: Tree)
    requires Wide(t) && st == []
    ensures CanEnter(st, t, t) && Gate(st, t, t) == 0
  {
  }

  lemma ChainRest(st: seq<Level>, root: Tree)
    requires Chain(st, root)
    ensures |st| > 1 ==> Chain(Rest(st), root)
  {
  }
}
